/** How a run of the install authority ends, by what happened in it: which events decide, and what exit
    status each of them leads to. */
module InstallOutcomes {
  import opened Outcomes
  import opened InstallTransaction

  // ---- Runs in pieces ------------------------------------------------------------------------------

  lemma {:induction false} ExecSplit(s: State, a: seq<Event>, b: seq<Event>)
    requires Possible(s, a + b)
    ensures Possible(s, a) && Possible(Exec(s, a), b) && Exec(s, a + b) == Exec(Exec(s, a), b)
    decreases |a|
  {
    hide Step, Enabled;
    if a == [] {
      assert a + b == b;
    } else {
      assert (a + b)[0] == a[0] && (a + b)[1..] == a[1..] + b;
      ExecSplit(Step(s, a[0]), a[1..], b);
    }
  }

  /** The state in which `e` happens and the one after it. */
  lemma ExecAround(s: State, a: seq<Event>, e: Event, b: seq<Event>) returns (before: State, after: State)
    requires Inv(s) && Possible(s, a + [e] + b)
    ensures Possible(s, a) && before == Exec(s, a) && Inv(before) && Enabled(before, e)
    ensures after == Step(before, e) && Inv(after) && Possible(after, b) && Exec(s, a + [e] + b) == Exec(after, b)
  {
    hide Inv, Step, Enabled;
    assert a + [e] + b == a + ([e] + b);
    ExecSplit(s, a, [e] + b);
    before := Exec(s, a);
    RunKeeps(s, a);
    assert ([e] + b)[0] == e && ([e] + b)[1..] == b;
    after := Step(before, e);
    StepKeeps(before, e);
  }

  // ---- An undisturbed run --------------------------------------------------------------------------

  /** Everything goes well: no signal, no exception, workers that exit 0, a rename that succeeds. */
  predicate Smooth(e: Event) {
    e.Fork? || e.StageTouched? || e.Proceed? || e.Reap? || e == Exited(0) || e.Renamed? || e.Unblock?
  }

  ghost predicate Clear(s: State) {
    && s.cancel == 0 && s.pending == {} && s.teardown.Complete? && !InCleanup(s.pc)
    && ((s.pc.Drain? || s.pc.PhaseExit?) ==> s.pc.rc == 0)
    && (s.pc.Unmask? ==> !s.pc.raising && s.publication.Committed?)
    && (Closing(s.pc) ==> s.publication.Committed?)
  }

  lemma ClearPhase(s: State)
    requires Clear(s) && ResultsInv(s) && Enabled(s, Proceed) && InPhase(s.pc)
    ensures Clear(AdvancePhase(s))
  {
    assert s.pc.phase.Work?;
  }

  lemma ClearSetup(s: State)
    requires Clear(s) && InSetup(s.pc)
    ensures Clear(AdvanceSetup(s))
  {}

  lemma ClearPublish(s: State)
    requires Clear(s) && InPublish(s.pc)
    ensures Clear(AdvancePublish(s))
  {}

  lemma ClearClose(s: State)
    requires Clear(s) && Closing(s.pc) && !InPhase(s.pc)
    ensures Clear(AdvanceClose(s))
  {
    hide ExitStatus;
  }

  lemma ClearAdvance(s: State)
    requires Inv(s) && Clear(s) && Enabled(s, Proceed)
    ensures Clear(Advance(s))
  {
    hide SignalInv, OrderInv, WorldInv, CodeInv, ResultsInv, AdvanceSetup, AdvancePhase, AdvancePublish, AdvanceClose, Clear;
    if InSetup(s.pc) {
      ClearSetup(s);
    } else if InPhase(s.pc) {
      ClearPhase(s);
    } else if InPublish(s.pc) {
      ClearPublish(s);
    } else {
      ClearClose(s);
    }
  }

  lemma ClearStep(s: State, e: Event)
    requires Inv(s) && Clear(s) && Enabled(s, e) && Smooth(e)
    ensures Clear(Step(s, e))
  {
    hide SignalInv, OrderInv, WorldInv, ResultsInv;
    if e.Proceed? { ClearAdvance(s); }
  }

  lemma {:induction false} ClearRun(s: State, es: seq<Event>)
    requires Inv(s) && Clear(s) && Possible(s, es) && forall e :: e in es ==> Smooth(e)
    ensures Inv(Exec(s, es)) && Clear(Exec(s, es))
    decreases |es|
  {
    hide Inv, Clear, Smooth, Step, Enabled;
    if es != [] {
      assert es[0] in es;
      StepKeeps(s, es[0]);
      ClearStep(s, es[0]);
      ClearRun(Step(s, es[0]), es[1..]);
    }
  }

  /** An undisturbed installation is published and reported with status 0. */
  lemma UndisturbedCommits(s: State, es: seq<Event>)
    requires Initial(s) && s.cancel == 0 && Possible(s, es) && Exec(s, es).pc.Done?
    requires forall e :: e in es ==> Smooth(e)
    ensures Exec(s, es).publication.Committed? && Exec(s, es).status == 0
    ensures Exec(s, es).renames == 1 && Exec(s, es).finalOurs && !Exec(s, es).stagePath
  {
    InitialHolds(s);
    ClearRun(s, es);
  }

  /** The stage directory is there until it is renamed, and the target is free. */
  ghost predicate Staged(s: State) {
    s.publication.Committed? || (!s.finalOurs && (s.stage ==> s.stagePath))
  }

  lemma NextSmooth(s: State) returns (e: Event)
    requires Inv(s) && Clear(s) && Staged(s) && !s.pc.Done?
    ensures Enabled(s, e) && Smooth(e) && !Idle(s, e) && !e.Fork? && Staged(Step(s, e))
  {
    if s.pc.Publish? {
      e := Renamed;
    } else if s.pc.Unmask? {
      e := Unblock(2);
    } else if s.pc.Poll? {
      e := Exited(0);
    } else if (s.pc.Drain? || s.pc.FinalDrain?) && s.children > 0 {
      e := Reap;
    } else {
      e := Proceed;
    }
  }

  lemma {:induction false} SmoothRun(s: State) returns (es: seq<Event>)
    requires Inv(s) && Clear(s) && Staged(s)
    ensures Possible(s, es) && Exec(s, es).pc.Done? && forall e :: e in es ==> Smooth(e)
    decreases Remaining(s)
  {
    hide Inv, Remaining, Step, Enabled, Clear, Smooth, Staged;
    RemainingPositive(s);
    if s.pc.Done? {
      es := [];
    } else {
      var e := NextSmooth(s);
      StepKeeps(s, e);
      StepRemaining(s, e);
      ClearStep(s, e);
      var rest := SmoothRun(Step(s, e));
      es := [e] + rest;
      assert es[1..] == rest;
    }
  }

  /** The authority may start with no signal recorded, or with either of the two. */
  lemma Starts(cancel: int) returns (s: State)
    requires cancel == 0 || cancel == 2 || cancel == 15
    ensures Initial(s) && s.cancel == cancel
  {
    s := State(CheckCancel, cancel, false, {}, NotPublished, Complete, 2, false, -1, false, false, 0, 0, [], None);
  }

  /** And there is such a run from the start. */
  lemma UndisturbedRun() returns (s: State, es: seq<Event>)
    ensures Initial(s) && s.cancel == 0 && Possible(s, es) && Exec(s, es).pc.Done? && forall e :: e in es ==> Smooth(e)
  {
    s := Starts(0);
    InitialHolds(s);
    es := SmoothRun(s);
  }

  // ---- What the teardown says ------------------------------------------------------------------------

  /** The teardown goes wrong: an exception in the final drain or the cleanup, or a cleanup worker that
      does not exit 0. */
  predicate Botches(s: State, e: Event) {
    (e.Raise? && Closing(s.pc)) || (e.Exited? && e.rc != 0 && InCleanup(s.pc))
  }

  predicate Botched(s: State, es: seq<Event>)
    requires Possible(s, es)
    decreases |es|
  {
    es != [] && (Botches(s, es[0]) || Botched(Step(s, es[0]), es[1..]))
  }

  /** A failed cleanup worker whose return is still to come. */
  predicate Owed(s: State) {
    (s.pc.Drain? || s.pc.PhaseExit?) && s.pc.phase.Cleanup? && s.pc.rc != 0
  }

  predicate Spoiled(s: State) { s.teardown.Failed? || Owed(s) }

  lemma SpoiledPhase(s: State)
    requires InPhase(s.pc)
    ensures Spoiled(AdvancePhase(s)) <==> Spoiled(s)
  {}

  lemma SpoiledClose(s: State)
    requires !InPhase(s.pc)
    ensures Spoiled(AdvanceClose(s)) <==> Spoiled(s) || (s.pc.CleanupExists? && s.stagePath)
  {
    hide ExitStatus;
  }

  lemma SpoiledSetup(s: State)
    requires InSetup(s.pc)
    ensures Spoiled(AdvanceSetup(s)) <==> Spoiled(s)
  {}

  lemma SpoiledPublish(s: State)
    requires InPublish(s.pc)
    ensures Spoiled(AdvancePublish(s)) <==> Spoiled(s)
  {}

  lemma SpoiledAdvance(s: State)
    requires Enabled(s, Proceed)
    ensures Spoiled(Advance(s)) <==> Spoiled(s) || (s.pc.CleanupExists? && s.stagePath)
  {
    hide Spoiled, AdvanceSetup, AdvancePhase, AdvancePublish, AdvanceClose;
    if InSetup(s.pc) {
      SpoiledSetup(s);
    } else if InPhase(s.pc) {
      SpoiledPhase(s);
    } else if InPublish(s.pc) {
      SpoiledPublish(s);
    } else {
      SpoiledClose(s);
    }
  }

  lemma SpoiledStep(s: State, e: Event)
    requires Inv(s) && Enabled(s, e)
    ensures Spoiled(Step(s, e)) <==> Spoiled(s) || Botches(s, e) || (s.pc.CleanupExists? && e.Proceed? && s.stagePath)
  {
    hide SignalInv, OrderInv, WorldInv, ResultsInv, Advance;
    if e.Proceed? { SpoiledAdvance(s); }
  }

  lemma LeftoverStep(s: State, e: Event)
    requires Inv(s) && Enabled(s, e) && (s.pc.Report? || s.pc.Done?) && s.children == 0 && s.publication.NotPublished?
    ensures var z := Step(s, e); (z.pc.Report? || z.pc.Done?) && z.children == 0 && z.publication.NotPublished? && z.stagePath == s.stagePath
  {}

  lemma {:induction false} LeftoverStays(s: State, es: seq<Event>)
    requires Inv(s) && Possible(s, es) && (s.pc.Report? || s.pc.Done?) && s.children == 0 && s.publication.NotPublished?
    ensures Exec(s, es).publication.NotPublished? && Exec(s, es).stagePath == s.stagePath
    decreases |es|
  {
    hide Inv, Step, Enabled;
    if es != [] {
      StepKeeps(s, es[0]);
      LeftoverStep(s, es[0]);
      LeftoverStays(Step(s, es[0]), es[1..]);
    }
  }

  lemma LeftoverFound(s: State, es: seq<Event>)
    requires Inv(s) && Possible(s, es) && es != [] && s.pc.CleanupExists? && es[0].Proceed? && s.stagePath
    ensures Exec(s, es).publication.NotPublished? && Exec(s, es).stagePath
  {
    StepKeeps(s, es[0]);
    LeftoverStays(Step(s, es[0]), es[1..]);
  }

  lemma TeardownAtEnd(s: State)
    requires Inv(s) && s.pc.Done?
    ensures s.teardown.Failed? <==> Spoiled(s) || (s.publication.NotPublished? && s.stagePath)
  {}

  lemma {:induction false} TeardownFrom(s: State, es: seq<Event>)
    requires Inv(s) && Possible(s, es) && Exec(s, es).pc.Done?
    ensures var z := Exec(s, es);
      z.teardown.Failed? <==> Spoiled(s) || Botched(s, es) || (z.publication.NotPublished? && z.stagePath)
    decreases |es|
  {
    hide Inv, Step, Enabled, Spoiled, Botches;
    if es == [] {
      TeardownAtEnd(s);
    } else {
      StepKeeps(s, es[0]);
      SpoiledStep(s, es[0]);
      TeardownFrom(Step(s, es[0]), es[1..]);
      if s.pc.CleanupExists? && es[0].Proceed? && s.stagePath { LeftoverFound(s, es); }
    }
  }

  /** FAILED is reported exactly when the final drain or the cleanup raised, the cleanup worker did not exit
      0, or an unpublished stage directory is still there at the end. */
  lemma TeardownIff(s: State, es: seq<Event>)
    requires Initial(s) && Possible(s, es) && Exec(s, es).pc.Done?
    ensures var z := Exec(s, es);
      z.teardown.Failed? <==> Botched(s, es) || (z.publication.NotPublished? && z.stagePath)
  {
    hide Exec, Possible, Botched;
    InitialHolds(s);
    TeardownFrom(s, es);
  }

  // ---- Which event decides -----------------------------------------------------------------------------

  /** The events that settle how the run ends. */
  predicate Decisive(s: State, e: Event) {
    || e.Renamed? || e.RenameErrno? || e.RenameCrashed?
    || (Preparing(s.pc) && (e.Raise? || (e.Signal? && !s.masked) || (e.Exited? && e.rc != 0)))
  }

  predicate Undecided(s: State, es: seq<Event>)
    requires Possible(s, es)
    decreases |es|
  {
    es == [] || (!Decisive(s, es[0]) && Undecided(Step(s, es[0]), es[1..]))
  }

  ghost predicate Underway(s: State) {
    s.cancel == 0 && (Preparing(s.pc) || s.pc.Publish?) && ((s.pc.Drain? || s.pc.PhaseExit?) ==> s.pc.rc == 0)
  }

  lemma UnderwayPhase(s: State)
    requires Underway(s) && InPhase(s.pc) && Enabled(s, Proceed)
    ensures Underway(AdvancePhase(s))
  {}

  lemma UnderwayAdvance(s: State)
    requires Underway(s) && Enabled(s, Proceed)
    ensures Underway(Advance(s))
  {
    hide AdvancePhase, AdvanceClose;
    if InPhase(s.pc) { UnderwayPhase(s); }
  }

  lemma UnderwayStep(s: State, e: Event)
    requires Inv(s) && Underway(s) && Enabled(s, e) && !Decisive(s, e)
    ensures Underway(Step(s, e))
  {
    hide OrderInv, WorldInv, ResultsInv, Advance;
    if e.Proceed? { UnderwayAdvance(s); }
  }

  lemma {:induction false} UndecidedUnderway(s: State, es: seq<Event>)
    requires Inv(s) && Underway(s) && Possible(s, es) && Undecided(s, es)
    ensures Underway(Exec(s, es))
    decreases |es|
  {
    hide Inv, Step, Enabled, Decisive, Underway;
    if es != [] {
      StepKeeps(s, es[0]);
      UnderwayStep(s, es[0]);
      UndecidedUnderway(Step(s, es[0]), es[1..]);
    }
  }

  /** No run ends without a signal recorded at its start or a decisive event. */
  lemma EndsDecided(s: State, es: seq<Event>)
    requires Initial(s) && Possible(s, es) && Exec(s, es).pc.Done?
    ensures s.cancel != 0 || !Undecided(s, es)
  {
    InitialHolds(s);
    if s.cancel == 0 && Undecided(s, es) { UndecidedUnderway(s, es); }
  }

  // ---- What each of them leads to ------------------------------------------------------------------------

  /** The ending is settled: only the teardown can still change. */
  ghost predicate Settled(s: State, p: Publication, primary: int) {
    && s.publication == p && s.primary == primary && !(p.NotPublished? && primary == 0)
    && (Closing(s.pc) || (s.pc.Unmask? && !s.pc.raising))
  }

  lemma SettledPhase(s: State, p: Publication, primary: int)
    requires Settled(s, p, primary) && InPhase(s.pc)
    ensures Settled(AdvancePhase(s), p, primary)
  {}

  lemma SettledClose(s: State, p: Publication, primary: int)
    requires Settled(s, p, primary) && Closing(s.pc) && !InPhase(s.pc)
    ensures Settled(AdvanceClose(s), p, primary)
  {
    hide ExitStatus;
  }

  lemma SettledAdvance(s: State, p: Publication, primary: int)
    requires Settled(s, p, primary) && Enabled(s, Proceed)
    ensures Settled(Advance(s), p, primary)
  {
    hide AdvanceSetup, AdvancePhase, AdvancePublish, AdvanceClose;
    if InPhase(s.pc) { SettledPhase(s, p, primary); } else { SettledClose(s, p, primary); }
  }

  lemma SettledStep(s: State, e: Event, p: Publication, primary: int)
    requires Inv(s) && Settled(s, p, primary) && Enabled(s, e)
    ensures Settled(Step(s, e), p, primary)
  {
    hide OrderInv, WorldInv, ResultsInv, Advance;
    if e.Proceed? { SettledAdvance(s, p, primary); }
  }

  lemma {:induction false} SettledRun(s: State, es: seq<Event>, p: Publication, primary: int)
    requires Inv(s) && Settled(s, p, primary) && Possible(s, es)
    ensures Inv(Exec(s, es)) && Settled(Exec(s, es), p, primary)
    decreases |es|
  {
    hide Inv, Step, Enabled, Settled;
    if es != [] {
      StepKeeps(s, es[0]);
      SettledStep(s, es[0], p, primary);
      SettledRun(Step(s, es[0]), es[1..], p, primary);
    }
  }

  lemma EndStatus(s: State, es: seq<Event>, p: Publication, primary: int)
    requires Inv(s) && Settled(s, p, primary) && Possible(s, es) && Exec(s, es).pc.Done?
    ensures Exec(s, es).publication == p
    ensures p.NotPublished? ==> Exec(s, es).status == primary
    ensures p.Unknown? ==> Exec(s, es).status == 5
    ensures p.Committed? ==> Exec(s, es).status == if Exec(s, es).teardown.Complete? then 0 else 4
  {
    SettledRun(s, es, p, primary);
  }

  predicate PastRename(pc: Pc) { pc.Unmask? || Closing(pc) }

  lemma PhaseTarget(s: State)
    requires InPhase(s.pc)
    ensures AdvancePhase(s).finalOurs == s.finalOurs
  {}

  lemma CloseTarget(s: State)
    requires Closing(s.pc) && !InPhase(s.pc)
    ensures AdvanceClose(s).finalOurs == s.finalOurs
  {
    hide ExitStatus;
  }

  lemma TargetStep(s: State, e: Event)
    requires Inv(s) && Enabled(s, e) && PastRename(s.pc)
    ensures PastRename(Step(s, e).pc) && Step(s, e).finalOurs == s.finalOurs
  {
    hide SignalInv, OrderInv, WorldInv, ResultsInv, CodeInv, AdvanceSetup, AdvancePhase, AdvancePublish, AdvanceClose;
    if Closing(s.pc) {
      ClosingStep(s, e);
      if e.Proceed? && InPhase(s.pc) { PhaseTarget(s); } else if e.Proceed? { CloseTarget(s); }
    }
  }

  /** Past the rename nothing touches the target. */
  lemma {:induction false} TargetStays(s: State, es: seq<Event>)
    requires Inv(s) && Possible(s, es) && PastRename(s.pc)
    ensures Exec(s, es).finalOurs == s.finalOurs
    decreases |es|
  {
    hide Inv, Step, Enabled, PastRename;
    if es != [] {
      StepKeeps(s, es[0]);
      TargetStep(s, es[0]);
      TargetStays(Step(s, es[0]), es[1..]);
    }
  }

  /** A rename that succeeded: COMMITTED, and status 0 or, if the teardown failed, 4. */
  lemma RenamedStatus(s: State, a: seq<Event>, b: seq<Event>)
    requires Initial(s) && Possible(s, a + [Renamed] + b) && Exec(s, a + [Renamed] + b).pc.Done?
    ensures var z := Exec(s, a + [Renamed] + b);
      z.publication.Committed? && z.status == (if Botched(s, a + [Renamed] + b) then 4 else 0) && z.finalOurs
  {
    hide Exec, Possible, Botched;
    InitialHolds(s);
    var before, after := ExecAround(s, a, Renamed, b);
    EndStatus(after, b, Committed, after.primary);
    TargetStays(after, b);
    TeardownIff(s, a + [Renamed] + b);
  }

  /** A rename that was refused: NOT_PUBLISHED, with status 2 when the target exists and 3 otherwise. */
  lemma RefusedStatus(s: State, a: seq<Event>, taken: bool, b: seq<Event>)
    requires Initial(s) && Possible(s, a + [RenameErrno(taken)] + b) && Exec(s, a + [RenameErrno(taken)] + b).pc.Done?
    ensures var z := Exec(s, a + [RenameErrno(taken)] + b); z.publication.NotPublished? && z.status == (if taken then 2 else 3) && !z.finalOurs
  {
    hide Exec, Possible;
    InitialHolds(s);
    var before, after := ExecAround(s, a, RenameErrno(taken), b);
    EndStatus(after, b, NotPublished, if taken then 2 else 3);
    TargetStays(after, b);
  }

  lemma CrashedUnknown(s: State, es: seq<Event>)
    requires Inv(s) && s.pc == Unmask(true) && s.publication.Unknown? && Possible(s, es)
    ensures Exec(s, es).publication.Unknown? && (Exec(s, es).pc.Done? ==> Exec(s, es).status == 5)
    decreases |es|
  {
    if es != [] {
      StepKeeps(s, es[0]);
      if es[0].Unblock? {
        var next := Step(s, es[0]);
        SettledRun(next, es[1..], Unknown, next.primary);
      } else {
        CrashedUnknown(Step(s, es[0]), es[1..]);
      }
    }
  }

  lemma NotCleaning(s: State)
    requires WorldInv(s) && PastRename(s.pc) && s.publication.Unknown?
    ensures !InPhase(s.pc) && !InPublish(s.pc) && !InSetup(s.pc) && !s.pc.CleanupExists?
  {}

  lemma UnknownClose(s: State)
    requires Closing(s.pc) && !InPhase(s.pc) && !s.pc.CleanupExists? && s.publication.Unknown? && s.children == 0
    ensures var z := AdvanceClose(s);
      Closing(z.pc) && z.publication.Unknown? && z.children == 0 && z.stagePath == s.stagePath
  {
    hide ExitStatus;
  }

  lemma UnknownStep(s: State, e: Event)
    requires Inv(s) && Enabled(s, e) && PastRename(s.pc) && s.publication.Unknown? && s.children == 0
    ensures var z := Step(s, e); PastRename(z.pc) && z.publication.Unknown? && z.children == 0 && z.stagePath == s.stagePath
  {
    hide SignalInv, OrderInv, ResultsInv, CodeInv, ExitStatus, AdvancePhase, AdvanceSetup, AdvancePublish, AdvanceClose;
    NotCleaning(s);
    if e.Proceed? { UnknownClose(s); }
  }

  /** Nor is the stage touched while the outcome is unknown. */
  lemma {:induction false} UnknownStays(s: State, es: seq<Event>)
    requires Inv(s) && Possible(s, es) && PastRename(s.pc) && s.publication.Unknown? && s.children == 0
    ensures Exec(s, es).stagePath == s.stagePath
    decreases |es|
  {
    hide Inv, Step, Enabled, PastRename;
    if es != [] {
      StepKeeps(s, es[0]);
      UnknownStep(s, es[0]);
      UnknownStays(Step(s, es[0]), es[1..]);
    }
  }

  /** A rename whose result was never established: UNKNOWN and status 5, whether it happened or not. */
  lemma CrashedStatus(s: State, a: seq<Event>, happened: bool, b: seq<Event>)
    requires Initial(s) && Possible(s, a + [RenameCrashed(happened)] + b) && Exec(s, a + [RenameCrashed(happened)] + b).pc.Done?
    ensures var z := Exec(s, a + [RenameCrashed(happened)] + b);
      && z.publication.Unknown? && z.status == 5
      && z.finalOurs == happened && Possible(s, a) && z.stagePath == (Exec(s, a).stagePath && !happened)
  {
    hide Exec, Possible;
    InitialHolds(s);
    var before, after := ExecAround(s, a, RenameCrashed(happened), b);
    CrashedUnknown(after, b);
    UnknownStays(after, b);
    TargetStays(after, b);
  }

  /** While the stage is set up, the code to fall back on is 3. */
  predicate SetsUp(s: State) {
    s.pc.Makedirs? || s.pc.Mkdtemp? || s.pc.Chmod? ==> s.primary == 3
  }

  lemma NeverBackPhase(s: State)
    requires InPhase(s.pc)
    ensures !InSetup(AdvancePhase(s).pc)
  {}

  lemma NeverBackPublish(s: State)
    requires InPublish(s.pc)
    ensures !InSetup(AdvancePublish(s).pc)
  {}

  /** The setup is never gone back to. */
  lemma NeverBack(s: State)
    requires Enabled(s, Proceed) && !InSetup(s.pc)
    ensures !InSetup(Advance(s).pc)
  {
    hide AdvanceSetup, AdvancePhase, AdvancePublish, ExitStatus;
    if InPhase(s.pc) { NeverBackPhase(s); } else if InPublish(s.pc) { NeverBackPublish(s); }
  }

  lemma SetsUpAdvance(s: State)
    requires SetsUp(s) && Enabled(s, Proceed)
    ensures SetsUp(Advance(s))
  {
    hide AdvancePhase, AdvancePublish, AdvanceClose;
    if !InSetup(s.pc) { NeverBack(s); }
  }

  lemma SetsUpStep(s: State, e: Event)
    requires SetsUp(s) && Enabled(s, e)
    ensures SetsUp(Step(s, e))
  {
    hide Advance;
    if e.Proceed? { SetsUpAdvance(s); }
  }

  lemma {:induction false} SetupPrimary(s: State, es: seq<Event>)
    requires SetsUp(s) && Possible(s, es)
    ensures SetsUp(Exec(s, es))
    decreases |es|
  {
    hide SetsUp, Step, Enabled;
    if es != [] {
      SetsUpStep(s, es[0]);
      SetupPrimary(Step(s, es[0]), es[1..]);
    }
  }

  /** An exception before the masked section: NOT_PUBLISHED and status 3, signals or not. */
  lemma RaisedStatus(s: State, a: seq<Event>, b: seq<Event>)
    requires Initial(s) && Possible(s, a + [Raise] + b) && Exec(s, a + [Raise] + b).pc.Done?
    requires Possible(s, a) && Preparing(Exec(s, a).pc)
    ensures var z := Exec(s, a + [Raise] + b); z.publication.NotPublished? && z.status == 3
  {
    hide Exec, Possible;
    InitialHolds(s);
    SetupPrimary(s, a);
    var before, after := ExecAround(s, a, Raise, b);
    EndStatus(after, b, NotPublished, 3);
  }

  /** No exception is raised before the closing. */
  predicate Calm(s: State, es: seq<Event>)
    requires Possible(s, es)
    decreases |es|
  {
    es == [] || ((es[0].Raise? ==> Closing(s.pc)) && Calm(Step(s, es[0]), es[1..]))
  }

  /** A run that has recorded a signal before its recheck, or has already ended because of it. */
  ghost predicate Cancelling(s: State, sig: int) {
    s.cancel == sig != 0 && (Preparing(s.pc) || Settled(s, NotPublished, 128 + sig))
  }

  lemma CancellingPhase(s: State, sig: int)
    requires s.cancel == sig > 0 && InWork(s.pc) && s.publication.NotPublished?
    ensures Cancelling(AdvancePhase(s), sig)
  {}

  lemma CancellingAdvance(s: State, sig: int)
    requires s.cancel == sig > 0 && Preparing(s.pc) && s.publication.NotPublished? && Enabled(s, Proceed)
    ensures Cancelling(Advance(s), sig)
  {
    hide AdvanceClose, AdvancePhase;
    if InPhase(s.pc) { CancellingPhase(s, sig); }
  }

  lemma CancellingStep(s: State, e: Event, sig: int)
    requires Inv(s) && Cancelling(s, sig) && Enabled(s, e) && (e.Raise? ==> Closing(s.pc))
    ensures Cancelling(Step(s, e), sig)
  {
    hide WorldInv, ResultsInv, Advance;
    if !Preparing(s.pc) { SettledStep(s, e, NotPublished, 128 + sig); } else if e.Proceed? { CancellingAdvance(s, sig); }
    CancelStep(s, e);
  }

  lemma {:induction false} CancellingRun(s: State, es: seq<Event>, sig: int)
    requires Inv(s) && Cancelling(s, sig) && Possible(s, es) && Calm(s, es)
    ensures Inv(Exec(s, es)) && Cancelling(Exec(s, es), sig)
    decreases |es|
  {
    hide Inv, Step, Enabled, Cancelling;
    if es != [] {
      StepKeeps(s, es[0]);
      CancellingStep(s, es[0], sig);
      CancellingRun(Step(s, es[0]), es[1..], sig);
    }
  }

  lemma CancelledEnd(s: State, es: seq<Event>)
    requires Inv(s) && s.cancel != 0 && Preparing(s.pc) && Possible(s, es)
    ensures var z := Exec(s, es);
      && z.renames == 0 && z.publication.NotPublished?
      && (Calm(s, es) && z.pc.Done? ==> z.status == 128 + s.cancel)
  {
    hide Exec, Possible, Calm;
    CancelPreventsRename(s, es);
    if Calm(s, es) { CancellingRun(s, es, s.cancel); }
  }

  lemma ExecOne(s: State, e: Event)
    requires Enabled(s, e)
    ensures Possible(s, [e]) && Exec(s, [e]) == Step(s, e)
  {
    assert [e][1..] == [];
  }

  /** A signal that arrives before the mask is set: that run never renames, and unless an exception
      intervenes its status is 128 plus the first signal it recorded. */
  lemma SignalStatus(s: State, a: seq<Event>, sig: int, b: seq<Event>)
    requires Initial(s) && Possible(s, a + [Signal(sig)] + b) && Possible(s, a) && Possible(s, a + [Signal(sig)])
    requires Preparing(Exec(s, a).pc) && !Exec(s, a).pc.Recheck?
    ensures Possible(Exec(s, a + [Signal(sig)]), b)
    ensures var first, z := if Exec(s, a).cancel == 0 then sig else Exec(s, a).cancel, Exec(s, a + [Signal(sig)] + b);
      && z.renames == 0 && z.publication.NotPublished?
      && (Calm(Exec(s, a + [Signal(sig)]), b) && z.pc.Done? ==> z.status == 128 + first)
  {
    hide Exec, Possible, Calm;
    InitialHolds(s);
    var before, after := ExecAround(s, a, Signal(sig), b);
    ExecSplit(s, a + [Signal(sig)], b);
    ExecSplit(s, a, [Signal(sig)]);
    ExecOne(before, Signal(sig));
    CancelledEnd(after, b);
  }

  ghost predicate Stageless(s: State, sig: int) {
    s.cancel == sig != 0 && !s.stage && (s.pc.CheckCancel? || Settled(s, NotPublished, 128 + sig)) && s.renames == 0
  }

  lemma StagelessStep(s: State, e: Event, sig: int)
    requires Inv(s) && Stageless(s, sig) && Enabled(s, e)
    ensures Stageless(Step(s, e), sig)
  {
    hide ResultsInv;
  }

  lemma StagelessSignal(s: State, sig: int)
    requires Stageless(s, sig)
    ensures s.cancel == sig
  {}

  lemma {:induction false} StagelessRun(s: State, es: seq<Event>)
    requires Inv(s) && Stageless(s, s.cancel) && Possible(s, es)
    ensures Inv(Exec(s, es)) && Stageless(Exec(s, es), s.cancel)
    decreases |es|
  {
    hide Inv, Step, Enabled, Stageless;
    if es != [] {
      StepKeeps(s, es[0]);
      StagelessStep(s, es[0], s.cancel);
      assert Step(s, es[0]).cancel == s.cancel by { StagelessSignal(Step(s, es[0]), s.cancel); }
      StagelessRun(Step(s, es[0]), es[1..]);
    }
  }

  /** A run that starts with a signal recorded ends with 128 plus that signal before it touches the disk. */
  lemma CancelledAtStart(s: State, es: seq<Event>)
    requires Initial(s) && s.cancel != 0 && Possible(s, es)
    ensures var z := Exec(s, es);
      && z.renames == 0 && z.publication.NotPublished? && !z.stage && !z.stagePath
      && (z.pc.Done? ==> z.status == 128 + s.cancel)
  {
    hide Exec, Possible, Calm;
    InitialHolds(s);
    StagelessRun(s, es);
  }

  /** What a failed worker's phase returns. */
  function PhaseCode(rc: int): int {
    if rc < 0 then 128 - rc else rc
  }

  /** A worker has failed with `rc`, or the run has already ended because of it; no signal so far. */
  ghost predicate Failing(s: State, rc: int) {
    && rc != 0 && s.cancel == 0 && s.pending == {}
    && (|| (InWork(s.pc) && (s.pc.Drain? || s.pc.PhaseExit?) && s.pc.rc == rc)
        || Settled(s, NotPublished, PhaseCode(rc)))
  }

  lemma FailingStep(s: State, e: Event, rc: int)
    requires Inv(s) && Failing(s, rc) && Enabled(s, e) && (e.Raise? ==> Closing(s.pc)) && !e.Signal?
    ensures Failing(Step(s, e), rc)
  {
    hide WorldInv, ResultsInv;
    if Settled(s, NotPublished, PhaseCode(rc)) { SettledStep(s, e, NotPublished, PhaseCode(rc)); }
  }

  lemma {:induction false} FailingRun(s: State, es: seq<Event>, rc: int)
    requires Inv(s) && Failing(s, rc) && Possible(s, es) && Calm(s, es) && forall e :: e in es ==> !e.Signal?
    ensures Inv(Exec(s, es)) && Failing(Exec(s, es), rc)
    decreases |es|
  {
    hide Inv, Step, Enabled, Failing;
    if es != [] {
      assert es[0] in es;
      StepKeeps(s, es[0]);
      FailingStep(s, es[0], rc);
      FailingRun(Step(s, es[0]), es[1..], rc);
    }
  }

  /** A worker that does not exit 0, in a run without signals and with no exception while its children are
      reaped: NOT_PUBLISHED with its own code, or 128 plus the signal that killed it. */
  lemma WorkerStatus(s: State, a: seq<Event>, rc: int, b: seq<Event>)
    requires Initial(s) && Possible(s, a + [Exited(rc)] + b) && Possible(s, a) && Exec(s, a + [Exited(rc)] + b).pc.Done?
    requires rc != 0 && InWork(Exec(s, a).pc) && Exec(s, a).cancel == 0 && forall e :: e in b ==> !e.Signal?
    requires Possible(s, a + [Exited(rc)]) && Possible(Exec(s, a + [Exited(rc)]), b) && Calm(Exec(s, a + [Exited(rc)]), b)
    ensures var z := Exec(s, a + [Exited(rc)] + b);
      z.publication.NotPublished? && z.status == if rc < 0 then 128 + -rc else rc
  {
    hide Exec, Possible, Calm;
    InitialHolds(s);
    var before, after := ExecAround(s, a, Exited(rc), b);
    ExecSplit(s, a, [Exited(rc)]);
    ExecOne(before, Exited(rc));
    FailingRun(after, b, rc);
  }

  // ---- Every ending occurs -------------------------------------------------------------------------------

  lemma ExecCons(s: State, e: Event, es: seq<Event>)
    requires Enabled(s, e) && Possible(Step(s, e), es)
    ensures Possible(s, [e] + es) && Exec(s, [e] + es) == Exec(Step(s, e), es)
  {
    assert ([e] + es)[0] == e && ([e] + es)[1..] == es;
  }

  lemma DownInside(s: State)
    requires Clear(s) && InWork(s.pc) && Enabled(s, Proceed) && !s.pc.Poll? && !s.pc.PhaseExit?
    ensures StepsLeft(AdvancePhase(s).pc) == StepsLeft(s.pc) - 1 && Preparing(AdvancePhase(s).pc)
  {
    hide Returned, ExitStatus;
  }

  lemma DownReturn(s: State, k: nat)
    requires k < 3
    ensures StepsLeft(Returned(s, Work(k), 0).pc) == InPhaseLeft(Work(k)) - 1 && Preparing(Returned(s, Work(k), 0).pc)
  {}

  lemma DownPhase(s: State)
    requires ResultsInv(s) && Clear(s) && InWork(s.pc) && Enabled(s, Proceed) && !s.pc.Poll?
    ensures StepsLeft(AdvancePhase(s).pc) == StepsLeft(s.pc) - 1 && Preparing(AdvancePhase(s).pc)
  {
    hide ZeroCodes, Preparing, Returned, InPhaseLeft;
    if s.pc.PhaseExit? {
      DownReturn(s, s.pc.phase.index);
    } else {
      DownInside(s);
    }
  }

  lemma DownSetup(s: State)
    requires Clear(s) && InSetup(s.pc)
    ensures StepsLeft(AdvanceSetup(s).pc) == StepsLeft(s.pc) - 1 && Preparing(AdvanceSetup(s).pc)
  {}

  lemma DownPublish(s: State)
    requires Clear(s) && InPublish(s.pc)
    ensures StepsLeft(AdvancePublish(s).pc) == StepsLeft(s.pc) - 1
    ensures Preparing(AdvancePublish(s).pc) || AdvancePublish(s).pc.Publish?
    ensures s.pc.Recheck? ==> AdvancePublish(s).pc.Publish?
  {}

  lemma DownByOne(s: State)
    requires Inv(s) && Clear(s) && Preparing(s.pc) && Enabled(s, Proceed) && !s.pc.Poll?
    ensures StepsLeft(Advance(s).pc) == StepsLeft(s.pc) - 1
    ensures Preparing(Advance(s).pc) || Advance(s).pc.Publish?
  {
    hide SignalInv, OrderInv, WorldInv, CodeInv, ResultsInv, AdvanceSetup, AdvancePhase, AdvancePublish, AdvanceClose, Clear, StepsLeft;
    if InSetup(s.pc) {
      DownSetup(s);
    } else if InPhase(s.pc) {
      DownPhase(s);
    } else {
      DownPublish(s);
    }
  }

  lemma PhaseStage(s: State)
    requires InPhase(s.pc)
    ensures var z := AdvancePhase(s); z.stage == s.stage && z.stagePath == s.stagePath && z.finalOurs == s.finalOurs && z.publication == s.publication
  {}

  lemma StagedAdvance(s: State)
    requires Inv(s) && Clear(s) && Staged(s) && Preparing(s.pc) && Enabled(s, Proceed)
    ensures Staged(Advance(s))
  {
    hide SignalInv, ResultsInv, CodeInv, StepsLeft, AdvanceClose;
    if InPhase(s.pc) { PhaseStage(s); }
  }

  /** An undisturbed installation takes its statements one at a time. */
  lemma NextDown(s: State) returns (e: Event)
    requires Inv(s) && Clear(s) && Staged(s) && Preparing(s.pc)
    ensures Enabled(s, e) && Smooth(e) && !Idle(s, e) && !e.Fork? && Staged(Step(s, e))
    ensures StepsLeft(s.pc) - 1 <= StepsLeft(Step(s, e).pc)
    ensures Preparing(Step(s, e).pc) || Step(s, e).pc.Publish?
  {
    hide SignalInv, OrderInv, CodeInv;
    if s.pc.Poll? {
      e := Exited(0);
    } else if s.pc.Drain? && s.children > 0 {
      e := Reap;
    } else {
      e := Proceed;
      DownByOne(s);
      StagedAdvance(s);
    }
  }

  lemma StepsOfPreparing(s: State)
    requires ResultsInv(s) && Preparing(s.pc)
    ensures StepsLeft(s.pc) >= 12
  {}

  lemma PublishSteps(s: State)
    ensures s.pc.Publish? ==> StepsLeft(s.pc) == 11
  {}

  /** So it comes by every one of them: with `n` statements to go, down to the rename. */
  lemma {:induction false} Reach(s: State, n: nat) returns (es: seq<Event>)
    requires Inv(s) && Clear(s) && Staged(s) && (Preparing(s.pc) || s.pc.Publish?) && 11 <= n <= StepsLeft(s.pc)
    ensures Possible(s, es) && forall e :: e in es ==> Smooth(e)
    ensures var z := Exec(s, es);
      Inv(z) && Clear(z) && Staged(z) && (Preparing(z.pc) || z.pc.Publish?) && StepsLeft(z.pc) == n
    decreases Remaining(s)
  {
    hide Remaining, Step, Enabled, Clear, Smooth, Staged, StepsLeft, Preparing, SignalInv, OrderInv, WorldInv, CodeInv, ResultsInv;
    if StepsLeft(s.pc) == n {
      es := [];
    } else {
      PublishSteps(s);
      var e := NextDown(s);
      RemainingPositive(s);
      StepKeeps(s, e);
      StepRemaining(s, e);
      ClearStep(s, e);
      var rest := Reach(Step(s, e), n);
      es := [e] + rest;
      ExecCons(s, e, rest);
    }
  }

  lemma StartSteps(s: State)
    requires Initial(s) && s.cancel == 0
    ensures Inv(s) && Clear(s) && Staged(s) && Preparing(s.pc) && StepsLeft(s.pc) == 33
  {}

  lemma PollSteps(s: State, k: nat)
    requires ResultsInv(s) && (Preparing(s.pc) || s.pc.Publish?) && k < 3 && StepsLeft(s.pc) == 27 - 5 * k
    ensures s.pc == Poll(Work(k))
  {
    hide ZeroCodes;
    assert k == 0 || k == 1 || k == 2;
    assert InWork(s.pc) ==> s.pc.phase.index == 0 || s.pc.phase.index == 1 || s.pc.phase.index == 2;
  }

  /** Whatever its worker exits with, there is a run in which one of the three phases fails so, or is
      interrupted by a signal or an exception instead. */
  lemma WorkerCanFail(s: State, k: nat, rc: int) returns (a: seq<Event>)
    requires Initial(s) && s.cancel == 0 && k < 3 && -64 <= rc <= 255
    ensures Possible(s, a) && (forall e :: e in a ==> Smooth(e)) && Exec(s, a).pc == Poll(Work(k))
    ensures Enabled(Exec(s, a), Exited(rc)) && Enabled(Exec(s, a), Raise)
    ensures forall sig :: sig == 2 || sig == 15 ==> Enabled(Exec(s, a), Signal(sig))
    ensures Exec(s, a).children == 1 ==> Enabled(Exec(s, a), Fork) && forall x :: Enabled(Exec(s, a), StageTouched(x))
  {
    hide Exec, Possible, Smooth, Preparing, Clear, Staged;
    StartSteps(s);
    a := Reach(s, 27 - 5 * k);
    PollSteps(Exec(s, a), k);
  }

  lemma AtPublish(s: State)
    requires Inv(s) && Staged(s) && (Preparing(s.pc) || s.pc.Publish?) && StepsLeft(s.pc) == 11
    ensures s.pc.Publish? && Enabled(s, Renamed) && forall x :: Enabled(s, RenameErrno(x)) && Enabled(s, RenameCrashed(x))
  {
    if Preparing(s.pc) { StepsOfPreparing(s); }
  }

  lemma {:induction false} ExecJoin(s: State, a: seq<Event>, b: seq<Event>)
    requires Possible(s, a) && Possible(Exec(s, a), b)
    ensures Possible(s, a + b) && Exec(s, a + b) == Exec(Exec(s, a), b)
    decreases |a|
  {
    hide Step, Enabled;
    if a == [] {
      assert a + b == b;
    } else {
      assert (a + b)[0] == a[0] && (a + b)[1..] == a[1..] + b;
      ExecJoin(Step(s, a[0]), a[1..], b);
    }
  }

  /** And every result of the rename has a run that reports it. */
  lemma EveryRenameEnds(s: State, e: Event) returns (a: seq<Event>, b: seq<Event>)
    requires Initial(s) && s.cancel == 0 && (e.Renamed? || e.RenameErrno? || e.RenameCrashed?)
    ensures Possible(s, a + [e] + b) && Exec(s, a + [e] + b).pc.Done?
  {
    hide Exec, Possible, Smooth, Preparing, Clear, Staged;
    StartSteps(s);
    a := Reach(s, 11);
    var z := Exec(s, a);
    AtPublish(z);
    StepKeeps(z, e);
    b := ReportReachable(Step(z, e));
    ExecCons(z, e, b);
    ExecJoin(s, a, [e] + b);
    assert a + ([e] + b) == a + [e] + b;
  }

  lemma MoveClosing(s: State)
    requires Enabled(s, Proceed)
    ensures s.pc == FinalDrain ==> Step(s, Proceed) == s.(pc := CleanupChoice)
    ensures s.pc == CleanupChoice && s.stage && s.publication.NotPublished? ==> Step(s, Proceed) == s.(pc := PhaseEntry(Cleanup))
    ensures s.pc == CleanupExists && !s.stagePath ==> Step(s, Proceed) == s.(pc := Report)
    ensures s.pc == Report ==> Step(s, Proceed) == s.(pc := Done, status := Step(s, Proceed).status)
  {
    hide AdvancePhase, AdvanceSetup, AdvancePublish, ExitStatus;
  }

  lemma MoveCleanup(s: State)
    requires Enabled(s, Proceed)
    ensures s.pc == PhaseEntry(Cleanup) ==> Step(s, Proceed) == s.(pc := Spawn(Cleanup))
    ensures s.pc == Spawn(Cleanup) ==> Step(s, Proceed) == s.(pc := Poll(Cleanup), children := s.children + 1)
    ensures s.pc == Drain(Cleanup, 0) ==> Step(s, Proceed) == s.(pc := PhaseExit(Cleanup, 0))
    ensures s.pc == PhaseExit(Cleanup, 0) ==> Step(s, Proceed) == s.(pc := CleanupExists)
  {
    hide AdvanceClose, AdvanceSetup, AdvancePublish;
  }

  lemma ExecNothing(s: State)
    ensures Possible(s, []) && Exec(s, []) == s
  {}

  lemma EnterCleanup(s: State) returns (es: seq<Event>)
    requires s.pc == FinalDrain && s.publication.NotPublished? && s.children == 0 && s.stage
    ensures Possible(s, es) && Exec(s, es) == s.(pc := Poll(Cleanup), children := 1)
  {
    hide Exec, Possible, Step;
    MoveClosing(s);
    MoveClosing(s.(pc := CleanupChoice));
    MoveCleanup(s.(pc := PhaseEntry(Cleanup)));
    MoveCleanup(s.(pc := Spawn(Cleanup)));
    ExecNothing(s.(pc := Poll(Cleanup), children := 1));
    ExecCons(s.(pc := Spawn(Cleanup)), Proceed, []);
    ExecCons(s.(pc := PhaseEntry(Cleanup)), Proceed, [Proceed] + []);
    ExecCons(s.(pc := CleanupChoice), Proceed, [Proceed] + ([Proceed] + []));
    ExecCons(s, Proceed, [Proceed] + ([Proceed] + ([Proceed] + [])));
    es := [Proceed] + ([Proceed] + ([Proceed] + ([Proceed] + [])));
  }

  lemma LeaveCleanup(s: State) returns (es: seq<Event>, z: State)
    requires s.pc == Drain(Cleanup, 0) && s.children == 0 && !s.stagePath && s.teardown.Complete?
    ensures Possible(s, es) && Exec(s, es) == z && z.pc.Done? && z.teardown.Complete? && !z.stagePath
  {
    hide Exec, Possible, Step;
    MoveCleanup(s);
    MoveCleanup(s.(pc := PhaseExit(Cleanup, 0)));
    MoveClosing(s.(pc := CleanupExists));
    MoveClosing(s.(pc := Report));
    z := Step(s.(pc := Report), Proceed);
    ExecNothing(z);
    ExecCons(s.(pc := Report), Proceed, []);
    ExecCons(s.(pc := CleanupExists), Proceed, [Proceed] + []);
    ExecCons(s.(pc := PhaseExit(Cleanup, 0)), Proceed, [Proceed] + ([Proceed] + []));
    ExecCons(s, Proceed, [Proceed] + ([Proceed] + ([Proceed] + [])));
    es := [Proceed] + ([Proceed] + ([Proceed] + ([Proceed] + [])));
  }

  /** The cleanup worker of an unpublished installation, as the only child, removes the stage: the run in
      which it does so is reported COMPLETE. */
  lemma CleanedUp(s: State) returns (es: seq<Event>)
    requires s.pc == FinalDrain && s.publication.NotPublished? && s.children == 0 && s.stage && s.teardown.Complete?
    ensures Possible(s, es) && Exec(s, es).pc.Done? && Exec(s, es).teardown.Complete? && !Exec(s, es).stagePath
  {
    hide Exec, Possible;
    var enter := EnterCleanup(s);
    var polling := s.(pc := Poll(Cleanup), children := 1);
    var emptied := polling.(stagePath := false);
    var draining := emptied.(children := 0, pc := Drain(Cleanup, 0));
    assert Step(polling, StageTouched(false)) == emptied && Step(emptied, Exited(0)) == draining;
    var leave, z := LeaveCleanup(draining);
    ExecCons(emptied, Exited(0), leave);
    ExecCons(polling, StageTouched(false), [Exited(0)] + leave);
    es := [StageTouched(false)] + ([Exited(0)] + leave);
    ExecJoin(s, enter, es);
    es := enter + es;
  }
}
