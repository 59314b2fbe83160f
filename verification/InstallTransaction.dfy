/** The install authority as a step machine. Between any two steps of `main` a signal may arrive, a
    worker may fork or touch the stage directory, and every system call has each of its outcomes. */
module InstallTransaction {
  import opened Outcomes

  datatype Publication = NotPublished | Unknown | Committed
  datatype Teardown = Complete | Failed
  datatype Phase = Work(index: nat) | Cleanup

  /** Where the authority stands. `Unmask(raising)` is the `finally` that restores the signal mask. */
  datatype Pc =
    | CheckCancel | Makedirs | Mkdtemp | Chmod
    | PhaseEntry(phase: Phase) | Spawn(phase: Phase) | Poll(phase: Phase) | Drain(phase: Phase, rc: int) | PhaseExit(phase: Phase, rc: int)
    | AfterPhases | MaskNow | Recheck | Publish | Unmask(raising: bool)
    | FinalDrain | CleanupChoice | CleanupExists | Report | Done

  /** The authority's variables, the world it acts on (`stagePath`, `finalOurs`, `children`), and a
      record of the run (`renames`, `results`, `cancelAtRecheck`). */
  datatype State = State(
    pc: Pc, cancel: int, masked: bool, pending: set<int>,
    publication: Publication, teardown: Teardown, primary: int, stage: bool, status: int,
    stagePath: bool, finalOurs: bool, children: nat,
    renames: nat, results: seq<int>, cancelAtRecheck: Option<int>)

  predicate IsSignal(sig: int) { sig == 2 || sig == 15 }

  /** After the subreaper and procfs qualification, which may leave a signal recorded. */
  predicate Initial(s: State) {
    s == State(CheckCancel, s.cancel, false, {}, NotPublished, Complete, 2, false, -1, false, false, 0, 0, [], None)
    && (s.cancel == 0 || IsSignal(s.cancel))
  }

  datatype Event =
    | Signal(sig: int)            // SIGINT or SIGTERM arrives
    | Fork                        // a worker's descendant is adopted
    | StageTouched(present: bool) // a worker creates or removes the stage path
    | Proceed                     // the statement at hand succeeds
    | Raise                       // the statement at hand raises
    | Reap                        // waitpid returned a child
    | Exited(rc: int)             // poll() saw the direct worker's status
    | Renamed                     // renameat2 succeeded
    | RenameErrno(eexist: bool)   // renameat2 failed
    | RenameCrashed(happened: bool) // another exception escaped, before or after the syscall took effect
    | Unblock(first: int)         // the mask is restored; `first` is the pending signal handled first

  // ---- What may happen ---------------------------------------------------------------------------

  predicate Enabled(s: State, e: Event) {
    match e
    case Signal(sig) => IsSignal(sig) && !s.pc.Done?
    case Fork => s.children > 0
    case StageTouched(_) => s.children > 0
    case Reap => (s.pc.Drain? || s.pc.FinalDrain?) && s.children > 0
    case Exited(rc) => s.pc.Poll? && s.children > 0 && -64 <= rc <= 255
    case Renamed => s.pc.Publish? && s.stagePath && !s.finalOurs
    case RenameErrno(_) => s.pc.Publish?
    case RenameCrashed(happened) => s.pc.Publish? && (happened ==> s.stagePath && !s.finalOurs)
    case Unblock(first) => s.pc.Unmask? && (s.pending == {} || first in s.pending)
    case Raise => s.pc.Makedirs? || s.pc.Mkdtemp? || s.pc.Chmod? || s.pc.Spawn? || s.pc.Poll? || s.pc.Drain? || s.pc.FinalDrain?
    case Proceed =>
      match s.pc
      case Poll(_) => true
      case Drain(_, _) => s.children == 0
      case FinalDrain => s.children == 0
      case Publish => false
      case Unmask(_) => false
      case Done => false
      case _ => true
  }

  /** `request_cancel`: only the first signal is recorded. */
  function Handle(s: State, sig: int): State {
    if s.cancel == 0 then s.(cancel := sig) else s
  }

  /** `except Exception` of `main`, falling into its `finally`. */
  function Caught(s: State): State {
    s.(primary := if s.primary == 0 then 3 else s.primary, pc := FinalDrain)
  }

  /** An exception out of `run_phase`, or out of a setup call. */
  function Raised(s: State): State {
    if s.pc.FinalDrain? then s.(teardown := Failed, pc := CleanupChoice)
    else if (s.pc.Spawn? || s.pc.Poll? || s.pc.Drain?) && s.pc.phase.Cleanup? then s.(teardown := Failed, pc := Report)
    else Caught(s)
  }

  const PHASES := 3

  /** `run_phase` returned `code`. */
  function Returned(s: State, phase: Phase, code: int): State {
    match phase
    case Cleanup => if code != 0 then s.(teardown := Failed, pc := Report) else s.(pc := CleanupExists)
    case Work(k) =>
      s.(primary := code, results := s.results + [code],
         pc := if code != 0 then FinalDrain else if k + 1 < PHASES then PhaseEntry(Work(k + 1)) else AfterPhases)
  }

  function ExitStatus(s: State): int {
    match s.publication
    case Unknown => 5
    case Committed => if s.teardown.Complete? then 0 else 4
    case NotPublished => if s.primary != 0 then s.primary else if s.teardown.Failed? then 4 else 3
  }

  /** The statements before the phases. */
  function AdvanceSetup(s: State): State {
    match s.pc
    case CheckCancel => if s.cancel != 0 then s.(primary := 128 + s.cancel, pc := FinalDrain) else s.(primary := 3, pc := Makedirs)
    case Makedirs => s.(pc := Mkdtemp)
    case Mkdtemp => s.(stage := true, stagePath := true, pc := Chmod)
    case Chmod => s.(primary := 0, pc := PhaseEntry(Work(0)))
    case _ => s
  }

  /** `run_phase` and the `drain_children` inside it. */
  function AdvancePhase(s: State): State {
    match s.pc
    case PhaseEntry(phase) =>
      if s.cancel != 0 && phase.Work? then Returned(s, phase, 128 + s.cancel) else s.(pc := Spawn(phase))
    case Spawn(phase) => s.(children := s.children + 1, pc := Poll(phase))
    case Drain(phase, rc) => s.(pc := PhaseExit(phase, rc))
    case PhaseExit(phase, rc) =>
      Returned(s, phase, if s.cancel != 0 && phase.Work? then 128 + s.cancel else if rc < 0 then 128 - rc else rc)
    case _ => s
  }

  /** From the last phase to the rename. */
  function AdvancePublish(s: State): State {
    match s.pc
    case AfterPhases => if s.cancel == 0 then s.(pc := MaskNow) else s.(primary := 128 + s.cancel, pc := FinalDrain)
    case MaskNow => s.(masked := true, pc := Recheck)
    case Recheck =>
      if s.cancel != 0 then s.(cancelAtRecheck := Some(s.cancel), primary := 128 + s.cancel, pc := Unmask(false))
      else s.(cancelAtRecheck := Some(0), publication := Unknown, pc := Publish)
    case _ => s
  }

  /** The `finally` of `main` and the report. */
  function AdvanceClose(s: State): State {
    match s.pc
    case FinalDrain => s.(pc := CleanupChoice)
    case CleanupChoice => s.(pc := if s.stage && s.publication.NotPublished? then PhaseEntry(Cleanup) else Report)
    case CleanupExists => if s.stagePath then s.(teardown := Failed, pc := Report) else s.(pc := Report)
    case Report => s.(status := ExitStatus(s), pc := Done)
    case _ => s
  }

  predicate InSetup(pc: Pc) { pc.CheckCancel? || pc.Makedirs? || pc.Mkdtemp? || pc.Chmod? }
  predicate InPublish(pc: Pc) { pc.AfterPhases? || pc.MaskNow? || pc.Recheck? }

  predicate InPhase(pc: Pc) {
    pc.PhaseEntry? || pc.Spawn? || pc.Poll? || pc.Drain? || pc.PhaseExit?
  }

  function Advance(s: State): State
    requires Enabled(s, Proceed)
  {
    if InSetup(s.pc) then AdvanceSetup(s)
    else if InPhase(s.pc) then AdvancePhase(s)
    else if InPublish(s.pc) then AdvancePublish(s)
    else AdvanceClose(s)
  }

  function Step(s: State, e: Event): State
    requires Enabled(s, e)
  {
    match e
    case Signal(sig) => if s.masked then s.(pending := s.pending + {sig}) else Handle(s, sig)
    case Fork => s.(children := s.children + 1)
    case StageTouched(x) => s.(stagePath := x)
    case Reap => s.(children := s.children - 1)
    case Exited(rc) => s.(children := s.children - 1, pc := Drain(s.pc.phase, rc))
    case Renamed => s.(renames := s.renames + 1, stagePath := false, finalOurs := true, publication := Committed, pc := Unmask(false))
    case RenameErrno(eexist) => s.(renames := s.renames + 1, publication := NotPublished, primary := if eexist then 2 else 3, pc := Unmask(false))
    case RenameCrashed(happened) =>
      s.(renames := s.renames + 1, stagePath := s.stagePath && !happened, finalOurs := s.finalOurs || happened, pc := Unmask(true))
    case Unblock(first) =>
      var open := s.(masked := false, pending := {});
      var handled := if s.pending == {} then open else Handle(open, first);
      if s.pc.raising then Caught(handled) else handled.(pc := FinalDrain)
    case Raise => Raised(s)
    case Proceed => Advance(s)
  }

  predicate Possible(s: State, es: seq<Event>)
    decreases |es|
  {
    es == [] || (Enabled(s, es[0]) && Possible(Step(s, es[0]), es[1..]))
  }

  function Exec(s: State, es: seq<Event>): State
    requires Possible(s, es)
    decreases |es|
  {
    if es == [] then s else Exec(Step(s, es[0]), es[1..])
  }

  // ---- What every run keeps -----------------------------------------------------------------------

  predicate InWork(pc: Pc) { InPhase(pc) && pc.phase.Work? }
  predicate InCleanup(pc: Pc) { (InPhase(pc) && pc.phase.Cleanup?) || pc.CleanupExists? }

  /** Before the masked section. */
  predicate Preparing(pc: Pc) {
    pc.CheckCancel? || pc.Makedirs? || pc.Mkdtemp? || pc.Chmod? || InWork(pc) || pc.AfterPhases? || pc.MaskNow? || pc.Recheck?
  }

  /** `finally` of `main`, the report and the end. */
  predicate Closing(pc: Pc) {
    pc.FinalDrain? || pc.CleanupChoice? || InCleanup(pc) || pc.Report? || pc.Done?
  }

  ghost predicate SignalInv(s: State) {
    && (s.cancel == 0 || IsSignal(s.cancel))
    && (forall g :: g in s.pending ==> IsSignal(g))
    && (s.masked <==> s.pc.Recheck? || s.pc.Publish? || s.pc.Unmask?)
    && (!s.masked ==> s.pending == {})
  }

  function ZeroCodes(k: nat): seq<int> {
    if k == 0 then [] else if k == 1 then [0] else if k == 2 then [0, 0] else [0, 0, 0]
  }

  /** The rename and everything that must come before it. */
  ghost predicate OrderInv(s: State) {
    && (Preparing(s.pc) ==> s.renames == 0 && s.publication.NotPublished? && s.cancelAtRecheck.None?)
    && (s.pc.Publish? ==> s.renames == 0 && s.publication.Unknown?)
    && s.renames <= 1
    && (s.renames == 0 ==> !s.finalOurs)
    && (s.pc.Publish? || s.renames == 1 ==> s.results == [0, 0, 0] && s.cancelAtRecheck == Some(0))
    && (s.publication.Committed? ==> s.renames == 1 && s.finalOurs)
    && (s.finalOurs ==> s.publication.Committed? || s.publication.Unknown?)
    && (s.publication.Unknown? ==> s.pc.Publish? || s.renames == 1)
  }

  /** The phases that have returned, while all of them returned 0. */
  ghost predicate ResultsInv(s: State) {
    && (s.pc.AfterPhases? || s.pc.MaskNow? || s.pc.Recheck? ==> s.results == [0, 0, 0])
    && (s.pc.CheckCancel? || s.pc.Makedirs? || s.pc.Mkdtemp? || s.pc.Chmod? ==> s.results == [])
    && (InWork(s.pc) ==> s.pc.phase.index < PHASES && s.results == ZeroCodes(s.pc.phase.index))
  }

  /** Points reached only with every child reaped. */
  predicate QuietPc(pc: Pc) {
    pc.CheckCancel? || pc.Makedirs? || pc.Mkdtemp? || pc.Chmod? || pc.AfterPhases? || pc.MaskNow? || pc.Recheck? || pc.Publish?
    || pc.Unmask? || pc.PhaseExit? || pc.CleanupExists? || (InWork(pc) && (pc.PhaseEntry? || pc.Spawn?))
  }

  /** Who is running and what is on disk. */
  ghost predicate WorldInv(s: State) {
    && (s.pc.Poll? && s.pc.phase.Work? ==> s.stage)
    && (s.pc.CheckCancel? || s.pc.Makedirs? || s.pc.Mkdtemp? ==> !s.stage)
    && (s.pc.Chmod? || InWork(s.pc) || s.pc.AfterPhases? || s.pc.MaskNow? || s.pc.Recheck? || s.pc.Publish? ==> s.stage)
    && (!s.stage ==> !s.stagePath && s.children == 0)
    && (QuietPc(s.pc) ==> s.children == 0)
    && (s.pc.Poll? ==> s.children > 0)
    && (s.publication.Committed? ==> !s.stagePath && s.children == 0)
    && (s.pc.CleanupChoice? && s.teardown.Complete? ==> s.children == 0)
    && (InCleanup(s.pc) ==> s.stage && s.publication.NotPublished?)
    && (InCleanup(s.pc) && (s.pc.PhaseEntry? || s.pc.Spawn?) && s.teardown.Complete? ==> s.children == 0)
    && (s.pc.Report? || s.pc.Done? ==> (s.teardown.Complete? && !s.publication.Unknown? ==> !s.stagePath && s.children == 0))
  }

  predicate ZeroPrimary(pc: Pc) {
    InWork(pc) || pc.AfterPhases? || pc.MaskNow? || pc.Recheck? || pc.Publish?
  }

  /** Exit codes stay in one byte, and nonzero until the rename. */
  ghost predicate CodeInv(s: State) {
    && 0 <= s.primary <= 255
    && (s.pc.Drain? || s.pc.PhaseExit? ==> -64 <= s.pc.rc <= 255)
    && (ZeroPrimary(s.pc) ==> s.primary == 0)
    && (s.primary == 0 && s.pc.Unmask? ==> s.publication.Committed? || s.pc.raising)
    && (s.primary == 0 && Closing(s.pc) ==> s.publication.Committed?)
    && (s.pc.Unmask? && s.pc.raising ==> s.publication.Unknown?)
    && (s.pc.Done? ==> s.status == ExitStatus(s))
  }

  ghost predicate Inv(s: State) {
    SignalInv(s) && OrderInv(s) && ResultsInv(s) && WorldInv(s) && CodeInv(s)
  }

  lemma SetupKeeps(s: State)
    requires Inv(s) && InSetup(s.pc)
    ensures Inv(AdvanceSetup(s))
  {}

  lemma PublishKeeps(s: State)
    requires Inv(s) && InPublish(s.pc)
    ensures Inv(AdvancePublish(s))
  {}

  lemma CloseKeeps(s: State)
    requires Inv(s) && Enabled(s, Proceed) && Closing(s.pc) && !InPhase(s.pc)
    ensures Inv(AdvanceClose(s))
  {}

  lemma ZeroCodesGrow(k: nat)
    requires k < PHASES
    ensures ZeroCodes(k) + [0] == ZeroCodes(k + 1)
  {
    assert [] + [0] == [0] && [0] + [0] == [0, 0] && [0, 0] + [0] == [0, 0, 0];
  }

  lemma WorkReturnKeeps(s: State, k: nat, code: int)
    requires Inv(s) && (s.pc == PhaseEntry(Work(k)) || (s.pc.PhaseExit? && s.pc.phase == Work(k))) && 0 <= code <= 255
    ensures Inv(Returned(s, Work(k), code))
  {
    ZeroCodesGrow(k);
  }

  lemma CleanupReturnKeeps(s: State, code: int)
    requires Inv(s) && s.pc.PhaseExit? && s.pc.phase.Cleanup?
    ensures Inv(Returned(s, Cleanup, code))
  {}

  lemma PhaseKeeps(s: State)
    requires Inv(s) && Enabled(s, Proceed) && InPhase(s.pc)
    ensures Inv(AdvancePhase(s))
  {
    if s.pc.PhaseExit? {
      var code := if s.cancel != 0 && s.pc.phase.Work? then 128 + s.cancel else if s.pc.rc < 0 then 128 - s.pc.rc else s.pc.rc;
      if s.pc.phase.Work? { WorkReturnKeeps(s, s.pc.phase.index, code); } else { CleanupReturnKeeps(s, code); }
    } else if s.pc.PhaseEntry? && s.cancel != 0 && s.pc.phase.Work? {
      WorkReturnKeeps(s, s.pc.phase.index, 128 + s.cancel);
    }
  }

  lemma AdvanceKeeps(s: State)
    requires Inv(s) && Enabled(s, Proceed)
    ensures Inv(Advance(s))
  {
    if InSetup(s.pc) {
      SetupKeeps(s);
    } else if InPhase(s.pc) {
      PhaseKeeps(s);
    } else if InPublish(s.pc) {
      PublishKeeps(s);
    } else {
      CloseKeeps(s);
    }
  }

  lemma RaisedKeeps(s: State)
    requires Inv(s) && Enabled(s, Raise)
    ensures Inv(Raised(s))
  {}

  lemma RenameKeeps(s: State, e: Event)
    requires Inv(s) && Enabled(s, e) && (e.Renamed? || e.RenameErrno? || e.RenameCrashed?)
    ensures Inv(Step(s, e))
  {}

  lemma HandleKeeps(s: State, first: int)
    requires Inv(s) && s.pc.Unmask? && IsSignal(first)
    ensures Inv(Handle(s, first)) && Handle(s, first).pc == s.pc && Handle(s, first).pending == s.pending
  {}

  /** Restoring the mask leads to the `finally` of `main`, through its handler when an exception is on
      its way. */
  lemma OpenKeeps(s: State)
    requires Inv(s) && s.pc.Unmask?
    ensures var open := s.(masked := false, pending := {});
      Inv(if s.pc.raising then Caught(open) else open.(pc := FinalDrain))
  {}

  lemma UnblockKeeps(s: State, first: int)
    requires Inv(s) && Enabled(s, Unblock(first))
    ensures Inv(Step(s, Unblock(first)))
  {
    if s.pending == {} {
      OpenKeeps(s);
    } else {
      HandleKeeps(s, first);
      OpenKeeps(Handle(s, first));
    }
  }

  lemma WorldEventKeeps(s: State, e: Event)
    requires Inv(s) && Enabled(s, e) && (e.Signal? || e.Fork? || e.StageTouched? || e.Reap? || e.Exited?)
    ensures Inv(Step(s, e))
  {}

  lemma StepKeeps(s: State, e: Event)
    requires Inv(s) && Enabled(s, e)
    ensures Inv(Step(s, e))
  {
    if e.Proceed? {
      AdvanceKeeps(s);
    } else if e.Raise? {
      RaisedKeeps(s);
    } else if e.Unblock? {
      UnblockKeeps(s, e.first);
    } else if e.Renamed? || e.RenameErrno? || e.RenameCrashed? {
      RenameKeeps(s, e);
    } else {
      WorldEventKeeps(s, e);
    }
  }

  lemma {:induction false} RunKeeps(s: State, es: seq<Event>)
    requires Inv(s) && Possible(s, es)
    ensures Inv(Exec(s, es))
    decreases |es|
  {
    if es != [] {
      StepKeeps(s, es[0]);
      RunKeeps(Step(s, es[0]), es[1..]);
    }
  }

  lemma InitialHolds(s: State)
    requires Initial(s)
    ensures Inv(s)
  {}

  // ---- Main results --------------------------------------------------------------------------------

  /** Commit ordering, over every run: one rename at most, and only after three phases that returned 0
      and a masked recheck that saw no signal. */
  lemma CommitOrdering(s: State, es: seq<Event>)
    requires Initial(s) && Possible(s, es)
    ensures var z := Exec(s, es);
      && z.renames <= 1
      && (z.renames == 1 ==> z.results == [0, 0, 0] && z.cancelAtRecheck == Some(0))
      && (z.publication.Committed? ==> z.renames == 1)
      && (z.publication.NotPublished? ==> !z.finalOurs)
      && (z.publication.Committed? ==> z.finalOurs)
  {
    InitialHolds(s);
    RunKeeps(s, es);
  }

  /** The states of a run whose recheck will see, or has seen, a signal. */
  ghost predicate Doomed(s: State) {
    s.cancel != 0 && s.renames == 0 && s.publication.NotPublished? && !s.pc.Publish?
    && (Preparing(s.pc) || Closing(s.pc) || (s.pc.Unmask? && !s.pc.raising))
  }

  lemma DoomedStep(s: State, e: Event)
    requires Inv(s) && Doomed(s) && Enabled(s, e)
    ensures Doomed(Step(s, e))
  {}

  lemma {:induction false} CancelledStays(s: State, es: seq<Event>)
    requires Inv(s) && Possible(s, es) && Doomed(s)
    ensures Doomed(Exec(s, es))
    decreases |es|
  {
    if es != [] {
      StepKeeps(s, es[0]);
      DoomedStep(s, es[0]);
      CancelledStays(Step(s, es[0]), es[1..]);
    }
  }

  /** A signal recorded before the recheck decides: that run never renames. */
  lemma CancelPreventsRename(s: State, es: seq<Event>)
    requires Inv(s) && Possible(s, es) && s.cancel != 0 && Preparing(s.pc)
    ensures Exec(s, es).renames == 0 && Exec(s, es).publication.NotPublished?
    decreases |es|
  {
    CancelledStays(s, es);
  }

  lemma ReturnedCancel(s: State, phase: Phase, code: int)
    ensures Returned(s, phase, code).cancel == s.cancel
  {}

  lemma AdvanceCancel(s: State)
    requires Enabled(s, Proceed)
    ensures Advance(s).cancel == s.cancel
  {
    if s.pc.PhaseExit? {
      var code := if s.cancel != 0 && s.pc.phase.Work? then 128 + s.cancel else if s.pc.rc < 0 then 128 - s.pc.rc else s.pc.rc;
      ReturnedCancel(s, s.pc.phase, code);
    }
  }

  lemma CancelStep(s: State, e: Event)
    requires Enabled(s, e) && s.cancel != 0
    ensures Step(s, e).cancel == s.cancel
  {
    if e.Proceed? { AdvanceCancel(s); }
  }

  /** Only the first signal is ever recorded. */
  lemma {:induction false} FirstSignalKept(s: State, es: seq<Event>)
    requires Possible(s, es) && s.cancel != 0
    ensures Exec(s, es).cancel == s.cancel
    decreases |es|
  {
    if es != [] {
      CancelStep(s, es[0]);
      FirstSignalKept(Step(s, es[0]), es[1..]);
    }
  }

  /** Outcome accounting, over every run: what the exit status and the two reported words mean. */
  lemma OutcomeAccounting(s: State, es: seq<Event>)
    requires Initial(s) && Possible(s, es) && Exec(s, es).pc.Done?
    ensures var z := Exec(s, es);
      && 0 <= z.status <= 255
      && (z.status == 0 <==> z.publication.Committed? && z.teardown.Complete?)
      && (z.status == 5 <== z.publication.Unknown?)
      && (z.teardown.Complete? && !z.publication.Unknown? ==> !z.stagePath && z.children == 0)
  {
    InitialHolds(s);
    RunKeeps(s, es);
  }

  lemma ClosingStep(s: State, e: Event)
    requires Inv(s) && Enabled(s, e) && Closing(s.pc)
    ensures Closing(Step(s, e).pc) && Step(s, e).publication == s.publication
    ensures Step(s, e).primary == s.primary && (s.primary == 0 ==> s.publication.Committed?)
  {}

  /** Nothing that happens while closing - failed drains, failed cleanups, late signals - replaces the
      failure that ended an unpublished installation: it is the exit status. */
  lemma {:induction false} FirstFailureReported(s: State, es: seq<Event>)
    requires Inv(s) && Possible(s, es) && Closing(s.pc) && s.publication.NotPublished?
    ensures Exec(s, es).primary == s.primary && Exec(s, es).publication.NotPublished?
    ensures Exec(s, es).pc.Done? ==> Exec(s, es).status == s.primary
    decreases |es|
  {
    if es == [] {
      assert s.primary != 0;
    } else {
      StepKeeps(s, es[0]);
      ClosingStep(s, es[0]);
      FirstFailureReported(Step(s, es[0]), es[1..]);
    }
  }

  /** Stage removal is only ever under way, or its result checked, when nothing was published. */
  lemma CleanupOnlyUnpublished(s: State, es: seq<Event>)
    requires Initial(s) && Possible(s, es) && InCleanup(Exec(s, es).pc)
    ensures Exec(s, es).publication.NotPublished? && !Exec(s, es).finalOurs && Exec(s, es).stage
  {
    InitialHolds(s);
    RunKeeps(s, es);
  }

  lemma PickPending(pending: set<int>) returns (first: int)
    requires pending != {}
    ensures first in pending
  {
    assert (forall g :: g !in pending) ==> pending == {};
    first :| first in pending;
  }

  // ---- Reaching the report -------------------------------------------------------------------------

  function InPhaseLeft(phase: Phase): int {
    match phase
    case Work(k) => 15 + 5 * (PHASES - 1 - k)
    case Cleanup => 3
  }

  /** How many statements are left at most, loops aside. */
  function StepsLeft(pc: Pc): int {
    match pc
    case CheckCancel => 33
    case Makedirs => 32
    case Mkdtemp => 31
    case Chmod => 30
    case PhaseEntry(phase) => InPhaseLeft(phase) + 4
    case Spawn(phase) => InPhaseLeft(phase) + 3
    case Poll(phase) => InPhaseLeft(phase) + 2
    case Drain(phase, _) => InPhaseLeft(phase) + 1
    case PhaseExit(phase, _) => InPhaseLeft(phase)
    case AfterPhases => 14
    case MaskNow => 13
    case Recheck => 12
    case Publish => 11
    case Unmask(_) => 10
    case FinalDrain => 9
    case CleanupChoice => 8
    case CleanupExists => 2
    case Report => 1
    case Done => 0
  }

  /** Statements left, each of which may spawn one worker, plus children to reap. */
  function Remaining(s: State): int {
    2 * StepsLeft(s.pc) + s.children
  }

  lemma RemainingPositive(s: State)
    requires Inv(s)
    ensures Remaining(s) >= s.children && (s.pc.Done? <==> StepsLeft(s.pc) == 0)
  {}

  /** What does not move the authority: signals, workers at work, and a poll that sees no exit. */
  predicate Idle(s: State, e: Event) {
    e.Signal? || e.StageTouched? || (e.Proceed? && s.pc.Poll?)
  }

  lemma ReturnedLeft(s: State, phase: Phase, code: int)
    requires phase.Work? ==> phase.index < PHASES
    ensures StepsLeft(Returned(s, phase, code).pc) < InPhaseLeft(phase) && Returned(s, phase, code).children == s.children
  {}

  lemma PhaseLeft(s: State)
    requires ResultsInv(s) && InPhase(s.pc) && !s.pc.Poll?
    ensures StepsLeft(AdvancePhase(s).pc) < StepsLeft(s.pc) && AdvancePhase(s).children <= s.children + 1
  {
    hide Returned, InPhaseLeft;
    var phase := s.pc.phase;
    assert phase.Work? ==> phase.index < PHASES;
    if s.pc.PhaseEntry? {
      ReturnedLeft(s, phase, 128 + s.cancel);
    } else if s.pc.PhaseExit? {
      ReturnedLeft(s, phase, if s.cancel != 0 && phase.Work? then 128 + s.cancel else if s.pc.rc < 0 then 128 - s.pc.rc else s.pc.rc);
    }
  }

  lemma SetupLeft(s: State)
    requires InSetup(s.pc)
    ensures StepsLeft(AdvanceSetup(s).pc) < StepsLeft(s.pc) && AdvanceSetup(s).children == s.children
  {}

  lemma PublishLeft(s: State)
    requires InPublish(s.pc)
    ensures StepsLeft(AdvancePublish(s).pc) < StepsLeft(s.pc) && AdvancePublish(s).children == s.children
  {}

  lemma CloseLeft(s: State)
    requires Enabled(s, Proceed) && !InPhase(s.pc) && !InSetup(s.pc) && !InPublish(s.pc)
    ensures StepsLeft(AdvanceClose(s).pc) < StepsLeft(s.pc) && AdvanceClose(s).children == s.children
  {
    hide ExitStatus;
  }

  lemma AdvanceRemaining(s: State)
    requires Inv(s) && Enabled(s, Proceed) && !s.pc.Poll?
    ensures Remaining(Advance(s)) < Remaining(s)
  {
    hide SignalInv, OrderInv, WorldInv, CodeInv, ResultsInv, AdvancePhase, AdvanceSetup, AdvancePublish, AdvanceClose, StepsLeft,
      InPhase, InSetup, InPublish, Enabled;
    if InSetup(s.pc) {
      SetupLeft(s);
    } else if InPhase(s.pc) {
      PhaseLeft(s);
    } else if InPublish(s.pc) {
      PublishLeft(s);
    } else {
      CloseLeft(s);
    }
  }

  /** A raised exception leads at least as far as the drain of the `finally`. */
  lemma RaisedLeft(s: State)
    requires ResultsInv(s) && Enabled(s, Raise)
    ensures StepsLeft(Raised(s).pc) < StepsLeft(s.pc) && Raised(s).children == s.children
  {}

  lemma UnblockLeft(s: State, first: int)
    requires Enabled(s, Unblock(first))
    ensures Step(s, Unblock(first)).pc == FinalDrain && Step(s, Unblock(first)).children == s.children
  {
    hide StepsLeft;
  }

  lemma PollIdles(s: State)
    requires s.pc.Poll?
    ensures Enabled(s, Proceed) && Advance(s) == s
  {}

  /** Every other event, failures included, leaves less to do; only a fork adds a child to reap. */
  lemma StepRemaining(s: State, e: Event)
    requires Inv(s) && Enabled(s, e)
    ensures Idle(s, e) ==> Remaining(Step(s, e)) == Remaining(s)
    ensures e.Fork? ==> Remaining(Step(s, e)) == Remaining(s) + 1
    ensures !Idle(s, e) && !e.Fork? ==> Remaining(Step(s, e)) < Remaining(s)
  {
    hide SignalInv, OrderInv, WorldInv, CodeInv, ResultsInv, Raised, Caught, Advance;
    if e.Proceed? && !s.pc.Poll? {
      AdvanceRemaining(s);
    } else if e.Proceed? {
      PollIdles(s);
    } else if e.Raise? {
      RaisedLeft(s);
    } else if e.Unblock? {
      UnblockLeft(s, e.first);
    }
  }

  function Forks(es: seq<Event>): nat {
    |Filter(es, (e: Event) => e.Fork?)|
  }

  /** The events of a run that move the authority. */
  function Moves(s: State, es: seq<Event>): nat
    requires Possible(s, es)
    decreases |es|
  {
    if es == [] then 0
    else (if Idle(s, es[0]) || es[0].Fork? then 0 else 1) + Moves(Step(s, es[0]), es[1..])
  }

  lemma RemainingAtStart(s: State)
    requires Initial(s)
    ensures Remaining(s) == 66
  {}

  /** No run keeps moving: each takes at most as many moves as it starts with plus one per fork, whatever
      fails and whenever signals arrive. */
  lemma {:induction false} MovesBounded(s: State, es: seq<Event>)
    requires Inv(s) && Possible(s, es)
    ensures Moves(s, es) + Remaining(Exec(s, es)) <= Remaining(s) + Forks(es)
    ensures Moves(s, es) <= Remaining(s) + Forks(es)
    ensures Initial(s) ==> Moves(s, es) <= 66 + Forks(es)
    decreases |es|
  {
    hide Inv, Remaining, Idle, Step, Enabled, Initial;
    if Initial(s) { RemainingAtStart(s); }
    if es == [] {
      RemainingPositive(s);
    } else {
      StepKeeps(s, es[0]);
      StepRemaining(s, es[0]);
      MovesBounded(Step(s, es[0]), es[1..]);
    }
  }

  /** Some move is always open until the report is out. */
  lemma NextMove(s: State) returns (e: Event)
    requires Inv(s) && !s.pc.Done?
    ensures Enabled(s, e) && !Idle(s, e) && !e.Fork?
  {
    if s.pc.Publish? {
      e := RenameErrno(true);
    } else if s.pc.Unmask? {
      if s.pending == {} { e := Unblock(2); } else { var first := PickPending(s.pending); e := Unblock(first); }
    } else if s.pc.Poll? {
      e := Exited(0);
    } else if (s.pc.Drain? || s.pc.FinalDrain?) && s.children > 0 {
      e := Reap;
    } else {
      e := Proceed;
    }
  }

  /** From every state a run can be in, the report is reachable by moves alone: no signal, no fork and no
      idle poll is needed, and none of the bounded moves is wasted. */
  lemma {:induction false} ReportReachable(s: State) returns (es: seq<Event>)
    requires Inv(s)
    ensures Possible(s, es) && Exec(s, es).pc.Done?
    ensures Moves(s, es) == |es| <= Remaining(s) && forall e :: e in es ==> !e.Signal? && !e.Fork? && !e.StageTouched?
    decreases Remaining(s)
  {
    hide Inv, Remaining, Step, Enabled;
    RemainingPositive(s);
    if s.pc.Done? {
      es := [];
    } else {
      var e := NextMove(s);
      StepKeeps(s, e);
      StepRemaining(s, e);
      var rest := ReportReachable(Step(s, e));
      es := [e] + rest;
      assert es[1..] == rest;
    }
  }

  // ---- Signals after the commit --------------------------------------------------------------------

  /** The same state as far as anything but the recorded and pending signals goes. */
  predicate SameButSignals(a: State, b: State) {
    a == b.(cancel := a.cancel, pending := a.pending)
  }

  function WithoutSignals(es: seq<Event>): seq<Event> {
    if es == [] then []
    else if es[0].Signal? then WithoutSignals(es[1..])
    else [es[0]] + WithoutSignals(es[1..])
  }

  lemma CommittedStep(s: State, q: State, e: Event)
    requires Inv(s) && s.publication.Committed? && SameButSignals(s, q) && q.pending == {} && Enabled(s, e)
    ensures e.Signal? ==> SameButSignals(Step(s, e), q)
    ensures !e.Signal? ==> Enabled(q, e) && SameButSignals(Step(s, e), Step(q, e)) && Step(q, e).pending == {}
    ensures Step(s, e).publication.Committed?
  {}

  /** After the commit signals change nothing: erase them from the run and every other event still
      happens, to the same publication, teardown, status and world. */
  lemma {:induction false} SignalsAfterCommit(s: State, q: State, es: seq<Event>)
    requires Inv(s) && s.publication.Committed? && SameButSignals(s, q) && q.pending == {} && Possible(s, es)
    ensures Possible(q, WithoutSignals(es)) && SameButSignals(Exec(s, es), Exec(q, WithoutSignals(es)))
    ensures Exec(s, es).publication.Committed?
    decreases |es|
  {
    if es != [] {
      CommittedStep(s, q, es[0]);
      StepKeeps(s, es[0]);
      var rest := WithoutSignals(es[1..]);
      if es[0].Signal? {
        SignalsAfterCommit(Step(s, es[0]), q, es[1..]);
      } else {
        SignalsAfterCommit(Step(s, es[0]), Step(q, es[0]), es[1..]);
        assert ([es[0]] + rest)[0] == es[0] && ([es[0]] + rest)[1..] == rest;
      }
    }
  }
}
