/** What the guard's verdicts mean: the evaluator verdict by verdict on any evidence, and evaluator and
    binder together on what was collected. */
module GuardVerdicts {
  import opened Outcomes
  import Checks = RequiredChecks
  import opened ReviewGuard

  // ---- The evaluator's verdicts ------------------------------------------------------------------------

  ghost predicate RightSubject(e: Evidence, x: Expected) {
    e.repo == x.repo && e.pr == x.pr && e.head == x.head && e.base == x.base
  }

  /** Everything that is asked of the evidence before Codex comes in. */
  ghost predicate Admitted(e: Evidence, x: Expected) {
    && e.revalidated && RightSubject(e, x)
    && e.state == "open" && !e.merged && !e.draft && e.checks == Checks.Passing
  }

  /** A summary that speaks for this head and this Ready event. */
  ghost predicate Speaks(s: Summary, texts: Texts, head: string, readyEventId: int) {
    && Codex(s.login) && texts.passes(s.body)
    && s.binding.Some? && s.binding.value.head == head && s.binding.value.readyEventId == readyEventId
  }

  ghost predicate SoleSpeaker(summaries: seq<Summary>, texts: Texts, head: string, readyEventId: int, j: nat) {
    && j < |summaries| && Speaks(summaries[j], texts, head, readyEventId)
    && forall k :: 0 <= k < |summaries| && Speaks(summaries[k], texts, head, readyEventId) ==> k == j
  }

  /** No review of the round was submitted after the summary's last update. */
  ghost predicate UpToDate(reviews: seq<Review>, head: string, start: int, updatedAt: int) {
    forall r :: r in reviews && InRound(r, head, start) ==> r.submittedAt.value <= updatedAt
  }

  /** The surfaces bear the summary out. */
  ghost predicate Confirmed(e: Evidence, x: Expected, s: Summary, readyTime: int) {
    && s.binding.Some? && readyTime <= s.binding.value.triggerAt <= s.binding.value.completedAt
    && (forall r :: r in e.reactions && Codex(r.login) && r.content == "eyes" && r.targetRepo == x.repo && r.targetPr == x.pr
          ==> r.createdAt < s.binding.value.triggerAt)
    && RoundEnded(e.reviews, e.reactions, s.login, x.repo, x.pr, x.head, s.binding.value)
    && (s.binding.value.kind.ByReview? ==> UpToDate(e.reviews, x.head, s.binding.value.triggerAt, s.updatedAt))
  }

  /** Codex has finished with the head, one way or the other. */
  ghost predicate Finished(r: Review, head: string) {
    Codex(r.login) && r.commitId == head && (r.state == "APPROVED" || r.state == "COMMENTED")
  }

  lemma RecheckIff(e: Evidence, x: Expected, s: Summary, readyTime: int)
    requires s.binding.Some?
    ensures Recheck(e, x, s, readyTime) == if Confirmed(e, x, s, readyTime) then None else Some(PendingCodex)
  {
    hide CurrentReviews, CleanReaction, RoundEnded, TerminalState;
    var b := s.binding.value;
    forall r: Reaction ensures r.login in CODEX_LOGINS <==> Codex(r.login) { CodexIff(r.login); }
    EndedIff(e.reviews, e.reactions, s.login, x.repo, x.pr, x.head, b);
    ReviewsIff(e.reviews, x.head, b.triggerAt);
    var current := CurrentReviews(e.reviews, x.head, b.triggerAt);
    if |current| == 1 {
      assert current[0] in current;
      assert forall r :: r in current ==> r == current[0];
    }
  }

  lemma SpeakersIff(e: Evidence, x: Expected, texts: Texts, readyEventId: int)
    ensures var summaries := Filter(e.summaries, (s: Summary) => IsCodexSummary(s, texts, x.head, readyEventId));
      && (forall s :: s in summaries <==> s in e.summaries && Speaks(s, texts, x.head, readyEventId))
      && (forall j: nat :: SoleSpeaker(e.summaries, texts, x.head, readyEventId, j) ==> summaries == [e.summaries[j]])
      && (|summaries| == 1 ==> exists j: nat :: SoleSpeaker(e.summaries, texts, x.head, readyEventId, j) && summaries == [e.summaries[j]])
  {
    forall s: Summary ensures IsCodexSummary(s, texts, x.head, readyEventId) <==> Speaks(s, texts, x.head, readyEventId) { CodexIff(s.login); }
    hide IsCodexSummary, Speaks;
    var p := (s: Summary) => IsCodexSummary(s, texts, x.head, readyEventId);
    forall j: nat | SoleSpeaker(e.summaries, texts, x.head, readyEventId, j) ensures Filter(e.summaries, p) == [e.summaries[j]] {
      SoleFilter(e.summaries, p, j);
    }
    if |Filter(e.summaries, p)| == 1 {
      var j := FilterSole(e.summaries, p);
      assert SoleSpeaker(e.summaries, texts, x.head, readyEventId, j);
    }
  }

  lemma TerminalsIff(reviews: seq<Review>, head: string)
    ensures forall r :: r in TerminalReviews(reviews, head) <==> r in reviews && Finished(r, head)
  {
    forall r: Review ensures r.login in CODEX_LOGINS <==> Codex(r.login) { CodexIff(r.login); }
  }

  lemma GateIff(e: Evidence, x: Expected)
    ensures Gate(e, x).None? <==> Admitted(e, x)
    ensures Gate(e, x) == Some(Unavailable) <==>
      !e.revalidated || (RightSubject(e, x) && e.state == "open" && !e.merged && !e.draft && e.checks == Checks.Malformed)
    ensures Gate(e, x) == Some(StaleSubject) <==> e.revalidated && !(RightSubject(e, x) && e.state == "open" && !e.merged)
    ensures Gate(e, x) == Some(PendingCodex) <==> e.revalidated && RightSubject(e, x) && e.state == "open" && !e.merged && e.draft
    ensures Gate(e, x) != Some(ReadyForDecision) && Gate(e, x) != Some(MaterialFindings)
  {}

  /** One summary speaks for the round of the latest Ready event, and the surfaces bear it out. */
  ghost predicate Settled(e: Evidence, x: Expected, texts: Texts) {
    exists i: nat, j: nat {:trigger LastReady(e.readyEvents, i), e.summaries[j]} :: LastReady(e.readyEvents, i)
      && SoleSpeaker(e.summaries, texts, x.head, e.readyEvents[i].id, j)
      && Confirmed(e, x, e.summaries[j], e.readyEvents[i].createdAt)
  }

  /** Several summaries speak for it. */
  ghost predicate Contradictory(e: Evidence, x: Expected, texts: Texts) {
    exists i: nat, j: nat, k: nat {:trigger LastReady(e.readyEvents, i), e.summaries[j], e.summaries[k]} :: LastReady(e.readyEvents, i)
      && j < k < |e.summaries|
      && Speaks(e.summaries[j], texts, x.head, e.readyEvents[i].id) && Speaks(e.summaries[k], texts, x.head, e.readyEvents[i].id)
  }

  /** None does, and whatever Codex finished was submitted before the Ready event. */
  ghost predicate Outdated(e: Evidence, x: Expected, texts: Texts) {
    exists i: nat :: LastReady(e.readyEvents, i)
      && (forall s :: s in e.summaries ==> !Speaks(s, texts, x.head, e.readyEvents[i].id))
      && (exists r :: r in e.reviews && Finished(r, x.head))
      && (forall r :: r in e.reviews && Finished(r, x.head) && r.submittedAt.Some? ==> r.submittedAt.value < e.readyEvents[i].createdAt)
  }

  lemma ContradictoryIff(e: Evidence, x: Expected, texts: Texts, ready: nat)
    requires ready < |e.readyEvents| && LastReady(e.readyEvents, ready) && forall i: nat :: LastReady(e.readyEvents, i) ==> i == ready
    ensures |Filter(e.summaries, (s: Summary) => IsCodexSummary(s, texts, x.head, e.readyEvents[ready].id))| > 1
      <==> Contradictory(e, x, texts)
  {
    var id := e.readyEvents[ready].id;
    forall s: Summary ensures IsCodexSummary(s, texts, x.head, id) <==> Speaks(s, texts, x.head, id) { CodexIff(s.login); }
    hide IsCodexSummary, Speaks, LastReady;
    var p := (s: Summary) => IsCodexSummary(s, texts, x.head, id);
    if |Filter(e.summaries, p)| > 1 {
      var j, k := FilterMany(e.summaries, p);
    }
    forall j, k | 0 <= j < k < |e.summaries| && p(e.summaries[j]) && p(e.summaries[k]) ensures |Filter(e.summaries, p)| > 1 {
      ManyFilter(e.summaries, p, j, k);
    }
  }

  lemma SettledIff(e: Evidence, x: Expected, texts: Texts, ready: nat)
    requires ready < |e.readyEvents| && LastReady(e.readyEvents, ready) && forall i: nat :: LastReady(e.readyEvents, i) ==> i == ready
    ensures var summaries := Filter(e.summaries, (s: Summary) => IsCodexSummary(s, texts, x.head, e.readyEvents[ready].id));
      Settled(e, x, texts) <==> |summaries| == 1 && Confirmed(e, x, summaries[0], e.readyEvents[ready].createdAt)
  {
    hide IsCodexSummary, LastReady, SoleSpeaker, Confirmed;
    SpeakersIff(e, x, texts, e.readyEvents[ready].id);
  }

  lemma OutdatedIff(e: Evidence, x: Expected, texts: Texts, ready: nat)
    requires ready < |e.readyEvents| && LastReady(e.readyEvents, ready) && forall i: nat :: LastReady(e.readyEvents, i) ==> i == ready
    ensures var summaries := Filter(e.summaries, (s: Summary) => IsCodexSummary(s, texts, x.head, e.readyEvents[ready].id));
      var terminal := TerminalReviews(e.reviews, x.head);
      Outdated(e, x, texts) <==>
        && summaries == [] && terminal != []
        && forall r :: r in terminal && r.submittedAt.Some? ==> r.submittedAt.value < e.readyEvents[ready].createdAt
  {
    hide IsCodexSummary, LastReady, SoleSpeaker, Speaks, Finished, TerminalReviews;
    SpeakersIff(e, x, texts, e.readyEvents[ready].id);
    TerminalsIff(e.reviews, x.head);
    var summaries := Filter(e.summaries, (s: Summary) => IsCodexSummary(s, texts, x.head, e.readyEvents[ready].id));
    if summaries != [] { assert summaries[0] in summaries; }
    var terminal := TerminalReviews(e.reviews, x.head);
    if terminal != [] { assert terminal[0] in terminal; }
  }

  lemma CodexSummaryBound(s: Summary, texts: Texts, head: string, readyEventId: int)
    requires IsCodexSummary(s, texts, head, readyEventId)
    ensures s.binding.Some?
  {}

  lemma EvaluateAdmitted(e: Evidence, x: Expected, texts: Texts)
    requires Gate(e, x).None?
    ensures e.readyEvents == [] ==> Evaluate(e, x, texts) == Unavailable
    ensures e.readyEvents != [] && PendingReview(e.reviews, x.head) ==> Evaluate(e, x, texts) == PendingCodex
    ensures e.readyEvents != [] && !PendingReview(e.reviews, x.head) ==>
      var ready := Latest(e.readyEvents);
      var summaries := Filter(e.summaries, (s: Summary) => IsCodexSummary(s, texts, x.head, ready.id));
      var terminal := TerminalReviews(e.reviews, x.head);
      Evaluate(e, x, texts) ==
        if summaries == [] then
          if terminal != [] && (forall r :: r in terminal && r.submittedAt.Some? ==> r.submittedAt.value < ready.createdAt)
          then StaleSubject else PendingCodex
        else if |summaries| != 1 then Unavailable
        else if !Confirmed(e, x, summaries[0], ready.createdAt) then PendingCodex
        else if e.openFindings > 0 then MaterialFindings else ReadyForDecision
  {
    hide Gate, PendingReview, Latest, IsCodexSummary, TerminalReviews, Recheck, Confirmed;
    if e.readyEvents != [] {
      var ready := Latest(e.readyEvents);
      var summaries := Filter(e.summaries, (s: Summary) => IsCodexSummary(s, texts, x.head, ready.id));
      if |summaries| == 1 {
        assert summaries[0] in summaries;
        CodexSummaryBound(summaries[0], texts, x.head, ready.id);
        RecheckIff(e, x, summaries[0], ready.createdAt);
      }
    }
  }

  lemma NothingReady(e: Evidence, x: Expected, texts: Texts)
    requires e.readyEvents == []
    ensures !Contradictory(e, x, texts) && !Outdated(e, x, texts) && !Settled(e, x, texts)
  {}

  lemma AdmittedVerdict(e: Evidence, x: Expected, texts: Texts)
    requires Admitted(e, x)
    ensures var v := Evaluate(e, x, texts);
      && (v == Unavailable <==> e.readyEvents == [] || (!Pending(e.reviews, x.head) && Contradictory(e, x, texts)))
      && (v == StaleSubject <==> !Pending(e.reviews, x.head) && Outdated(e, x, texts))
      && (v == (if e.openFindings > 0 then MaterialFindings else ReadyForDecision)
        <==> !Pending(e.reviews, x.head) && Settled(e, x, texts))
      && v != PendingRequiredCi && v != (if e.openFindings > 0 then ReadyForDecision else MaterialFindings)
  {
    hide Evaluate, Admitted, Gate, PendingReview, Pending, Contradictory, Outdated, Settled, Confirmed, TerminalReviews, IsCodexSummary, Latest;
    GateIff(e, x);
    PendingIff(e.reviews, x.head);
    EvaluateAdmitted(e, x, texts);
    if e.readyEvents != [] {
      var ready := LatestIsLast(e.readyEvents);
      ContradictoryIff(e, x, texts, ready);
      SettledIff(e, x, texts, ready);
      OutdatedIff(e, x, texts, ready);
    } else {
      NothingReady(e, x, texts);
    }
  }

  lemma GateAnswers(e: Evidence, x: Expected, texts: Texts)
    requires Gate(e, x).Some?
    ensures Evaluate(e, x, texts) == Gate(e, x).value
  {}

  /** The evaluator, verdict by verdict, on the raw evidence; what is left is PENDING_CODEX. */
  lemma VerdictIff(e: Evidence, x: Expected, texts: Texts)
    ensures var v := Evaluate(e, x, texts);
      && (v == ReadyForDecision <==> Admitted(e, x) && !Pending(e.reviews, x.head) && Settled(e, x, texts) && e.openFindings == 0)
      && (v == MaterialFindings <==> Admitted(e, x) && !Pending(e.reviews, x.head) && Settled(e, x, texts) && e.openFindings > 0)
      && (v == PendingRequiredCi <==>
        && e.revalidated && RightSubject(e, x) && e.state == "open" && !e.merged && !e.draft
        && e.checks != Checks.Passing && e.checks != Checks.Malformed)
      && (v == StaleSubject <==>
        || (e.revalidated && !(RightSubject(e, x) && e.state == "open" && !e.merged))
        || (Admitted(e, x) && !Pending(e.reviews, x.head) && Outdated(e, x, texts)))
      && (v == Unavailable <==>
        || !e.revalidated
        || (RightSubject(e, x) && e.state == "open" && !e.merged && !e.draft && e.checks == Checks.Malformed)
        || (Admitted(e, x) && (e.readyEvents == [] || (!Pending(e.reviews, x.head) && Contradictory(e, x, texts)))))
  {
    hide Pending, Contradictory, Outdated, Settled;
    GateIff(e, x);
    if Admitted(e, x) {
      hide *;
      AdmittedVerdict(e, x, texts);
    } else {
      GateAnswers(e, x, texts);
    }
  }

  // ---- Binder and evaluator together ---------------------------------------------------------------------

  /** The evidence the evaluator gets from a collection: the same surfaces, summaries from the binder. */
  ghost predicate FromCollection(e: Evidence, c: Collected, texts: Texts, who: Requesters) {
    && e.repo == c.repo && e.pr == c.pr && e.head == c.head
    && e.reviews == c.reviews && e.readyEvents == c.readyEvents && e.reactions == c.reactions
    && (forall r :: r in c.reactions ==> r.targetRepo == c.repo && r.targetPr == c.pr)
    && e.summaries == BindAll(c, texts, who, CodexComments(c.comments))
  }

  /** `k` completes the round of `b`: a Codex comment with a completion text, bound to `b` and not outdated by
      the review that ended the round. */
  ghost predicate RoundCompleted(c: Collected, texts: Texts, who: Requesters, k: Comment, b: Binding) {
    && k in c.comments && Codex(k.login) && texts.passes(k.body)
    && Binds(c, texts, who, k.login, k.body, b)
    && (b.kind.ByReview? ==> UpToDate(c.reviews, c.head, b.triggerAt, k.updatedAt))
  }

  ghost predicate Completes(c: Collected, texts: Texts, who: Requesters, k: Comment) {
    Codex(k.login) && texts.passes(k.body) && exists b :: Binds(c, texts, who, k.login, k.body, b)
  }

  /** Comment `i` is bound and has a completion text, and no other one does. */
  ghost predicate SoleCompletion(c: Collected, texts: Texts, who: Requesters, i: nat) {
    && i < |c.comments| && Completes(c, texts, who, c.comments[i])
    && forall j :: 0 <= j < |c.comments| && Completes(c, texts, who, c.comments[j]) ==> j == i
  }

  lemma AnswersLate(c: Collected, texts: Texts, who: Requesters, row: Row, start: int, ready: nat)
    requires Answers(c, texts, who, row, start) && ready < |c.readyEvents| && LastReady(c.readyEvents, ready)
    ensures c.readyEvents[ready].createdAt <= start
  {
    assert c.readyEvents[ready] in c.readyEvents;
  }

  /** Whatever the binder bound, the surfaces bear out, except that the summary may have been updated before
      its review was submitted. */
  lemma BoundRechecks(e: Evidence, x: Expected, c: Collected, texts: Texts, who: Requesters, k: Comment, b: Binding, ready: nat)
    requires FromCollection(e, c, texts, who) && RightSubject(e, x)
    requires Binds(c, texts, who, k.login, k.body, b) && ready < |e.readyEvents| && LastReady(e.readyEvents, ready)
    ensures Recheck(e, x, Unbound(k).(binding := Some(b)), e.readyEvents[ready].createdAt)
      == if b.kind.ByReview? && !UpToDate(c.reviews, c.head, b.triggerAt, k.updatedAt) then Some(PendingCodex) else None
  {
    hide Recheck, RoundEnded, Pending, BindAll;
    var s := Unbound(k).(binding := Some(b));
    RecheckIff(e, x, s, e.readyEvents[ready].createdAt);
    AnswersLate(c, texts, who, texts.row(k.body).value, b.triggerAt, ready);
  }

  lemma BindAllCons(c: Collected, texts: Texts, who: Requesters, k: Comment, rest: seq<Comment>)
    ensures BindAll(c, texts, who, [k] + rest) == [BindOne(c, texts, who, k)] + BindAll(c, texts, who, rest)
  {
    hide BindOne;
  }

  lemma BindNothing(c: Collected, texts: Texts, who: Requesters, p: Summary -> bool, q: Comment -> bool)
    ensures Filter(BindAll(c, texts, who, []), p) == BindAll(c, texts, who, Filter([], q))
  {}

  lemma {:induction false} FilterBound(c: Collected, texts: Texts, who: Requesters, own: seq<Comment>, p: Summary -> bool, q: Comment -> bool)
    requires forall k :: k in own ==> (q(k) <==> p(BindOne(c, texts, who, k)))
    ensures Filter(BindAll(c, texts, who, own), p) == BindAll(c, texts, who, Filter(own, q))
  {
    hide BindOne, BindAll, Filter;
    if own != [] {
      var k, rest := own[0], own[1..];
      assert own == [k] + rest && k in own && forall x :: x in rest ==> x in own;
      FilterBound(c, texts, who, rest, p, q);
      BindAllCons(c, texts, who, k, rest);
      FilterCons(BindOne(c, texts, who, k), BindAll(c, texts, who, rest), p);
      FilterCons(k, rest, q);
      BindAllCons(c, texts, who, k, Filter(rest, q));
    } else {
      BindNothing(c, texts, who, p, q);
    }
  }

  lemma SpeaksIff(c: Collected, texts: Texts, who: Requesters, k: Comment, ready: nat)
    requires ready < |c.readyEvents| && LastReady(c.readyEvents, ready) && forall i: nat :: LastReady(c.readyEvents, i) ==> i == ready
    ensures Codex(k.login) && Speaks(BindOne(c, texts, who, k), texts, c.head, c.readyEvents[ready].id) <==> Completes(c, texts, who, k)
  {
    hide LastReady, Answers, Pending, Command, RoundEnded, BindingClosed, BindingFor;
    forall b ensures BindOne(c, texts, who, k).binding == Some(b) <==> Binds(c, texts, who, k.login, k.body, b) {
      BindingIff(c, texts, who, k, b);
    }
    var s := BindOne(c, texts, who, k);
    if s.binding.Some? { assert Binds(c, texts, who, k.login, k.body, s.binding.value); }
  }

  lemma SummarySpeaks(s: Summary, texts: Texts, head: string, readyEventId: int)
    ensures IsCodexSummary(s, texts, head, readyEventId) <==> Speaks(s, texts, head, readyEventId)
  {
    CodexIff(s.login);
  }

  lemma CompletionSpeaks(c: Collected, texts: Texts, who: Requesters, k: Comment, ready: nat)
    requires ready < |c.readyEvents| && LastReady(c.readyEvents, ready) && forall i: nat :: LastReady(c.readyEvents, i) ==> i == ready
    ensures k.login in CODEX_LOGINS && IsCodexSummary(BindOne(c, texts, who, k), texts, c.head, c.readyEvents[ready].id)
      <==> Completes(c, texts, who, k)
  {
    hide LastReady, Speaks, IsCodexSummary, Completes, BindOne;
    CodexIff(k.login);
    SpeaksIff(c, texts, who, k, ready);
    SummarySpeaks(BindOne(c, texts, who, k), texts, c.head, c.readyEvents[ready].id);
  }

  lemma SpeakersComplete(e: Evidence, x: Expected, c: Collected, texts: Texts, who: Requesters, ready: nat)
    returns (completing: seq<Comment>)
    requires FromCollection(e, c, texts, who) && RightSubject(e, x)
    requires ready < |e.readyEvents| && LastReady(e.readyEvents, ready) && forall i: nat :: LastReady(e.readyEvents, i) ==> i == ready
    ensures Filter(e.summaries, (s: Summary) => IsCodexSummary(s, texts, x.head, e.readyEvents[ready].id))
      == BindAll(c, texts, who, completing)
    ensures |completing| == 1 ==> exists i: nat :: SoleCompletion(c, texts, who, i) && completing == [c.comments[i]]
    ensures forall i: nat :: SoleCompletion(c, texts, who, i) ==> completing == [c.comments[i]]
  {
    hide LastReady, IsCodexSummary, Completes, BindOne, BindAll;
    var id := e.readyEvents[ready].id;
    var p := (s: Summary) => IsCodexSummary(s, texts, x.head, id);
    var codex := (k: Comment) => k.login in CODEX_LOGINS;
    var q := (k: Comment) => p(BindOne(c, texts, who, k));
    var both := (k: Comment) => codex(k) && q(k);
    FilterBound(c, texts, who, CodexComments(c.comments), p, q);
    FilterTwice(c.comments, codex, q, both);
    completing := Filter(c.comments, both);
    forall k: Comment ensures both(k) <==> Completes(c, texts, who, k) { CompletionSpeaks(c, texts, who, k, ready); }
    if |completing| == 1 {
      var i := FilterSole(c.comments, both);
      assert SoleCompletion(c, texts, who, i);
    }
    forall i: nat | SoleCompletion(c, texts, who, i) ensures completing == [c.comments[i]] { SoleFilter(c.comments, both, i); }
  }

  lemma BoundBinding(c: Collected, texts: Texts, who: Requesters, k: Comment) returns (b: Binding)
    requires Completes(c, texts, who, k)
    ensures Binds(c, texts, who, k.login, k.body, b) && BindOne(c, texts, who, k) == Unbound(k).(binding := Some(b))
    ensures forall d :: Binds(c, texts, who, k.login, k.body, d) ==> d == b
  {
    hide BindingFor, BindingClosed, Binds;
    b :| Binds(c, texts, who, k.login, k.body, b);
    forall d | Binds(c, texts, who, k.login, k.body, d) ensures BindOne(c, texts, who, k).binding == Some(d) {
      BindingIff(c, texts, who, k, d);
    }
  }

  lemma SettledByCompletion(e: Evidence, x: Expected, c: Collected, texts: Texts, who: Requesters, i: nat, ready: nat)
    requires FromCollection(e, c, texts, who) && RightSubject(e, x) && SoleCompletion(c, texts, who, i)
    requires ready < |e.readyEvents| && LastReady(e.readyEvents, ready) && forall k: nat :: LastReady(e.readyEvents, k) ==> k == ready
    ensures Settled(e, x, texts) <==> exists b :: RoundCompleted(c, texts, who, c.comments[i], b)
  {
    hide FromCollection, LastReady, Recheck, Confirmed, Binds, BindOne, Codex, IsCodexSummary, Settled;
    var k := c.comments[i];
    var completing := SpeakersComplete(e, x, c, texts, who, ready);
    var b := BoundBinding(c, texts, who, k);
    var s := Unbound(k).(binding := Some(b));
    SettledIff(e, x, texts, ready);
    assert BindAll(c, texts, who, [k]) == [s];
    BoundRechecks(e, x, c, texts, who, k, b, ready);
    RecheckIff(e, x, s, e.readyEvents[ready].createdAt);
    assert RoundCompleted(c, texts, who, k, b) <==> Confirmed(e, x, s, e.readyEvents[ready].createdAt);
  }

  lemma SettledNeedsCompletion(e: Evidence, x: Expected, c: Collected, texts: Texts, who: Requesters, ready: nat)
    requires FromCollection(e, c, texts, who) && RightSubject(e, x) && Settled(e, x, texts)
    requires ready < |e.readyEvents| && LastReady(e.readyEvents, ready) && forall k: nat :: LastReady(e.readyEvents, k) ==> k == ready
    ensures exists i: nat :: SoleCompletion(c, texts, who, i)
  {
    hide FromCollection, LastReady, Confirmed, IsCodexSummary, Settled, SoleCompletion;
    var completing := SpeakersComplete(e, x, c, texts, who, ready);
    SettledIff(e, x, texts, ready);
  }

  lemma CompletionReady(c: Collected, texts: Texts, who: Requesters, k: Comment)
    requires Completes(c, texts, who, k)
    ensures c.readyEvents != [] && !Pending(c.reviews, c.head)
  {
    hide Answers, RoundEnded;
    var b :| Binds(c, texts, who, k.login, k.body, b);
  }

  lemma SettledReady(e: Evidence, x: Expected, texts: Texts)
    requires Settled(e, x, texts)
    ensures e.readyEvents != []
  {}

  lemma LastInside(events: seq<ReadyEvent>, i: nat)
    requires LastReady(events, i)
    ensures i < |events|
  {}

  lemma SettledIffCompleted(e: Evidence, x: Expected, c: Collected, texts: Texts, who: Requesters)
    requires FromCollection(e, c, texts, who) && RightSubject(e, x)
    ensures !Pending(e.reviews, x.head) && Settled(e, x, texts)
      <==> exists i: nat, b :: SoleCompletion(c, texts, who, i) && RoundCompleted(c, texts, who, c.comments[i], b)
  {
    hide LastReady, Settled, BindAll, Completes, Binds, Pending, UpToDate, Codex;
    if e.readyEvents != [] {
      var ready := LatestIsLast(e.readyEvents);
      LastInside(e.readyEvents, ready);
      if Settled(e, x, texts) {
        SettledNeedsCompletion(e, x, c, texts, who, ready);
      }
      forall i: nat | SoleCompletion(c, texts, who, i)
        ensures Settled(e, x, texts) <==> exists b :: RoundCompleted(c, texts, who, c.comments[i], b)
        ensures !Pending(e.reviews, x.head)
      {
        SettledByCompletion(e, x, c, texts, who, i, ready);
        CompletionReady(c, texts, who, c.comments[i]);
      }
    } else {
      if Settled(e, x, texts) { SettledReady(e, x, texts); }
      forall i: nat | SoleCompletion(c, texts, who, i) ensures false { CompletionReady(c, texts, who, c.comments[i]); }
    }
  }

  // ---- Main results ----------------------------------------------------------------------------------------

  /** Binder and evaluator agree. Once everything else is in order, the evaluator accepts exactly when one
      Codex comment, and no other, is bound with a completion text, and no review outdates it. */
  lemma AgreementIff(e: Evidence, x: Expected, c: Collected, texts: Texts, who: Requesters)
    requires FromCollection(e, c, texts, who) && Admitted(e, x)
    ensures Evaluate(e, x, texts) == (if e.openFindings > 0 then MaterialFindings else ReadyForDecision)
      <==> exists i: nat, b :: SoleCompletion(c, texts, who, i) && RoundCompleted(c, texts, who, c.comments[i], b)
  {
    hide Evaluate, FromCollection, SoleCompletion, RoundCompleted, Pending, Settled, Contradictory, Outdated;
    VerdictIff(e, x, texts);
    SettledIffCompleted(e, x, c, texts, who);
  }

  /** What a positive verdict says about the raw surfaces: an open pull request past its draft with the
      expected subject and its required checks passing, no open finding, and one Codex comment `k` that
      completes the round of `b`. */
  lemma ReadyMeans(e: Evidence, x: Expected, c: Collected, texts: Texts, who: Requesters)
    returns (k: Comment, b: Binding)
    requires FromCollection(e, c, texts, who) && Evaluate(e, x, texts) == ReadyForDecision
    ensures RoundCompleted(c, texts, who, k, b)
    ensures Admitted(e, x) && c.head == x.head && !Pending(c.reviews, x.head) && e.openFindings == 0
  {
    hide Evaluate, RoundCompleted, Completes, Pending, Settled, Contradictory, Outdated, BindAll;
    VerdictIff(e, x, texts);
    AgreementIff(e, x, c, texts, who);
    var i: nat, d :| SoleCompletion(c, texts, who, i) && RoundCompleted(c, texts, who, c.comments[i], d);
    k, b := c.comments[i], d;
  }
}
