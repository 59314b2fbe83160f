/** The routing receipt. On one side the validators of `_router_receipt_v2.py`, which only look at a
    finished document; on the other a fallback machine that tries one target at a time. A document
    passes exactly when it is a trace of the machine. */
module RouteCascade {
  import opened Outcomes

  const MAX_ATTEMPTS := 64
  const MAX_COUNT := 2_147_483_647

  datatype Result = Failed | Selected
  datatype UsageScope = AttemptScope | SelectedAttemptScope | AllAttemptsScope
  datatype Kind = ModelFallback | ProviderFallback
  datatype Usage = Usage(scope: UsageScope, promptTokens: int, completionTokens: int, totalTokens: int,
                         adapterInvocations: int, observations: int)
  datatype Attempt = Attempt(index: int, provider: string, model: string, outcome: Result,
                             adapterInvocationCount: int, failureCode: Option<string>, usage: Option<Usage>)
  datatype Transition = Transition(fromAttempt: int, toAttempt: int, kind: Kind, reasonCode: string)
  datatype Route = Route(selectedAttemptIndex: int, attempts: seq<Attempt>, transitions: seq<Transition>)

  // ---- The acceptor ------------------------------------------------------------------------------

  /** `_TokenUsageV1` and `_TokenUsageCoverageV1` */
  predicate UsageValid(u: Usage) {
    && u.promptTokens >= 0 && u.completionTokens >= 0 && u.totalTokens >= 0
    && u.totalTokens == u.promptTokens + u.completionTokens
    && u.adapterInvocations >= 1 && u.observations >= 1 && u.observations <= u.adapterInvocations
  }

  /** `_RouteAttemptV2` */
  predicate AttemptValid(a: Attempt) {
    && 1 <= a.index <= MAX_ATTEMPTS && 1 <= a.adapterInvocationCount <= MAX_COUNT
    && (a.outcome.Failed? <==> a.failureCode.Some?)
    && (a.usage.Some? ==>
          && UsageValid(a.usage.value) && a.usage.value.scope == AttemptScope
          && a.usage.value.adapterInvocations <= a.adapterInvocationCount
          && (a.outcome.Failed? ==>
                && a.usage.value.adapterInvocations == a.adapterInvocationCount
                && a.usage.value.observations == a.adapterInvocationCount))
  }

  function FallbackKind(a: Attempt, b: Attempt): Kind {
    if a.provider == b.provider then ModelFallback else ProviderFallback
  }

  predicate TransitionValid(t: Transition) {
    1 <= t.fromAttempt <= MAX_ATTEMPTS && 1 <= t.toAttempt <= MAX_ATTEMPTS
  }

  predicate DistinctTargets(attempts: seq<Attempt>) {
    forall i, j :: 0 <= i < j < |attempts| ==>
      (attempts[i].provider, attempts[i].model) != (attempts[j].provider, attempts[j].model)
  }

  /** A transition binds two adjacent attempts. */
  predicate Bridge(t: Transition, previous: Attempt, following: Attempt) {
    && t.fromAttempt == previous.index && t.toAttempt == following.index
    && previous.failureCode == Some(t.reasonCode) && t.kind == FallbackKind(previous, following)
  }

  function SelectedIndices(attempts: seq<Attempt>): seq<int> {
    if attempts == [] then []
    else (if attempts[0].outcome.Selected? then [attempts[0].index] else []) + SelectedIndices(attempts[1..])
  }

  /** `_RoutingExecutionV2._validate_route` with the field bounds of its model. */
  predicate RouteAccepted(r: Route) {
    && 1 <= r.selectedAttemptIndex <= MAX_ATTEMPTS
    && 1 <= |r.attempts| <= MAX_ATTEMPTS && |r.transitions| <= MAX_ATTEMPTS - 1
    && (forall a :: a in r.attempts ==> AttemptValid(a))
    && (forall t :: t in r.transitions ==> TransitionValid(t))
    && (forall i :: 0 <= i < |r.attempts| ==> r.attempts[i].index == i + 1)
    && DistinctTargets(r.attempts)
    && SelectedIndices(r.attempts) == [r.selectedAttemptIndex]
    && r.attempts[|r.attempts| - 1].index == r.selectedAttemptIndex
    && |r.transitions| == |r.attempts| - 1
    && forall i :: 0 <= i < |r.transitions| ==> Bridge(r.transitions[i], r.attempts[i], r.attempts[i + 1])
  }

  function TotalInvocations(attempts: seq<Attempt>): int {
    if attempts == [] then 0 else attempts[0].adapterInvocationCount + TotalInvocations(attempts[1..])
  }

  /** `_InferenceReceiptV2._validate_receipt_usage` on a route that was accepted. */
  predicate ReceiptUsageAccepted(r: Route, usage: Option<Usage>)
    requires RouteAccepted(r)
  {
    usage.None? ||
    var u := usage.value;
    && UsageValid(u)
    && !u.scope.AttemptScope?
    && (u.scope.SelectedAttemptScope? ==>
          u.adapterInvocations <= r.attempts[r.selectedAttemptIndex - 1].adapterInvocationCount)
    && (u.scope.AllAttemptsScope? ==>
          u.adapterInvocations == TotalInvocations(r.attempts) && u.observations == TotalInvocations(r.attempts))
  }

  // ---- The machine -------------------------------------------------------------------------------

  /** What was metered during a try: tokens in and out, over `observed` of the `covered` invocations. */
  datatype Meter = Meter(prompt: int, completion: int, covered: int, observed: int)

  /** One try of the cascade at a provider/model target. `code` is what the try failed with; a try
      without a code is the selection. */
  datatype Try = Try(provider: string, model: string, code: Option<string>, invocations: int, meter: Option<Meter>)

  /** `spent` counts adapter invocations as they happen. */
  datatype Cascade = Cascade(attempts: seq<Attempt>, transitions: seq<Transition>, stopped: bool, spent: int)

  const Start := Cascade([], [], false, 0)

  /** A try counts its invocations in 31 bits; a meter that ran saw some of them, and of a failed try it saw
      all. */
  predicate TryPossible(t: Try) {
    && 0 < t.invocations < 0x8000_0000
    && match t.meter
       case None => true
       case Some(m) =>
         && m.prompt >= 0 && m.completion >= 0 && 0 < m.observed <= m.covered <= t.invocations
         && (t.code.Some? ==> m.observed == t.invocations)
  }

  /** The next try must come before the selection, be among the first 64 and hit a fresh target. */
  predicate Enabled(c: Cascade, t: Try) {
    && !c.stopped && |c.attempts| < 64 && TryPossible(t)
    && forall a :: a in c.attempts ==> (a.provider, a.model) != (t.provider, t.model)
  }

  function Metered(m: Meter): Usage {
    Usage(AttemptScope, m.prompt, m.completion, m.prompt + m.completion, m.covered, m.observed)
  }

  function Record(c: Cascade, t: Try): Attempt {
    Attempt(|c.attempts| + 1, t.provider, t.model, if t.code.Some? then Failed else Selected, t.invocations, t.code,
            if t.meter.Some? then Some(Metered(t.meter.value)) else None)
  }

  /** A try after a failed one is a fallback: to another model of the same provider, or to another
      provider, for the reason the failed one gave. */
  function Perform(c: Cascade, t: Try): Cascade {
    var n := |c.attempts|;
    var hop :=
      if n == 0 then []
      else
        var previous := c.attempts[n - 1];
        var reason := if previous.failureCode.Some? then previous.failureCode.value else "";
        [Transition(n, n + 1, if t.provider == previous.provider then ModelFallback else ProviderFallback, reason)];
    Cascade(c.attempts + [Record(c, t)], c.transitions + hop, t.code.None?, c.spent + t.invocations)
  }

  function Play(c: Cascade, tries: seq<Try>): Cascade
    decreases |tries|
  {
    if tries == [] then c else Play(Perform(c, tries[0]), tries[1..])
  }

  predicate Playable(c: Cascade, tries: seq<Try>)
    decreases |tries|
  {
    tries == [] || (Enabled(c, tries[0]) && Playable(Perform(c, tries[0]), tries[1..]))
  }

  /** A complete execution: a run of the machine that ended by selecting. */
  predicate Execution(tries: seq<Try>) {
    Playable(Start, tries) && Play(Start, tries).stopped
  }

  function RouteOf(c: Cascade): Route {
    Route(|c.attempts|, c.attempts, c.transitions)
  }

  function TryOf(a: Attempt): Try {
    Try(a.provider, a.model, a.failureCode, a.adapterInvocationCount,
        match a.usage
        case None => None
        case Some(u) => Some(Meter(u.promptTokens, u.completionTokens, u.adapterInvocations, u.observations)))
  }

  function TriesOf(attempts: seq<Attempt>): (ts: seq<Try>)
    ensures |ts| == |attempts|
    ensures forall i :: 0 <= i < |ts| ==> ts[i] == TryOf(attempts[i])
  {
    seq(|attempts|, i requires 0 <= i < |attempts| => TryOf(attempts[i]))
  }

  // ---- What every run of the machine keeps ---------------------------------------------------------

  ghost predicate CascadeInv(c: Cascade) {
    && |c.attempts| <= MAX_ATTEMPTS
    && (forall a :: a in c.attempts ==> AttemptValid(a))
    && (forall i :: 0 <= i < |c.attempts| ==> c.attempts[i].index == i + 1)
    && DistinctTargets(c.attempts)
    && |c.transitions| == (if c.attempts == [] then 0 else |c.attempts| - 1)
    && (forall i :: 0 <= i < |c.transitions| ==> Bridge(c.transitions[i], c.attempts[i], c.attempts[i + 1]))
    && (forall i :: 0 <= i < |c.attempts| - 1 ==> c.attempts[i].outcome.Failed?)
    && (c.stopped <==> c.attempts != [] && c.attempts[|c.attempts| - 1].outcome.Selected?)
    && c.spent == TotalInvocations(c.attempts)
  }

  lemma {:induction false} TotalAppend(a: seq<Attempt>, b: Attempt)
    ensures TotalInvocations(a + [b]) == TotalInvocations(a) + b.adapterInvocationCount
  {
    if a == [] {
      assert [] + [b] == [b] && [b][1..] == [];
    } else {
      assert (a + [b])[1..] == a[1..] + [b];
      TotalAppend(a[1..], b);
    }
  }

  lemma PerformFresh(c: Cascade, t: Try)
    requires DistinctTargets(c.attempts) && Enabled(c, t)
    ensures DistinctTargets(Perform(c, t).attempts)
  {
    var next := Perform(c, t).attempts;
    forall i, j | 0 <= i < j < |next| ensures (next[i].provider, next[i].model) != (next[j].provider, next[j].model) {
      if j == |c.attempts| { assert c.attempts[i] in c.attempts; }
    }
  }

  lemma PerformBridges(c: Cascade, t: Try, i: nat)
    requires CascadeInv(c) && Enabled(c, t) && i < |Perform(c, t).transitions|
    ensures var next := Perform(c, t); Bridge(next.transitions[i], next.attempts[i], next.attempts[i + 1])
  {
    if i < |c.transitions| {
      assert Bridge(c.transitions[i], c.attempts[i], c.attempts[i + 1]);
    } else {
      assert c.attempts[i] in c.attempts && AttemptValid(c.attempts[i]);
    }
  }

  lemma PerformKeeps(c: Cascade, t: Try)
    requires CascadeInv(c) && Enabled(c, t)
    ensures CascadeInv(Perform(c, t))
  {
    hide TotalInvocations, DistinctTargets, Bridge;
    var next := Perform(c, t);
    TotalAppend(c.attempts, Record(c, t));
    assert AttemptValid(Record(c, t));
    PerformFresh(c, t);
    forall i | 0 <= i < |next.transitions| ensures Bridge(next.transitions[i], next.attempts[i], next.attempts[i + 1]) {
      PerformBridges(c, t, i);
    }
  }

  lemma {:induction false} PlayKeeps(c: Cascade, tries: seq<Try>)
    requires CascadeInv(c) && Playable(c, tries)
    ensures CascadeInv(Play(c, tries))
    decreases |tries|
  {
    if tries != [] {
      PerformKeeps(c, tries[0]);
      PlayKeeps(Perform(c, tries[0]), tries[1..]);
    }
  }

  lemma {:induction false} SoleSelected(attempts: seq<Attempt>)
    ensures (attempts != [] && attempts[|attempts| - 1].outcome.Selected?
        && forall i :: 0 <= i < |attempts| - 1 ==> attempts[i].outcome.Failed?)
      ==> SelectedIndices(attempts) == [attempts[|attempts| - 1].index]
    ensures (forall i :: 0 <= i < |attempts| ==> attempts[i].outcome.Failed?) ==> SelectedIndices(attempts) == []
  {
    if attempts != [] {
      SoleSelected(attempts[1..]);
      assert forall i :: 0 <= i < |attempts| - 1 ==> attempts[1..][i] == attempts[i + 1];
    }
  }

  lemma {:induction false} NoneSelected(attempts: seq<Attempt>)
    ensures SelectedIndices(attempts) == [] <==> forall i :: 0 <= i < |attempts| ==> attempts[i].outcome.Failed?
  {
    if attempts != [] {
      NoneSelected(attempts[1..]);
      assert forall i :: 0 <= i < |attempts| - 1 ==> attempts[1..][i] == attempts[i + 1];
      if forall i :: 0 <= i < |attempts| ==> attempts[i].outcome.Failed? {}
      else if attempts[0].outcome.Failed? {
        var i :| 0 <= i < |attempts| && !attempts[i].outcome.Failed?;
        assert attempts[1..][i - 1] == attempts[i];
      }
    }
  }

  lemma SelectedNonEmpty(attempts: seq<Attempt>)
    requires SelectedIndices(attempts) != []
    ensures attempts != []
  {}

  lemma {:induction false} EarlierFailed(attempts: seq<Attempt>, i: nat)
    requires |SelectedIndices(attempts)| == 1 && attempts != []
    requires SelectedIndices(attempts) == [attempts[|attempts| - 1].index]
    requires forall k, l :: 0 <= k < l < |attempts| ==> attempts[k].index != attempts[l].index
    requires i < |attempts|
    ensures attempts[i].outcome.Selected? <==> i == |attempts| - 1
  {
    var rest := attempts[1..];
    assert forall k :: 0 <= k < |rest| ==> rest[k] == attempts[k + 1];
    if attempts[0].outcome.Selected? {
      assert SelectedIndices(attempts)[0] == attempts[0].index;
      NoneSelected(rest);
    } else {
      assert SelectedIndices(attempts) == SelectedIndices(rest);
      if i > 0 { EarlierFailed(rest, i - 1); } else { SelectedNonEmpty(rest); }
    }
  }

  lemma StoppedAccepted(c: Cascade)
    requires CascadeInv(c) && c.stopped
    ensures RouteAccepted(RouteOf(c))
  {
    SoleSelected(c.attempts);
    forall t | t in c.transitions ensures TransitionValid(t) {
      var i :| 0 <= i < |c.transitions| && c.transitions[i] == t;
      assert Bridge(t, c.attempts[i], c.attempts[i + 1]);
      assert c.attempts[i] in c.attempts && c.attempts[i + 1] in c.attempts;
    }
  }

  /** Every complete execution writes an accepted route. */
  lemma ExecutionAccepted(tries: seq<Try>)
    requires Execution(tries)
    ensures RouteAccepted(RouteOf(Play(Start, tries)))
    ensures Play(Start, tries).spent == TotalInvocations(Play(Start, tries).attempts)
  {
    PlayKeeps(Start, tries);
    StoppedAccepted(Play(Start, tries));
  }

  // ---- Every accepted route is a trace --------------------------------------------------------------

  /** The machine's state after the first `n` attempts of a route. */
  function Upto(r: Route, n: nat): Cascade
    requires n <= |r.attempts| && |r.transitions| == |r.attempts| - 1
  {
    Cascade(r.attempts[..n], if n == 0 then [] else r.transitions[..n - 1],
            n > 0 && r.attempts[n - 1].outcome.Selected?, TotalInvocations(r.attempts[..n]))
  }

  lemma AcceptedFacts(r: Route, i: nat)
    requires RouteAccepted(r) && i < |r.attempts|
    ensures AttemptValid(r.attempts[i]) && r.attempts[i].index == i + 1
    ensures r.attempts[i].outcome.Selected? <==> i == |r.attempts| - 1
    ensures r.selectedAttemptIndex == |r.attempts|
  {
    assert r.attempts[i] in r.attempts;
    EarlierFailed(r.attempts, i);
  }

  lemma UptoStep(r: Route, n: nat)
    requires RouteAccepted(r) && n < |r.attempts|
    ensures Enabled(Upto(r, n), TryOf(r.attempts[n]))
    ensures Perform(Upto(r, n), TryOf(r.attempts[n])) == Upto(r, n + 1)
  {
    var c, a := Upto(r, n), r.attempts[n];
    AcceptedFacts(r, n);
    assert Record(c, TryOf(a)) == a;
    assert r.attempts[..n + 1] == r.attempts[..n] + [a];
    TotalAppend(r.attempts[..n], a);
    forall e | e in c.attempts ensures (e.provider, e.model) != (a.provider, a.model) {
      var k :| 0 <= k < n && r.attempts[..n][k] == e;
      assert r.attempts[k] == e;
    }
    if n > 0 {
      AcceptedFacts(r, n - 1);
      assert r.transitions[n - 1].fromAttempt == r.attempts[n - 1].index;
      assert r.transitions[..n] == r.transitions[..n - 1] + [r.transitions[n - 1]];
      assert c.attempts[|c.attempts| - 1] == r.attempts[n - 1];
    }
  }

  lemma {:induction false} PlayRoute(r: Route, n: nat)
    requires RouteAccepted(r) && n <= |r.attempts|
    ensures Playable(Upto(r, n), TriesOf(r.attempts[n..]))
    ensures Play(Upto(r, n), TriesOf(r.attempts[n..])) == Upto(r, |r.attempts|)
    decreases |r.attempts| - n
  {
    hide Enabled, Perform, AttemptValid, TransitionValid, DistinctTargets, SelectedIndices, Bridge, TotalInvocations;
    var tries := TriesOf(r.attempts[n..]);
    if n < |r.attempts| {
      UptoStep(r, n);
      PlayRoute(r, n + 1);
      assert tries[0] == TryOf(r.attempts[n]);
      assert r.attempts[n..][1..] == r.attempts[n + 1..];
      assert tries[1..] == TriesOf(r.attempts[n + 1..]);
    }
  }

  lemma AcceptedExecution(r: Route)
    requires RouteAccepted(r)
    ensures Execution(TriesOf(r.attempts)) && RouteOf(Play(Start, TriesOf(r.attempts))) == r
  {
    PlayRoute(r, 0);
    assert r.attempts[0..] == r.attempts && r.attempts[..0] == [];
    assert Upto(r, 0) == Start;
    AcceptedFacts(r, |r.attempts| - 1);
    assert r.attempts[..|r.attempts|] == r.attempts && r.transitions[..|r.transitions|] == r.transitions;
  }

  /** Main result: the acceptor accepts exactly the traces of the fallback machine. */
  lemma RouteIffTrace(r: Route)
    ensures RouteAccepted(r) <==> exists tries :: Execution(tries) && RouteOf(Play(Start, tries)) == r
  {
    if RouteAccepted(r) { AcceptedExecution(r); }
    if tries :| Execution(tries) && RouteOf(Play(Start, tries)) == r { ExecutionAccepted(tries); }
  }

  lemma {:induction false} PlayLength(c: Cascade, tries: seq<Try>)
    ensures |Play(c, tries).attempts| == |c.attempts| + |tries|
    ensures Play(c, tries).attempts[..|c.attempts|] == c.attempts
    ensures forall i :: 0 <= i < |tries| ==> TryOf(Play(c, tries).attempts[|c.attempts| + i]) == tries[i]
    decreases |tries|
  {
    if tries != [] {
      var next := Perform(c, tries[0]);
      PlayLength(next, tries[1..]);
      var end := Play(c, tries).attempts;
      assert end[..|c.attempts|] == end[..|next.attempts|][..|c.attempts|] == c.attempts;
      assert end[|c.attempts|] == end[..|next.attempts|][|c.attempts|];
      forall i | 0 <= i < |tries| ensures TryOf(end[|c.attempts| + i]) == tries[i] {
        if i > 0 {
          assert tries[i] == tries[1..][i - 1];
          assert end[|c.attempts| + i] == end[|next.attempts| + (i - 1)];
        }
      }
    }
  }

  /** A route's transitions carry nothing its attempts do not: two accepted routes with the same
      attempts are equal, and each records the one execution that wrote it. */
  lemma AttemptsDetermineRoute(r: Route, other: Route)
    requires RouteAccepted(r) && RouteAccepted(other) && r.attempts == other.attempts
    ensures r == other
  {
    AcceptedExecution(r);
    AcceptedExecution(other);
  }

  lemma PlayedTries(tries: seq<Try>)
    ensures TriesOf(Play(Start, tries).attempts) == tries
  {
    PlayLength(Start, tries);
    var played := TriesOf(Play(Start, tries).attempts);
    assert |played| == |tries|;
    forall i | 0 <= i < |tries| ensures played[i] == tries[i] {
      assert TryOf(Play(Start, tries).attempts[|Start.attempts| + i]) == tries[i];
    }
  }

  lemma ExecutionUnique(tries: seq<Try>, other: seq<Try>)
    requires Execution(tries) && Execution(other)
    requires RouteOf(Play(Start, tries)) == RouteOf(Play(Start, other))
    ensures tries == other
  {
    PlayedTries(tries);
    PlayedTries(other);
  }

  /** The usage of a whole receipt, scope by scope, against the execution its route records: it is optional,
      it adds up, it observed some of the invocations it covers, and it covers no more than the selecting try
      made, or exactly what the machine spent over all tries; usage of a single attempt is refused. */
  lemma ReceiptUsageIff(r: Route, usage: Option<Usage>)
    requires RouteAccepted(r)
    ensures var tries := TriesOf(r.attempts);
      && Execution(tries) && RouteOf(Play(Start, tries)) == r
      && (ReceiptUsageAccepted(r, usage) <==>
        match usage
        case None => true
        case Some(u) =>
          && u.promptTokens >= 0 && u.completionTokens >= 0 && u.totalTokens == u.promptTokens + u.completionTokens
          && 1 <= u.observations <= u.adapterInvocations
          && match u.scope
             case AttemptScope => false
             case SelectedAttemptScope => u.adapterInvocations <= tries[|tries| - 1].invocations
             case AllAttemptsScope => u.adapterInvocations == u.observations == Play(Start, tries).spent)
  {
    hide Execution, Play, Bridge, AttemptValid, TransitionValid, DistinctTargets;
    AcceptedExecution(r);
    ExecutionAccepted(TriesOf(r.attempts));
    AcceptedFacts(r, |r.attempts| - 1);
  }

  /** What every accepted transition says: it leads to the next attempt because the last one failed so, and
      it is a model fallback exactly when the provider stays, in which case the model changes. */
  lemma TransitionMeans(r: Route, i: nat)
    requires RouteAccepted(r) && i < |r.transitions|
    ensures |r.transitions| == |r.attempts| - 1
    ensures r.transitions[i].fromAttempt == i + 1 && r.transitions[i].toAttempt == i + 2
    ensures r.attempts[i].failureCode == Some(r.transitions[i].reasonCode)
    ensures r.transitions[i].kind == ModelFallback <==> r.attempts[i].provider == r.attempts[i + 1].provider
    ensures r.transitions[i].kind == ModelFallback ==> r.attempts[i].model != r.attempts[i + 1].model
  {
    assert Bridge(r.transitions[i], r.attempts[i], r.attempts[i + 1]);
  }
}
