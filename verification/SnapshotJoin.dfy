/** The acquirer's suite join: check runs become observations by attribution to the one workflow run
    that claims their suite. Composed with selection: nothing in the payload's order matters, and a
    green verdict is grounded in an actual run and an actual check. */
module SnapshotJoin {
  import opened Outcomes
  import opened CiSelection

  /** A workflow run as listed. A `None` is a field the acquirer refuses to invent; `ref` is the
      outcome of `_workflow_ref`. Start times are any totally ordered domain. */
  datatype RunRecord = RunRecord(
    suite: Option<int>, id: Option<string>, path: string, attempt: Option<int>, startedAt: Option<int>,
    event: string, ref: Option<string>, producer: Option<string>)

  datatype CheckRecord = CheckRecord(
    suite: Option<int>, id: Option<string>, name: string, app: string, status: string, conclusion: Option<string>)

  const KNOWN_EVENTS: set<string> :=
    {"pull_request", "pull_request_target", "push", "merge_group", "workflow_run", "workflow_dispatch", "schedule"}

  /** The run carries this suite id; absent and zero ids are nobody's. */
  predicate Claims(r: RunRecord, suite: Option<int>) {
    suite.Some? && suite.value != 0 && r.suite == suite
  }

  function Claimants(runs: seq<RunRecord>, suite: Option<int>): seq<RunRecord> {
    Filter(runs, (r: RunRecord) => Claims(r, suite))
  }

  /** Two runs share a suite. */
  predicate Contested(runs: seq<RunRecord>) {
    exists r :: r in runs && |Claimants(runs, r.suite)| > 1
  }

  /** Every field of the observation is there: `_require_id`, `_require_run_attempt`,
      `_run_started_at`, `_run_event`, `_workflow_ref`, `_require_producer_repository`. */
  predicate Usable(c: CheckRecord, r: RunRecord) {
    && c.id.Some? && r.id.Some? && r.attempt.Some? && r.attempt.value >= 1 && r.startedAt.Some?
    && r.event in KNOWN_EVENTS && r.ref.Some? && r.producer.Some?
  }

  datatype Target = Target(repository: string, headSha: string)

  function Observe(t: Target, c: CheckRecord, r: RunRecord): Observation
    requires Usable(c, r)
  {
    Observation(t.repository, t.headSha, c.id.value, c.name, r.path, c.app, r.id.value, r.attempt.value,
                r.startedAt.value, c.status, c.conclusion)
  }

  /** What one check run contributes. */
  function ObservedAs(t: Target, runs: seq<RunRecord>, c: CheckRecord): (os: seq<Observation>)
    ensures |os| <= 1
  {
    var owners := Claimants(runs, c.suite);
    if owners == [] || !Usable(c, owners[0]) then [] else [Observe(t, c, owners[0])]
  }

  function Observations(t: Target, runs: seq<RunRecord>, checks: seq<CheckRecord>): seq<Observation> {
    if checks == [] then []
    else Observations(t, runs, checks[..|checks| - 1]) + ObservedAs(t, runs, checks[|checks| - 1])
  }

  // ---- What the join must do, on the listings alone ----------------------------------------------

  /** The check run is of the run's suite; no suite and suite 0 are nobody's. */
  ghost predicate SameSuite(c: CheckRecord, r: RunRecord) {
    c.suite.Some? && c.suite.value != 0 && r.suite.Some? && r.suite.value == c.suite.value
  }

  /** A field that an observation needs is missing, or the event is none of the known ones. */
  ghost predicate Lacking(c: CheckRecord, r: RunRecord) {
    || c.id.None? || r.id.None? || r.attempt.None? || r.attempt.value <= 0 || r.startedAt.None? || r.ref.None? || r.producer.None?
    || !(r.event == "pull_request" || r.event == "pull_request_target" || r.event == "push" || r.event == "merge_group"
         || r.event == "workflow_run" || r.event == "workflow_dispatch" || r.event == "schedule")
  }

  /** Check run and run together make this observation. */
  ghost predicate Makes(t: Target, c: CheckRecord, r: RunRecord, o: Observation) {
    && SameSuite(c, r) && !Lacking(c, r)
    && o.repository == t.repository && o.headSha == t.headSha
    && o.checkRunId == c.id.value && o.checkRunName == c.name && o.appSlug == c.app
    && o.status == c.status && o.conclusion == c.conclusion
    && o.workflowPath == r.path && o.workflowRunId == r.id.value && o.runAttempt == r.attempt.value && o.runStartedAt == r.startedAt.value
  }

  /** Two runs of the listing have the same suite. */
  ghost predicate SuiteTwice(runs: seq<RunRecord>) {
    exists i, j :: 0 <= i < j < |runs| && runs[i].suite.Some? && runs[i].suite.value != 0 && runs[j].suite == runs[i].suite
  }

  /** Some check run is attributed to a run but a field is missing. */
  ghost predicate Unusable(runs: seq<RunRecord>, checks: seq<CheckRecord>) {
    exists c, r :: c in checks && r in runs && SameSuite(c, r) && Lacking(c, r)
  }

  lemma PairIff(t: Target, c: CheckRecord, r: RunRecord)
    ensures Claims(r, c.suite) <==> SameSuite(c, r)
    ensures Usable(c, r) <==> !Lacking(c, r)
    ensures Usable(c, r) ==> forall o :: SameSuite(c, r) && o == Observe(t, c, r) <==> Makes(t, c, r, o)
  {}

  lemma ContestedIff(runs: seq<RunRecord>)
    ensures Contested(runs) <==> SuiteTwice(runs)
  {
    if r :| r in runs && |Claimants(runs, r.suite)| > 1 {
      var i, j := FilterMany(runs, (x: RunRecord) => Claims(x, r.suite));
      assert runs[j].suite == runs[i].suite;
    }
    if i, j :| 0 <= i < j < |runs| && runs[i].suite.Some? && runs[i].suite.value != 0 && runs[j].suite == runs[i].suite {
      ManyFilter(runs, (x: RunRecord) => Claims(x, runs[i].suite), i, j);
      assert runs[i] in runs;
    }
  }

  // ---- The loops of `build_snapshot_document` ----------------------------------------------------

  /** `runs_by_suite` agrees with the claimants among the runs indexed so far. */
  ghost predicate Indexed(runs: seq<RunRecord>, index: map<int, RunRecord>) {
    && (forall r :: r in runs && Claims(r, r.suite) ==> r.suite.value in index)
    && (forall k :: k in index ==> Claimants(runs, Some(k)) == [index[k]])
    && 0 !in index
  }

  lemma IndexedMisses(runs: seq<RunRecord>, index: map<int, RunRecord>, suite: Option<int>)
    requires Indexed(runs, index)
    ensures Claimants(runs, suite) == if suite.Some? && suite.value in index then [index[suite.value]] else []
  {
    if !(suite.Some? && suite.value in index) {
      FilterNone(runs, (r: RunRecord) => Claims(r, suite));
    }
  }

  lemma ClaimantsGrow(runs: seq<RunRecord>, r: RunRecord, suite: Option<int>)
    ensures Claimants(runs + [r], suite) == Claimants(runs, suite) + if Claims(r, suite) then [r] else []
  {
    FilterAppend(runs, [r], (x: RunRecord) => Claims(x, suite));
    assert [r][1..] == [];
  }

  lemma IndexNothing(runs: seq<RunRecord>)
    ensures Indexed(runs[..0], map[])
  {}

  lemma IndexStep(runs: seq<RunRecord>, r: RunRecord, index: map<int, RunRecord>)
    requires Indexed(runs, index)
    ensures !Claims(r, r.suite) ==> Indexed(runs + [r], index)
    ensures Claims(r, r.suite) && r.suite.value !in index ==> Indexed(runs + [r], index[r.suite.value := r])
    ensures Claims(r, r.suite) && r.suite.value in index ==> |Claimants(runs + [r], r.suite)| == 2
  {
    hide Claimants;
    IndexedMisses(runs, index, r.suite);
    ClaimantsGrow(runs, r, r.suite);
    forall k | k in index ensures Claimants(runs + [r], Some(k)) == [index[k]] + if r.suite == Some(k) then [r] else [] {
      ClaimantsGrow(runs, r, Some(k));
    }
  }

  lemma ContestedPrefix(runs: seq<RunRecord>, i: nat)
    requires 0 < i <= |runs| && |Claimants(runs[..i], runs[i - 1].suite)| > 1
    ensures Contested(runs)
  {
    assert runs == runs[..i] + runs[i..];
    FilterAppend(runs[..i], runs[i..], (x: RunRecord) => Claims(x, runs[i - 1].suite));
    assert runs[i - 1] in runs;
  }

  lemma IndexedUncontested(runs: seq<RunRecord>, index: map<int, RunRecord>)
    requires Indexed(runs, index)
    ensures !Contested(runs)
  {
    forall r | r in runs ensures |Claimants(runs, r.suite)| <= 1 { IndexedMisses(runs, index, r.suite); }
  }

  lemma ObservationsStep(t: Target, runs: seq<RunRecord>, checks: seq<CheckRecord>, i: nat)
    requires i < |checks|
    ensures Observations(t, runs, checks[..i + 1]) == Observations(t, runs, checks[..i]) + ObservedAs(t, runs, checks[i])
  {
    assert checks[..i + 1][..i] == checks[..i];
  }

  /** The first loop: `runs_by_suite`, or the refusal of a suite claimed twice. */
  method IndexRuns(runs: seq<RunRecord>) returns (o: Outcome<map<int, RunRecord>>)
    ensures o.Refused? <==> Contested(runs)
    ensures o.Resolved? ==> Indexed(runs, o.value)
  {
    hide Claimants, Indexed, Contested;
    var index: map<int, RunRecord> := map[];
    IndexNothing(runs);
    for i := 0 to |runs|
      invariant Indexed(runs[..i], index)
    {
      var run := runs[i];
      assert runs[..i + 1] == runs[..i] + [run];
      IndexStep(runs[..i], run, index);
      if run.suite.Some? && run.suite.value != 0 {
        if run.suite.value in index {
          ContestedPrefix(runs, i + 1);
          return Refused;
        }
        index := index[run.suite.value := run];
      }
    }
    assert runs[..|runs|] == runs;
    IndexedUncontested(runs, index);
    return Resolved(index);
  }

  lemma ClaimantIsOwner(runs: seq<RunRecord>, c: CheckRecord, index: map<int, RunRecord>)
    requires Indexed(runs, index)
    ensures forall r :: r in runs && Claims(r, c.suite) ==> c.suite.value in index && r == index[c.suite.value]
  {
    IndexedMisses(runs, index, c.suite);
    forall r | r in runs && Claims(r, c.suite) ensures c.suite.value in index && r == index[c.suite.value] {
      assert r in Claimants(runs, c.suite);
    }
  }

  lemma CheckStep(t: Target, runs: seq<RunRecord>, index: map<int, RunRecord>, checks: seq<CheckRecord>, i: nat)
    requires Indexed(runs, index) && i < |checks|
    ensures var suite := checks[i].suite;
      && ObservedAs(t, runs, checks[i])
        == (if suite.Some? && suite.value in index && Usable(checks[i], index[suite.value]) then [Observe(t, checks[i], index[suite.value])] else [])
      && (Unusable(runs, checks[..i + 1]) <==>
        Unusable(runs, checks[..i]) || (suite.Some? && suite.value in index && !Usable(checks[i], index[suite.value])))
  {
    var check := checks[i];
    IndexedMisses(runs, index, check.suite);
    ClaimantIsOwner(runs, check, index);
    assert checks[..i + 1] == checks[..i] + [check];
    hide Claims, Usable, SameSuite, Lacking, Makes, Indexed, Observe;
    forall r ensures Claims(r, check.suite) <==> SameSuite(check, r) ensures Usable(check, r) <==> !Lacking(check, r) { PairIff(t, check, r); }
    if check.suite.Some? && check.suite.value in index {
      assert index[check.suite.value] in Claimants(runs, check.suite);
    }
  }

  lemma UnusablePrefix(runs: seq<RunRecord>, checks: seq<CheckRecord>, i: nat)
    requires i <= |checks| && Unusable(runs, checks[..i])
    ensures Unusable(runs, checks)
  {}

  lemma UnusableNothing(runs: seq<RunRecord>)
    ensures !Unusable(runs, [])
  {}

  /** `build_snapshot_document`: refuse a suite claimed twice and an attributed check with a field
      missing, drop checks no run claims, and observe the rest in order. */
  method BuildObservations(t: Target, runs: seq<RunRecord>, checks: seq<CheckRecord>) returns (o: Outcome<seq<Observation>>)
    ensures o.Refused? <==> SuiteTwice(runs) || Unusable(runs, checks)
    ensures o.Resolved? ==> o.value == Observations(t, runs, checks)
  {
    ContestedIff(runs);
    hide Claimants, Indexed, Contested, Unusable, ObservedAs, Observe;
    var indexed := IndexRuns(runs);
    if indexed.Refused? {
      return Refused;
    }
    var index := indexed.value;
    var observed := [];
    UnusableNothing(runs);
    for i := 0 to |checks|
      invariant observed == Observations(t, runs, checks[..i])
      invariant !Unusable(runs, checks[..i])
    {
      var check := checks[i];
      ObservationsStep(t, runs, checks, i);
      CheckStep(t, runs, index, checks, i);
      if check.suite.Some? && check.suite.value in index {
        var run := index[check.suite.value];
        if !Usable(check, run) {
          UnusablePrefix(runs, checks, i + 1);
          return Refused;
        }
        observed := observed + [Observe(t, check, run)];
      }
    }
    assert checks[..|checks|] == checks;
    return Resolved(observed);
  }

  // ---- Attribution ---------------------------------------------------------------------------------

  lemma {:induction false} ObservationFrom(t: Target, runs: seq<RunRecord>, checks: seq<CheckRecord>, o: Observation)
    ensures o in Observations(t, runs, checks) <==> exists c :: c in checks && o in ObservedAs(t, runs, c)
  {
    if checks != [] {
      var n := |checks| - 1;
      ObservationFrom(t, runs, checks[..n], o);
      assert checks == checks[..n] + [checks[n]];
    }
  }

  lemma SoleOwner(runs: seq<RunRecord>, c: CheckRecord, r: RunRecord)
    requires !Contested(runs) && r in runs && Claims(r, c.suite)
    ensures Claimants(runs, c.suite) == [r]
  {
    assert r in Claimants(runs, c.suite) && |Claimants(runs, r.suite)| <= 1;
  }

  lemma MakesPair(t: Target, c: CheckRecord, r: RunRecord, o: Observation)
    requires Makes(t, c, r, o)
    ensures Claims(r, c.suite) && Usable(c, r)
  {}

  /** An observation is in the snapshot exactly when some check run and some workflow run of its suite make
      it: no attribution is lost and none is invented. */
  lemma AttributionIff(t: Target, runs: seq<RunRecord>, checks: seq<CheckRecord>, o: Observation)
    requires !SuiteTwice(runs) && !Unusable(runs, checks)
    ensures o in Observations(t, runs, checks) <==> exists c, r :: c in checks && r in runs && Makes(t, c, r, o)
  {
    hide Observations, Contested, SuiteTwice, Observe, Makes, Lacking;
    ContestedIff(runs);
    ObservationFrom(t, runs, checks, o);
    forall c: CheckRecord, r: RunRecord ensures Usable(c, r) ==> (Claims(r, c.suite) && o == Observe(t, c, r) <==> Makes(t, c, r, o))
      ensures Claims(r, c.suite) <==> SameSuite(c, r) ensures Usable(c, r) <==> !Lacking(c, r)
    {
      PairIff(t, c, r);
    }
    hide Claims, Usable, SameSuite;
    if c :| c in checks && o in ObservedAs(t, runs, c) {
      var r := Claimants(runs, c.suite)[0];
      assert r in Claimants(runs, c.suite);
      assert Makes(t, c, r, o);
    }
    if c, r :| c in checks && r in runs && Makes(t, c, r, o) {
      MakesPair(t, c, r, o);
      SoleOwner(runs, c, r);
      assert o in ObservedAs(t, runs, c);
    }
  }

  // ---- Order ---------------------------------------------------------------------------------------

  lemma {:induction false} ObservationsAppend(t: Target, runs: seq<RunRecord>, a: seq<CheckRecord>, b: seq<CheckRecord>)
    ensures Observations(t, runs, a + b) == Observations(t, runs, a) + Observations(t, runs, b)
  {
    hide ObservedAs;
    if b == [] {
      assert a + b == a;
    } else {
      var n := |b| - 1;
      ObservationsAppend(t, runs, a, b[..n]);
      assert (a + b)[..|a + b| - 1] == a + b[..n];
    }
  }

  lemma ObservationsWithout(t: Target, runs: seq<RunRecord>, b: seq<CheckRecord>, j: nat)
    requires j < |b|
    ensures multiset(Observations(t, runs, b))
      == multiset(Observations(t, runs, b[..j] + b[j + 1..])) + multiset(ObservedAs(t, runs, b[j]))
  {
    hide ObservedAs;
    var one := [b[j]];
    assert b == b[..j] + one + b[j + 1..];
    ObservationsAppend(t, runs, b[..j] + one, b[j + 1..]);
    ObservationsAppend(t, runs, b[..j], one);
    ObservationsAppend(t, runs, b[..j], b[j + 1..]);
    assert one[..0] == [] && Observations(t, runs, one) == ObservedAs(t, runs, b[j]);
  }

  lemma WithoutOne<T>(b: seq<T>, j: nat)
    requires j < |b|
    ensures multiset(b[..j] + b[j + 1..]) == multiset(b) - multiset{b[j]}
  {
    assert b == b[..j] + [b[j]] + b[j + 1..];
  }

  lemma {:induction false} ChecksReordered(t: Target, runs: seq<RunRecord>, a: seq<CheckRecord>, b: seq<CheckRecord>)
    requires multiset(a) == multiset(b)
    ensures multiset(Observations(t, runs, a)) == multiset(Observations(t, runs, b))
    decreases |a|
  {
    assert |a| == |multiset(a)| == |multiset(b)| == |b|;
    if a != [] {
      var n := |a| - 1;
      assert a == a[..n] + [a[n]] && a[n] in multiset(b);
      var j :| 0 <= j < |b| && b[j] == a[n];
      var rest := b[..j] + b[j + 1..];
      WithoutOne(b, j);
      assert multiset(a[..n]) == multiset(a) - multiset{a[n]} == multiset(rest);
      ChecksReordered(t, runs, a[..n], rest);
      ObservationsWithout(t, runs, b, j);
    }
  }

  lemma {:induction false} RunsReordered(t: Target, runs: seq<RunRecord>, other: seq<RunRecord>, checks: seq<CheckRecord>)
    requires multiset(runs) == multiset(other) && !Contested(runs)
    ensures Observations(t, runs, checks) == Observations(t, other, checks)
  {
    if checks != [] {
      var n := |checks| - 1;
      RunsReordered(t, runs, other, checks[..n]);
      var suite := checks[n].suite;
      FilterReordered(runs, other, (r: RunRecord) => Claims(r, suite));
      if Claimants(runs, suite) != [] {
        var r := Claimants(runs, suite)[0];
        assert r in Claimants(runs, suite);
        SoleOwner(runs, checks[n], r);
      }
    }
  }

  lemma ContestedReordered(runs: seq<RunRecord>, other: seq<RunRecord>)
    requires multiset(runs) == multiset(other) && Contested(runs)
    ensures Contested(other)
  {
    var r :| r in runs && |Claimants(runs, r.suite)| > 1;
    FilterReordered(runs, other, (x: RunRecord) => Claims(x, r.suite));
    assert r in multiset(other);
  }

  lemma UnusableReordered(runs: seq<RunRecord>, other: seq<RunRecord>, checks: seq<CheckRecord>, others: seq<CheckRecord>)
    requires multiset(runs) == multiset(other) && multiset(checks) == multiset(others) && Unusable(runs, checks)
    ensures Unusable(other, others)
  {
    var c, r :| c in checks && r in runs && SameSuite(c, r) && Lacking(c, r);
    assert c in multiset(others) && r in multiset(other);
  }

  // ---- Main results ----------------------------------------------------------------------------------

  /** From payload to verdict: however the two listings are ordered, the snapshot is refused alike, and
      selection picks the same record or refuses for the same reason. */
  lemma PayloadOrderIrrelevant(t: Target, runs: seq<RunRecord>, other: seq<RunRecord>,
                               checks: seq<CheckRecord>, others: seq<CheckRecord>, scope: Scope)
    requires multiset(runs) == multiset(other) && multiset(checks) == multiset(others)
    ensures SuiteTwice(runs) || Unusable(runs, checks) <==> SuiteTwice(other) || Unusable(other, others)
    ensures !SuiteTwice(runs) ==> Select(Observations(t, runs, checks), scope) == Select(Observations(t, other, others), scope)
  {
    ContestedIff(runs);
    ContestedIff(other);
    if Contested(runs) { ContestedReordered(runs, other); }
    if Contested(other) { ContestedReordered(other, runs); }
    if Unusable(runs, checks) { UnusableReordered(runs, other, checks, others); }
    if Unusable(other, others) { UnusableReordered(other, runs, others, checks); }
    if !Contested(runs) {
      RunsReordered(t, runs, other, checks);
      ChecksReordered(t, other, checks, others);
      OrderIndependent(Observations(t, runs, checks), Observations(t, other, others), scope);
    }
  }

  /** `i` is the winner and `k` gives its run the latest start. */
  ghost predicate Leads(os: seq<Observation>, scope: Scope, i: nat, k: nat) {
    && i < |os| && k < |os| && os[k].workflowRunId == os[i].workflowRunId
    && forall j :: 0 <= j < |os| && InScope(os[j], scope) ==>
      if os[j].workflowRunId == os[i].workflowRunId then j == i || os[j].runAttempt < os[i].runAttempt
      else os[j].runStartedAt < os[k].runStartedAt
  }

  lemma GreenLeads(os: seq<Observation>, scope: Scope) returns (i: nat, k: nat)
    requires Verdict(os, scope) == Some(true)
    ensures i < |os| && k < |os| && Leads(os, scope, i, k) && InScope(os[i], scope) && Conclusive(os[i], true)
    ensures os[k].workflowRunId == os[i].workflowRunId
  {
    hide Verdict, MatchesProducer;
    VerdictIff(os, scope, true);
    i :| WinsAt(os, scope, i) && Conclusive(os[i], true);
    var run := os[i].workflowRunId;
    k :| StartsLast(os, scope, run, k);
  }

  lemma Led(os: seq<Observation>, scope: Scope, i: nat, k: nat, o: Observation)
    requires i < |os| && k < |os| && Leads(os, scope, i, k) && o in os && InScope(o, scope)
    ensures if o.workflowRunId == os[i].workflowRunId then o.runAttempt < os[i].runAttempt || o == os[i]
      else o.runStartedAt < os[k].runStartedAt
  {
    var j :| 0 <= j < |os| && os[j] == o;
  }

  lemma Attributed(t: Target, runs: seq<RunRecord>, checks: seq<CheckRecord>, o: Observation)
    returns (c: CheckRecord, r: RunRecord)
    requires !SuiteTwice(runs) && !Unusable(runs, checks) && o in Observations(t, runs, checks)
    ensures c in checks && r in runs && Makes(t, c, r, o)
  {
    hide Makes, SuiteTwice, Unusable, Observations;
    AttributionIff(t, runs, checks, o);
    c, r :| c in checks && r in runs && Makes(t, c, r, o);
  }

  lemma SoleOfSuite(runs: seq<RunRecord>, r: RunRecord, other: RunRecord)
    requires !SuiteTwice(runs) && r in runs && other in runs && r.suite.Some? && r.suite.value != 0 && other.suite == r.suite
    ensures other == r
  {
    var i :| 0 <= i < |runs| && runs[i] == r;
    var j :| 0 <= j < |runs| && runs[j] == other;
  }

  /** A green verdict is grounded: some listed check run with the required job's name completed with
      success in a run of the required workflow that alone has its suite. Every other check run that could
      speak for the job belongs to the same run at an earlier attempt, or to another run that started
      before a check run of that run, `latest` in `last`. */
  lemma GreenIsGrounded(t: Target, runs: seq<RunRecord>, checks: seq<CheckRecord>, scope: Scope)
    returns (o: Observation, c: CheckRecord, r: RunRecord, latest: CheckRecord, last: RunRecord)
    requires !SuiteTwice(runs) && !Unusable(runs, checks)
    requires Verdict(Observations(t, runs, checks), scope) == Some(true)
    ensures c in checks && r in runs && Makes(t, c, r, o) && forall other :: other in runs && other.suite == c.suite ==> other == r
    ensures c.name == scope.entry.jobName && r.path == scope.entry.workflowPath && c.app == scope.entry.verifierIdentity
    ensures c.status == "completed" && c.conclusion == Some("success")
    ensures latest in checks && last in runs && SameSuite(latest, last) && !Lacking(latest, last) && last.id == r.id
    ensures forall d, q, rival :: d in checks && q in runs && Makes(t, d, q, rival) && InScope(rival, scope) ==>
      if q.id == r.id then q.attempt.value < r.attempt.value || rival == o
      else q.startedAt.value < last.startedAt.value
  {
    hide Observations, SuiteTwice, Unusable, Verdict, Leads;
    var os := Observations(t, runs, checks);
    var i, k := GreenLeads(os, scope);
    o := os[i];
    c, r := Attributed(t, runs, checks, o);
    latest, last := Attributed(t, runs, checks, os[k]);
    forall other | other in runs && other.suite == c.suite ensures other == r { SoleOfSuite(runs, r, other); }
    forall d, q, rival | d in checks && q in runs && Makes(t, d, q, rival) && InScope(rival, scope)
      ensures if q.id == r.id then q.attempt.value < r.attempt.value || rival == o
        else q.startedAt.value < last.startedAt.value
    {
      AttributionIff(t, runs, checks, rival);
      Led(os, scope, i, k, rival);
    }
  }
}
