/** Which observed check run may speak for a required check. The code filters, takes two maxima and
    refuses ties; `WinsAt` says which record that is without any of those steps. */
module CiSelection {
  import opened Outcomes

  /** Run start times are any totally ordered domain; no link to wall-clock order is claimed. */
  datatype Observation = Observation(
    repository: string, headSha: string, checkRunId: string, checkRunName: string, workflowPath: string,
    appSlug: string, workflowRunId: string, runAttempt: int, runStartedAt: int,
    status: string, conclusion: Option<string>)

  datatype PolicyEntry = PolicyEntry(jobName: string, workflowPath: string, verifierIdentity: string)
  datatype Scope = Scope(entry: PolicyEntry, repository: string, headSha: string)
  datatype Reason = Missing | Stale | Ambiguous
  datatype Selection = Chosen(observation: Observation) | Rejected(reason: Reason)

  /** `_matches_producer` */
  predicate MatchesProducer(o: Observation, entry: PolicyEntry) {
    o.checkRunName == entry.jobName && o.workflowPath == entry.workflowPath && o.appSlug == entry.verifierIdentity
  }

  /** `o` may speak for the required job: right job, workflow and verifier, for this head of this repository. */
  predicate InScope(o: Observation, scope: Scope) {
    && o.checkRunName == scope.entry.jobName && o.workflowPath == scope.entry.workflowPath
    && o.appSlug == scope.entry.verifierIdentity && o.repository == scope.repository && o.headSha == scope.headSha
  }

  /** The same for some head of the repository. */
  predicate SomeHead(o: Observation, scope: Scope) {
    && o.checkRunName == scope.entry.jobName && o.workflowPath == scope.entry.workflowPath
    && o.appSlug == scope.entry.verifierIdentity && o.repository == scope.repository
  }

  function LatestStart(s: seq<Observation>): (m: int)
    requires s != []
    ensures forall o :: o in s ==> o.runStartedAt <= m
    ensures exists o :: o in s && o.runStartedAt == m
  {
    if |s| == 1 then s[0].runStartedAt
    else
      var rest := LatestStart(s[1..]);
      assert forall o :: o in s ==> o == s[0] || o in s[1..];
      if s[0].runStartedAt >= rest then s[0].runStartedAt else rest
  }

  function LatestAttempt(s: seq<Observation>): (m: int)
    requires s != []
    ensures forall o :: o in s ==> o.runAttempt <= m
    ensures exists o :: o in s && o.runAttempt == m
  {
    if |s| == 1 then s[0].runAttempt
    else
      var rest := LatestAttempt(s[1..]);
      assert forall o :: o in s ==> o == s[0] || o in s[1..];
      if s[0].runAttempt >= rest then s[0].runAttempt else rest
  }

  function RunIds(s: seq<Observation>): set<string> {
    set o | o in s :: o.workflowRunId
  }

  function Latest(scoped: seq<Observation>): (r: seq<Observation>)
    requires scoped != []
    ensures r != []
  {
    var start := LatestStart(scoped);
    Filter(scoped, (o: Observation) => o.runStartedAt == start)
  }

  /** `select_observation_v2` */
  function Select(observations: seq<Observation>, scope: Scope): Selection {
    var matches := Filter(observations, (o: Observation) => MatchesProducer(o, scope.entry));
    if matches == [] then Rejected(Missing)
    else
      var scoped := Filter(matches, (o: Observation) => o.repository == scope.repository && o.headSha == scope.headSha);
      if scoped == [] then
        if exists o :: o in matches && o.repository == scope.repository then Rejected(Stale) else Rejected(Missing)
      else
        var latest := Latest(scoped);
        if |RunIds(latest)| != 1 then Rejected(Ambiguous)
        else
          var run := latest[0].workflowRunId;
          assert latest[0] in latest;
          var withinRun := Filter(scoped, (o: Observation) => o.workflowRunId == run);
          var attempt := LatestAttempt(withinRun);
          var finalists := Filter(withinRun, (o: Observation) => o.runAttempt == attempt);
          if |finalists| != 1 then Rejected(Ambiguous) else Chosen(finalists[0])
  }

  /** `resolve_conclusion_v2`: `None` is its refusal. */
  function ResolveConclusion(o: Observation): Option<bool> {
    if o.status != "completed" || o.conclusion.None? then None
    else if o.conclusion.value == "success" then Some(true)
    else if o.conclusion.value == "failure" then Some(false)
    else None
  }

  /** Selection followed by resolution: the verdict a required check gets, if any. */
  function Verdict(observations: seq<Observation>, scope: Scope): Option<bool> {
    match Select(observations, scope)
    case Chosen(o) => ResolveConclusion(o)
    case Rejected(_) => None
  }

  // ---- The winner, declaratively ---------------------------------------------------------------

  /** `k` gives `run` the latest start, and every observation in scope that starts then is of `run`. */
  ghost predicate StartsLast(s: seq<Observation>, scope: Scope, run: string, k: int) {
    && 0 <= k < |s| && InScope(s[k], scope) && s[k].workflowRunId == run
    && forall j :: 0 <= j < |s| && InScope(s[j], scope) ==>
      s[j].runStartedAt < s[k].runStartedAt || (s[j].runStartedAt == s[k].runStartedAt && s[j].workflowRunId == run)
  }

  /** The run of `s[i]` is the only one holding the latest start in scope. */
  ghost predicate SoleLatestRun(s: seq<Observation>, scope: Scope, run: string) {
    exists k :: StartsLast(s, scope, run, k)
  }

  /** Position `i` holds the sole highest attempt of that run. */
  ghost predicate WinsAt(s: seq<Observation>, scope: Scope, i: nat) {
    && i < |s| && InScope(s[i], scope)
    && SoleLatestRun(s, scope, s[i].workflowRunId)
    && forall j :: 0 <= j < |s| && j != i && InScope(s[j], scope) && s[j].workflowRunId == s[i].workflowRunId ==>
      s[j].runAttempt < s[i].runAttempt
  }

  // ---- Filters in one step ------------------------------------------------------------------------

  function Scoped(s: seq<Observation>, scope: Scope): seq<Observation> {
    Filter(s, (o: Observation) => InScope(o, scope))
  }

  lemma ScopedInSteps(s: seq<Observation>, scope: Scope)
    ensures Filter(Filter(s, (o: Observation) => MatchesProducer(o, scope.entry)),
      (o: Observation) => o.repository == scope.repository && o.headSha == scope.headSha) == Scoped(s, scope)
  {
    FilterTwice(s, (o: Observation) => MatchesProducer(o, scope.entry),
      (o: Observation) => o.repository == scope.repository && o.headSha == scope.headSha,
      (o: Observation) => InScope(o, scope));
  }

  /** The finalists as one filter over all the evidence. */
  lemma FinalistsDirect(s: seq<Observation>, scope: Scope, run: string, attempt: int)
    ensures Filter(Filter(Scoped(s, scope), (o: Observation) => o.workflowRunId == run), (o: Observation) => o.runAttempt == attempt)
      == Filter(s, (o: Observation) => InScope(o, scope) && o.workflowRunId == run && o.runAttempt == attempt)
  {
    FilterTwice(s, (o: Observation) => InScope(o, scope), (o: Observation) => o.workflowRunId == run,
      (o: Observation) => InScope(o, scope) && o.workflowRunId == run);
    FilterTwice(s, (o: Observation) => InScope(o, scope) && o.workflowRunId == run, (o: Observation) => o.runAttempt == attempt,
      (o: Observation) => InScope(o, scope) && o.workflowRunId == run && o.runAttempt == attempt);
  }

  lemma Singleton(ids: set<string>, x: string)
    requires |ids| == 1 && x in ids
    ensures ids == {x}
  {
    assert |ids - {x}| == 0;
    assert ids == (ids - {x}) + {x};
  }

  lemma SoleRunId(s: seq<Observation>, run: string)
    requires s != []
    ensures |RunIds(s)| == 1 && s[0].workflowRunId == run <==> forall o :: o in s ==> o.workflowRunId == run
  {
    assert s[0] in s;
    if forall o :: o in s ==> o.workflowRunId == run {
      assert RunIds(s) == {run};
    }
    if |RunIds(s)| == 1 && s[0].workflowRunId == run {
      Singleton(RunIds(s), run);
      forall o | o in s ensures o.workflowRunId == run { assert o.workflowRunId in RunIds(s); }
    }
  }

  lemma ScopedAt(s: seq<Observation>, scope: Scope, o: Observation)
    ensures o in Scoped(s, scope) <==> exists j :: 0 <= j < |s| && s[j] == o && InScope(o, scope)
  {}

  lemma LatestMembers(s: seq<Observation>, o: Observation)
    requires s != []
    ensures o in Latest(s) <==> o in s && o.runStartedAt == LatestStart(s)
  {}

  lemma SoleRunIsLatest(s: seq<Observation>, scope: Scope, run: string, o: Observation)
    requires Scoped(s, scope) != [] && SoleLatestRun(s, scope, run) && o in Latest(Scoped(s, scope))
    ensures o.workflowRunId == run
  {
    hide Filter, Latest, RunIds, InScope, Scoped, LatestStart;
    var scoped := Scoped(s, scope);
    var k :| StartsLast(s, scope, run, k);
    ScopedAt(s, scope, s[k]);
    LatestMembers(scoped, o);
    ScopedAt(s, scope, o);
    assert s[k].runStartedAt <= LatestStart(scoped);
  }

  lemma LatestIsSoleRun(s: seq<Observation>, scope: Scope, run: string)
    requires Scoped(s, scope) != [] && forall o :: o in Latest(Scoped(s, scope)) ==> o.workflowRunId == run
    ensures SoleLatestRun(s, scope, run)
  {
    hide Filter, Latest, RunIds, InScope, Scoped, LatestStart;
    var scoped := Scoped(s, scope);
    var top := Latest(scoped)[0];
    assert top in Latest(scoped);
    LatestMembers(scoped, top);
    ScopedAt(s, scope, top);
    var k :| 0 <= k < |s| && s[k] == top && InScope(top, scope);
    forall j | 0 <= j < |s| && InScope(s[j], scope)
      ensures s[j].runStartedAt < s[k].runStartedAt || (s[j].runStartedAt == s[k].runStartedAt && s[j].workflowRunId == run)
    {
      ScopedAt(s, scope, s[j]);
      LatestMembers(scoped, s[j]);
      assert s[j].runStartedAt <= LatestStart(scoped);
    }
    assert StartsLast(s, scope, run, k);
  }

  /** The set-of-run-ids test is exactly "one run holds the latest start". */
  lemma LatestRunIff(s: seq<Observation>, scope: Scope, run: string)
    requires Scoped(s, scope) != []
    ensures (|RunIds(Latest(Scoped(s, scope)))| == 1 && Latest(Scoped(s, scope))[0].workflowRunId == run)
      <==> SoleLatestRun(s, scope, run)
  {
    hide Filter, Latest, RunIds, InScope, Scoped, SoleLatestRun;
    var latest := Latest(Scoped(s, scope));
    SoleRunId(latest, run);
    if SoleLatestRun(s, scope, run) {
      forall o | o in latest ensures o.workflowRunId == run { SoleRunIsLatest(s, scope, run, o); }
    }
    if forall o :: o in latest ==> o.workflowRunId == run { LatestIsSoleRun(s, scope, run); }
  }

  lemma SelectScoped(s: seq<Observation>, scope: Scope)
    requires Scoped(s, scope) != []
    ensures Select(s, scope) ==
      var latest := Latest(Scoped(s, scope));
      if |RunIds(latest)| != 1 then Rejected(Ambiguous)
      else
        var run := latest[0].workflowRunId;
        var withinRun := Filter(Scoped(s, scope), (o: Observation) => o.workflowRunId == run);
        assert latest[0] in latest;
        var attempt := LatestAttempt(withinRun);
        var finalists := Filter(withinRun, (o: Observation) => o.runAttempt == attempt);
        if |finalists| != 1 then Rejected(Ambiguous) else Chosen(finalists[0])
  {
    ScopedInSteps(s, scope);
    assert Scoped(s, scope)[0] in Scoped(s, scope);
  }

  // ---- Main results -----------------------------------------------------------------------------

  lemma AttemptBound(s: seq<Observation>, scope: Scope, run: string, withinRun: seq<Observation>, i: nat)
    requires withinRun == Filter(Scoped(s, scope), (o: Observation) => o.workflowRunId == run) && withinRun != [] && i < |s|
    requires s[i].runAttempt == LatestAttempt(withinRun)
    requires forall j :: (0 <= j < |s| && InScope(s[j], scope) && s[j].workflowRunId == run
      && s[j].runAttempt == LatestAttempt(withinRun)) ==> j == i
    ensures forall j :: 0 <= j < |s| && j != i && InScope(s[j], scope) && s[j].workflowRunId == run ==>
      s[j].runAttempt < s[i].runAttempt
  {
    hide InScope, Scoped;
    forall j | 0 <= j < |s| && j != i && InScope(s[j], scope) && s[j].workflowRunId == run
      ensures s[j].runAttempt < s[i].runAttempt
    {
      ScopedAt(s, scope, s[j]);
      assert s[j] in withinRun;
    }
  }

  lemma ChosenScoped(s: seq<Observation>, scope: Scope)
    requires Select(s, scope).Chosen?
    ensures Scoped(s, scope) != []
  {
    ScopedInSteps(s, scope);
  }

  lemma ChosenWins(s: seq<Observation>, scope: Scope) returns (i: nat)
    requires Select(s, scope).Chosen?
    ensures WinsAt(s, scope, i) && Select(s, scope) == Chosen(s[i])
  {
    ChosenScoped(s, scope);
    SelectScoped(s, scope);
    var scoped := Scoped(s, scope);
    var latest := Latest(scoped);
    var run := latest[0].workflowRunId;
    assert latest[0] in latest;
    LatestRunIff(s, scope, run);
    var withinRun := Filter(scoped, (o: Observation) => o.workflowRunId == run);
    var attempt := LatestAttempt(withinRun);
    FinalistsDirect(s, scope, run, attempt);
    i := FilterSole(s, (o: Observation) => InScope(o, scope) && o.workflowRunId == run && o.runAttempt == attempt);
    AttemptBound(s, scope, run, withinRun, i);
  }

  lemma WinnerAttempt(s: seq<Observation>, scope: Scope, i: nat)
    requires WinsAt(s, scope, i)
    ensures var withinRun := Filter(Scoped(s, scope), (o: Observation) => o.workflowRunId == s[i].workflowRunId);
      withinRun != [] && LatestAttempt(withinRun) == s[i].runAttempt
  {
    hide InScope, SoleLatestRun;
    var withinRun := Filter(Scoped(s, scope), (o: Observation) => o.workflowRunId == s[i].workflowRunId);
    ScopedAt(s, scope, s[i]);
    assert s[i] in withinRun;
    forall o | o in withinRun ensures o.runAttempt <= s[i].runAttempt {
      ScopedAt(s, scope, o);
      var j :| 0 <= j < |s| && s[j] == o;
    }
  }

  lemma WinnerChosen(s: seq<Observation>, scope: Scope, i: nat)
    requires WinsAt(s, scope, i)
    ensures Select(s, scope) == Chosen(s[i])
  {
    hide InScope, SoleLatestRun, Latest, LatestAttempt, RunIds, Select, Filter;
    var run := s[i].workflowRunId;
    ScopedAt(s, scope, s[i]);
    SelectScoped(s, scope);
    LatestRunIff(s, scope, run);
    WinnerAttempt(s, scope, i);
    var attempt := s[i].runAttempt;
    FinalistsDirect(s, scope, run, attempt);
    SoleFilter(s, (o: Observation) => InScope(o, scope) && o.workflowRunId == run && o.runAttempt == attempt, i);
  }

  /** The code chooses a record exactly when one position holds the sole highest attempt of the sole
      run with the latest start. */
  lemma SelectIff(s: seq<Observation>, scope: Scope, w: Observation)
    ensures Select(s, scope) == Chosen(w) <==> exists i: nat :: WinsAt(s, scope, i) && s[i] == w
  {
    if Select(s, scope).Chosen? { var i := ChosenWins(s, scope); }
    if i: nat :| WinsAt(s, scope, i) && s[i] == w { WinnerChosen(s, scope, i); }
  }

  /** Why it refuses: no evidence for the repository, evidence for another head only, or a tie. */
  lemma RejectedIff(s: seq<Observation>, scope: Scope)
    ensures Select(s, scope) == Rejected(Missing) <==>
      forall o :: o in s ==> !SomeHead(o, scope)
    ensures Select(s, scope) == Rejected(Stale) <==>
      (forall o :: o in s ==> !InScope(o, scope)) && exists o :: o in s && SomeHead(o, scope)
    ensures Select(s, scope) == Rejected(Ambiguous) <==>
      (exists o :: o in s && InScope(o, scope)) && forall i: nat :: !WinsAt(s, scope, i)
  {
    ScopedInSteps(s, scope);
    if Scoped(s, scope) != [] {
      SelectScoped(s, scope);
      assert Scoped(s, scope)[0] in Scoped(s, scope);
    }
    if Select(s, scope).Chosen? { var i := ChosenWins(s, scope); }
    if i: nat :| WinsAt(s, scope, i) { WinnerChosen(s, scope, i); }
  }

  lemma {:induction false} CopiesTwo(s: seq<Observation>, w: Observation, i: nat) returns (j: nat)
    requires multiset(s)[w] >= 2 && i < |s| && s[i] == w
    ensures j < |s| && j != i && s[j] == w
  {
    assert s == s[..i] + [s[i]] + s[i + 1..];
    if w in s[..i] {
      j :| 0 <= j < i && s[..i][j] == w;
    } else {
      assert w in s[i + 1..];
      var k :| 0 <= k < |s[i + 1..]| && s[i + 1..][k] == w;
      j := i + 1 + k;
    }
  }

  lemma WinnerSurvivesReorder(a: seq<Observation>, b: seq<Observation>, scope: Scope, i: nat) returns (i': nat)
    requires multiset(a) == multiset(b) && WinsAt(a, scope, i)
    ensures WinsAt(b, scope, i') && b[i'] == a[i]
  {
    assert a[i] in multiset(b);
    i' :| 0 <= i' < |b| && b[i'] == a[i];
    forall j | 0 <= j < |b| ensures b[j] in a { assert b[j] in multiset(a); }
    forall k | 0 <= k < |a| ensures a[k] in b { assert a[k] in multiset(b); }
    forall j | 0 <= j < |b| && j != i' && InScope(b[j], scope) && b[j].workflowRunId == b[i'].workflowRunId
      ensures b[j].runAttempt < b[i'].runAttempt
    {
      var k :| 0 <= k < |a| && a[k] == b[j];
      if k == i {
        TwoCopies(b, if j < i' then j else i', if j < i' then i' else j);
        var other := CopiesTwo(a, a[i], i);
      }
    }
    var k :| StartsLast(a, scope, a[i].workflowRunId, k);
    var k' :| 0 <= k' < |b| && b[k'] == a[k];
    forall j | 0 <= j < |b| && InScope(b[j], scope)
      ensures b[j].runStartedAt < b[k'].runStartedAt
        || (b[j].runStartedAt == b[k'].runStartedAt && b[j].workflowRunId == b[i'].workflowRunId)
    {
      var h :| 0 <= h < |a| && a[h] == b[j];
    }
    assert StartsLast(b, scope, b[i'].workflowRunId, k');
  }

  /** Reordering the evidence gives the same record or the same refusal. */
  lemma OrderIndependent(a: seq<Observation>, b: seq<Observation>, scope: Scope)
    requires multiset(a) == multiset(b)
    ensures Select(a, scope) == Select(b, scope)
  {
    forall o ensures o in a <==> o in b { assert o in multiset(a) <==> o in multiset(b); }
    if Select(a, scope).Chosen? {
      var i := ChosenWins(a, scope);
      var j := WinnerSurvivesReorder(a, b, scope, i);
      WinnerChosen(b, scope, j);
    } else if Select(b, scope).Chosen? {
      var i := ChosenWins(b, scope);
      var j := WinnerSurvivesReorder(b, a, scope, i);
      WinnerChosen(a, scope, j);
    } else {
      RejectedIff(a, scope);
      RejectedIff(b, scope);
    }
  }

  predicate SameButVerdict(a: Observation, b: Observation) {
    a == b.(status := a.status, conclusion := a.conclusion)
  }

  predicate SameButVerdicts(a: seq<Observation>, b: seq<Observation>) {
    |a| == |b| && forall k :: 0 <= k < |a| ==> SameButVerdict(a[k], b[k])
  }

  lemma WinnerIgnoresVerdict(a: seq<Observation>, b: seq<Observation>, scope: Scope, i: nat)
    requires SameButVerdicts(a, b)
    requires WinsAt(a, scope, i)
    ensures WinsAt(b, scope, i)
  {
    var run := a[i].workflowRunId;
    var k :| StartsLast(a, scope, run, k);
    assert SameButVerdict(a[i], b[i]) && SameButVerdict(a[k], b[k]);
    forall j | 0 <= j < |b| && InScope(b[j], scope)
      ensures b[j].runStartedAt < b[k].runStartedAt || (b[j].runStartedAt == b[k].runStartedAt && b[j].workflowRunId == run)
    {
      assert SameButVerdict(a[j], b[j]) && InScope(a[j], scope);
    }
    assert StartsLast(b, scope, b[i].workflowRunId, k);
    forall j | 0 <= j < |b| && j != i && InScope(b[j], scope) && b[j].workflowRunId == run
      ensures b[j].runAttempt < b[i].runAttempt
    {
      assert SameButVerdict(a[j], b[j]) && InScope(a[j], scope);
    }
  }

  lemma SameReason(a: seq<Observation>, b: seq<Observation>, scope: Scope)
    requires SameButVerdicts(a, b)
    ensures (exists o :: o in a && InScope(o, scope)) ==> exists o :: o in b && InScope(o, scope)
    ensures (exists o :: o in a && SomeHead(o, scope)) ==>
      exists o :: o in b && SomeHead(o, scope)
  {
    if o :| o in a && InScope(o, scope) {
      var k :| 0 <= k < |a| && a[k] == o;
      assert b[k] in b && InScope(b[k], scope);
    }
    if o :| o in a && SomeHead(o, scope) {
      var k :| 0 <= k < |a| && a[k] == o;
      assert b[k] in b && SomeHead(b[k], scope);
    }
  }

  lemma WinnerVerdictBlind(a: seq<Observation>, b: seq<Observation>, scope: Scope, i: nat)
    requires SameButVerdicts(a, b) && i < |a| == |b| && WinsAt(a, scope, i)
    ensures Select(a, scope) == Chosen(a[i]) && Select(b, scope) == Chosen(b[i])
  {
    hide *;
    WinnerIgnoresVerdict(a, b, scope, i);
    WinnerChosen(a, scope, i);
    WinnerChosen(b, scope, i);
  }

  lemma RefusalVerdictBlind(a: seq<Observation>, b: seq<Observation>, scope: Scope)
    requires SameButVerdicts(a, b) && SameButVerdicts(b, a)
    requires Select(a, scope).Rejected? && Select(b, scope).Rejected?
    ensures Select(a, scope) == Select(b, scope)
  {
    hide Select, WinsAt, SameButVerdicts, MatchesProducer;
    SameReason(a, b, scope);
    SameReason(b, a, scope);
    RejectedIff(a, scope);
    RejectedIff(b, scope);
    var why, other := Select(a, scope).reason, Select(b, scope).reason;
    assert Select(a, scope) == Rejected(why) && Select(b, scope) == Rejected(other);
    assert why == Missing || why == Stale || why == Ambiguous;
    assert other == Missing || other == Stale || other == Ambiguous;
  }

  /** Turning greens red, or reds green, never changes which record is chosen or why none is. */
  lemma VerdictBlind(a: seq<Observation>, b: seq<Observation>, scope: Scope)
    requires SameButVerdicts(a, b)
    ensures Select(a, scope).Rejected? || Select(b, scope).Rejected? ==> Select(a, scope) == Select(b, scope)
    ensures forall i: nat :: i < |a| && WinsAt(a, scope, i) ==> Select(a, scope) == Chosen(a[i]) && Select(b, scope) == Chosen(b[i])
  {
    hide Select, InScope, SoleLatestRun;
    assert SameButVerdicts(b, a);
    forall i: nat | i < |a| && WinsAt(a, scope, i) ensures Select(a, scope) == Chosen(a[i]) && Select(b, scope) == Chosen(b[i]) {
      WinnerVerdictBlind(a, b, scope, i);
    }
    if Select(a, scope).Chosen? {
      var i := ChosenWins(a, scope);
    } else if Select(b, scope).Chosen? {
      var i := ChosenWins(b, scope);
      WinnerVerdictBlind(b, a, scope, i);
    } else {
      RefusalVerdictBlind(a, b, scope);
    }
  }

  /** Evidence of other runs that started strictly earlier than the latest start of the winner's run,
      whatever its attempt number, cannot change a successful choice; nor can evidence out of scope. */
  lemma OlderRunsIgnored(s: seq<Observation>, extra: seq<Observation>, scope: Scope)
    requires Select(s, scope).Chosen?
    requires forall o :: o in extra && InScope(o, scope) ==>
      && o.workflowRunId != Select(s, scope).observation.workflowRunId
      && exists l :: l in s && InScope(l, scope) && o.runStartedAt < l.runStartedAt
    ensures Select(s + extra, scope) == Select(s, scope)
  {
    hide Select, MatchesProducer;
    var i := ChosenWins(s, scope);
    var all, run := s + extra, s[i].workflowRunId;
    var k :| StartsLast(s, scope, run, k);
    assert all[k] == s[k] && all[i] == s[i];
    forall j | 0 <= j < |all| && InScope(all[j], scope)
      ensures all[j].runStartedAt < all[k].runStartedAt || (all[j].runStartedAt == all[k].runStartedAt && all[j].workflowRunId == run)
    {
      if j >= |s| {
        assert all[j] == extra[j - |s|] && all[j] in extra;
        var l :| l in s && InScope(l, scope) && all[j].runStartedAt < l.runStartedAt;
        var h :| 0 <= h < |s| && s[h] == l;
      }
    }
    assert StartsLast(all, scope, run, k);
    assert forall j :: |s| <= j < |all| ==> all[j] == extra[j - |s|] && all[j] in extra;
    forall j | 0 <= j < |all| && j != i && InScope(all[j], scope) && all[j].workflowRunId == run
      ensures all[j].runAttempt < all[i].runAttempt
    {
      assert j < |s|;
    }
    WinnerChosen(all, scope, i);
  }

  predicate Conclusive(o: Observation, green: bool) {
    o.status == "completed" && o.conclusion == Some(if green then "success" else "failure")
  }

  /** A required check is green exactly when the winning record itself completed with success, and red
      exactly when it completed with failure: no other record, however green, can speak for it. */
  lemma VerdictIff(s: seq<Observation>, scope: Scope, green: bool)
    ensures Verdict(s, scope) == Some(green) <==> exists i: nat :: WinsAt(s, scope, i) && Conclusive(s[i], green)
  {
    hide Select, InScope, SoleLatestRun;
    if Select(s, scope).Chosen? { var i := ChosenWins(s, scope); }
    if i: nat :| WinsAt(s, scope, i) && Conclusive(s[i], green) { WinnerChosen(s, scope, i); }
  }
}
