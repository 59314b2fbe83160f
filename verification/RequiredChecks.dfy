/** The guard's required-check test. The collector ties each required check run to one job of the one
    canonical Actions run; the evaluator does not trust the tie and rechecks it. Together they accept
    exactly what `Attested` says about the raw listings. */
module RequiredChecks {
  import opened Outcomes

  datatype PullRef = PullRef(number: int, url: string, head: string, base: string)

  datatype Run = Run(
    id: int, workflowId: int, attempt: int, suite: int, repo: string, path: string, event: string, head: string,
    status: string, conclusion: Option<string>, pulls: seq<PullRef>)

  datatype Job = Job(
    id: int, name: string, runId: int, attempt: int, head: string, status: string, conclusion: Option<string>)

  /** A check run as listed; a suite that is no integer is `None`. */
  datatype CheckRun = CheckRun(
    id: int, name: string, head: string, status: string, conclusion: Option<string>, app: string, suite: Option<int>)

  datatype Tie = Tie(run: Run, job: Job)

  /** A check run as the evidence reports it. */
  datatype Check = Check(
    name: string, head: string, status: string, conclusion: Option<string>, app: string, runId: int,
    suite: Option<int>, tie: Option<Tie>)

  /** `suffix` is the URL tail of the subject's pull request. */
  datatype Subject = Subject(repo: string, pr: int, suffix: string, head: string, base: string, workflow: string)

  predicate EndsWith(s: string, suffix: string) {
    |suffix| <= |s| && s[|s| - |suffix|..] == suffix
  }

  predicate Green(status: string, conclusion: Option<string>) {
    status == "completed" && conclusion == Some("success")
  }

  /** The ids `_canonical_run_matches` insists on. */
  predicate WellFormed(run: Run) {
    run.id > 0 && run.workflowId > 0 && run.attempt > 0 && run.suite > 0 && forall p :: p in run.pulls ==> p.number > 0
  }

  /** `_canonical_run_matches` on a well-formed run. */
  predicate Canonical(run: Run, s: Subject) {
    && run.repo == s.repo && run.path == s.workflow && run.event == "pull_request" && run.head == s.head
    && |run.pulls| == 1 && run.pulls[0].number == s.pr && EndsWith(run.pulls[0].url, s.suffix)
    && run.pulls[0].head == s.head && run.pulls[0].base == s.base
  }

  predicate PositiveSuite(suite: Option<int>) {
    suite.Some? && suite.value > 0
  }

  // ---- The collector's side ------------------------------------------------------------------------

  /** `_job_binding`: identity and name must pick the same job, and only that one. */
  function JobBinding(c: CheckRun, canonical: Option<Run>, jobs: seq<Job>): Option<Tie> {
    if canonical.None? || c.suite != Some(canonical.value.suite) then None
    else
      var matches := Filter(jobs, (j: Job) => j.id == c.id || j.name == c.name);
      if |matches| != 1 || matches[0].id != c.id || matches[0].name != c.name then None
      else Some(Tie(canonical.value, matches[0]))
  }

  function Report(c: CheckRun, required: seq<string>, canonical: Option<Run>, jobs: seq<Job>): Check {
    Check(c.name, c.head, c.status, c.conclusion, c.app, c.id,
          if c.name in required then c.suite else None,
          if c.name in required then JobBinding(c, canonical, jobs) else None)
  }

  /** A required check run without a positive suite id makes the whole collection fail. */
  predicate Collectable(raw: seq<CheckRun>, required: seq<string>) {
    forall c :: c in raw && c.name in required ==> PositiveSuite(c.suite)
  }

  function ReportAll(raw: seq<CheckRun>, required: seq<string>, canonical: Option<Run>, jobs: seq<Job>): (cs: seq<Check>)
    ensures |cs| == |raw|
    ensures forall i :: 0 <= i < |cs| ==> cs[i] == Report(raw[i], required, canonical, jobs)
  {
    seq(|raw|, i requires 0 <= i < |raw| => Report(raw[i], required, canonical, jobs))
  }

  // ---- The evaluator's side ------------------------------------------------------------------------

  datatype Verdict = Absent | Failing | Passing | Malformed

  predicate InSuite(c: Check, name: string, run: Run) {
    c.name == name && c.suite == Some(run.suite)
  }

  /** The body of the loop over required names, for the sole check of the canonical suite. */
  predicate CheckPasses(c: Check, name: string, run: Run, trusted: seq<string>, s: Subject) {
    && c.tie.Some? && c.tie.value.run == run
    && (var job := c.tie.value.job;
        && c.head == s.head && c.app != "" && c.app in trusted && c.suite == Some(run.suite)
        && c.runId != 0 && job.id == c.runId && job.name == name && job.runId == run.id && job.attempt == run.attempt
        && job.head == s.head
        && Green(run.status, run.conclusion) && Green(c.status, c.conclusion) && Green(job.status, job.conclusion))
  }

  predicate NamePasses(checks: seq<Check>, name: string, run: Run, trusted: seq<string>, s: Subject) {
    && (forall c :: c in checks && c.name == name ==> PositiveSuite(c.suite))
    && (var matches := Filter(checks, (c: Check) => InSuite(c, name, run));
        |matches| == 1 && CheckPasses(matches[0], name, run, trusted, s))
  }

  function Evaluate(checks: seq<Check>, canonical: Option<Run>, required: seq<string>, trusted: seq<string>, s: Subject): Verdict {
    if required == [] || trusted == [] then Absent
    else if canonical.None? then Failing
    else if !WellFormed(canonical.value) then Malformed
    else if !Canonical(canonical.value, s) then Failing
    else if forall name :: name in required ==> NamePasses(checks, name, canonical.value, trusted, s) then Passing
    else Failing
  }

  /** The inner loop: the checks of the canonical suite with this name, or `None` for a check of
      unknown membership. */
  method SuiteMatches(checks: seq<Check>, name: string, run: Run) returns (matches: Option<seq<Check>>)
    ensures matches.None? <==> exists c :: c in checks && c.name == name && !PositiveSuite(c.suite)
    ensures matches.Some? ==> matches.value == Filter(checks, (c: Check) => InSuite(c, name, run))
  {
    var found := [];
    for i := 0 to |checks|
      invariant found == Filter(checks[..i], (c: Check) => InSuite(c, name, run))
      invariant forall c :: c in checks[..i] && c.name == name ==> PositiveSuite(c.suite)
    {
      var item := checks[i];
      FilterGrow(checks, i, (c: Check) => InSuite(c, name, run));
      if item.name == name {
        if item.suite.None? || item.suite.value <= 0 {
          assert item in checks;
          return None;
        }
        if item.suite.value == run.suite {
          found := found + [item];
        }
      }
    }
    assert checks[..|checks|] == checks;
    return Some(found);
  }

  /** `_required_checks_pass`, whose closing test on `bound_runs` can never fail. */
  method RequiredChecksPass(checks: seq<Check>, canonical: Option<Run>, required: seq<string>, trusted: seq<string>, s: Subject)
    returns (v: Verdict)
    ensures v == Evaluate(checks, canonical, required, trusted, s)
  {
    hide Canonical, CheckPasses, WellFormed;
    if required == [] || trusted == [] {
      return Absent;
    }
    if canonical.None? {
      return Failing;
    }
    var run := canonical.value;
    if !WellFormed(run) {
      return Malformed;
    }
    if !Canonical(run, s) {
      return Failing;
    }
    var boundRuns: set<(int, int)> := {};
    for i := 0 to |required|
      invariant forall k :: 0 <= k < i ==> NamePasses(checks, required[k], run, trusted, s)
      invariant boundRuns == if i == 0 then {} else {(run.id, run.attempt)}
    {
      var name := required[i];
      assert name in required;
      var matches := SuiteMatches(checks, name, run);
      if matches.None? || |matches.value| != 1 || !CheckPasses(matches.value[0], name, run, trusted, s) {
        assert !NamePasses(checks, name, run, trusted, s);
        return Failing;
      }
      boundRuns := boundRuns + {(run.id, run.attempt)};
    }
    if |boundRuns| != 1 {
      return Failing;
    }
    return Passing;
  }

  // ---- What acceptance means on the raw listings -------------------------------------------------------

  ghost predicate SoleCheck(raw: seq<CheckRun>, name: string, run: Run, i: nat) {
    && i < |raw| && raw[i].name == name && raw[i].suite == Some(run.suite)
    && forall j :: 0 <= j < |raw| && raw[j].name == name && raw[j].suite == Some(run.suite) ==> j == i
  }

  /** Job `k` has both the check's id and its name, and no other job has either. */
  ghost predicate SoleJob(jobs: seq<Job>, c: CheckRun, k: nat) {
    && k < |jobs| && jobs[k].id == c.id && jobs[k].name == c.name
    && forall j :: 0 <= j < |jobs| && (jobs[j].id == c.id || jobs[j].name == c.name) ==> j == k
  }

  /** Check run and job are green for the head, by a trusted app and in this attempt of the run. */
  ghost predicate Vouches(c: CheckRun, job: Job, run: Run, trusted: seq<string>, s: Subject) {
    && c.id != 0 && c.head == s.head && c.app != "" && c.app in trusted
    && job.runId == run.id && job.attempt == run.attempt && job.head == s.head
    && c.status == "completed" && c.conclusion == Some("success")
    && job.status == "completed" && job.conclusion == Some("success")
  }

  /** The ids are there: none of them is zero or less. */
  ghost predicate Identified(run: Run) {
    run.id >= 1 && run.workflowId >= 1 && run.attempt >= 1 && run.suite >= 1 && forall p :: p in run.pulls ==> p.number >= 1
  }

  /** The run is of the subject's workflow, for its head and for no pull request but it, and succeeded. */
  ghost predicate SuccessfulFor(run: Run, s: Subject) {
    && run.repo == s.repo && run.path == s.workflow && run.event == "pull_request" && run.head == s.head
    && (exists url :: run.pulls == [PullRef(s.pr, url + s.suffix, s.head, s.base)])
    && run.status == "completed" && run.conclusion == Some("success")
  }

  lemma CanonicalIff(run: Run, s: Subject)
    ensures WellFormed(run) <==> Identified(run)
    ensures Canonical(run, s) && Green(run.status, run.conclusion) <==> SuccessfulFor(run, s)
  {
    if Canonical(run, s) && Green(run.status, run.conclusion) {
      var p := run.pulls[0];
      var url := p.url[..|p.url| - |s.suffix|];
      assert p.url == url + s.suffix && run.pulls == [PullRef(s.pr, url + s.suffix, s.head, s.base)];
    }
    if url :| run.pulls == [PullRef(s.pr, url + s.suffix, s.head, s.base)] {
      assert run.pulls[0].url[|url|..] == s.suffix;
    }
  }

  /** The required check `name` is green: one check run of the canonical suite, tied to one job of the
      canonical run's attempt, both green for the head. */
  ghost predicate Attested(raw: seq<CheckRun>, jobs: seq<Job>, run: Run, name: string, trusted: seq<string>, s: Subject) {
    exists i: nat, k: nat {:trigger SoleCheck(raw, name, run, i), SoleJob(jobs, raw[i], k)} ::
      SoleCheck(raw, name, run, i) && SoleJob(jobs, raw[i], k) && Vouches(raw[i], jobs[k], run, trusted, s)
  }

  lemma JobBindingIff(c: CheckRun, canonical: Option<Run>, jobs: seq<Job>, run: Run, job: Job)
    ensures JobBinding(c, canonical, jobs) == Some(Tie(run, job)) <==>
      canonical == Some(run) && c.suite == Some(run.suite) && exists k: nat :: SoleJob(jobs, c, k) && jobs[k] == job
  {
    var p := (j: Job) => j.id == c.id || j.name == c.name;
    if JobBinding(c, canonical, jobs) == Some(Tie(run, job)) {
      var k := FilterSole(jobs, p);
      assert SoleJob(jobs, c, k) && jobs[k] == job;
    }
    if k: nat :| SoleJob(jobs, c, k) && jobs[k] == job {
      SoleFilter(jobs, p, k);
    }
  }

  lemma SoleReport(raw: seq<CheckRun>, required: seq<string>, jobs: seq<Job>, run: Run, name: string, i: nat)
    requires name in required && SoleCheck(raw, name, run, i)
    ensures Filter(ReportAll(raw, required, Some(run), jobs), (c: Check) => InSuite(c, name, run))
      == [Report(raw[i], required, Some(run), jobs)]
  {
    SoleFilter(ReportAll(raw, required, Some(run), jobs), (c: Check) => InSuite(c, name, run), i);
  }

  lemma ReportSole(raw: seq<CheckRun>, required: seq<string>, jobs: seq<Job>, run: Run, name: string) returns (i: nat)
    requires name in required
    requires |Filter(ReportAll(raw, required, Some(run), jobs), (c: Check) => InSuite(c, name, run))| == 1
    ensures SoleCheck(raw, name, run, i)
  {
    i := FilterSole(ReportAll(raw, required, Some(run), jobs), (c: Check) => InSuite(c, name, run));
  }

  lemma NameIff(raw: seq<CheckRun>, required: seq<string>, jobs: seq<Job>, run: Run, name: string, trusted: seq<string>, s: Subject)
    requires name in required && Collectable(raw, required)
    ensures NamePasses(ReportAll(raw, required, Some(run), jobs), name, run, trusted, s)
      <==> Green(run.status, run.conclusion) && Attested(raw, jobs, run, name, trusted, s)
  {
    var checks := ReportAll(raw, required, Some(run), jobs);
    forall c | c in checks && c.name == name ensures PositiveSuite(c.suite) {
      var i :| 0 <= i < |checks| && checks[i] == c;
      assert raw[i] in raw;
    }
    if NamePasses(checks, name, run, trusted, s) {
      var i := ReportSole(raw, required, jobs, run, name);
      SoleReport(raw, required, jobs, run, name, i);
      JobBindingIff(raw[i], Some(run), jobs, run, checks[i].tie.value.job);
      var k: nat :| SoleJob(jobs, raw[i], k) && jobs[k] == checks[i].tie.value.job;
      assert Vouches(raw[i], jobs[k], run, trusted, s);
    }
    if Green(run.status, run.conclusion) && Attested(raw, jobs, run, name, trusted, s) {
      var i: nat, k: nat :| SoleCheck(raw, name, run, i) && SoleJob(jobs, raw[i], k) && Vouches(raw[i], jobs[k], run, trusted, s);
      SoleReport(raw, required, jobs, run, name, i);
      JobBindingIff(raw[i], Some(run), jobs, run, jobs[k]);
    }
  }

  // ---- Main results --------------------------------------------------------------------------------------

  ghost predicate AllAttested(raw: seq<CheckRun>, jobs: seq<Job>, canonical: Option<Run>, required: seq<string>,
                              trusted: seq<string>, s: Subject) {
    && required != [] && trusted != [] && canonical.Some?
    && Identified(canonical.value) && SuccessfulFor(canonical.value, s)
    && forall name :: name in required ==> Attested(raw, jobs, canonical.value, name, trusted, s)
  }

  /** Collector and evaluator together pass exactly when every required name is attested by the raw
      listings of a successful canonical run. */
  lemma PassingIff(raw: seq<CheckRun>, jobs: seq<Job>, canonical: Option<Run>, required: seq<string>,
                   trusted: seq<string>, s: Subject)
    requires Collectable(raw, required)
    ensures Evaluate(ReportAll(raw, required, canonical, jobs), canonical, required, trusted, s) == Passing
      <==> AllAttested(raw, jobs, canonical, required, trusted, s)
  {
    hide NamePasses, Attested, Canonical, WellFormed, Green, Identified, SuccessfulFor;
    if canonical.Some? {
      CanonicalIff(canonical.value, s);
      forall name | name in required
        ensures NamePasses(ReportAll(raw, required, canonical, jobs), name, canonical.value, trusted, s)
          <==> Green(canonical.value.status, canonical.value.conclusion) && Attested(raw, jobs, canonical.value, name, trusted, s)
      {
        NameIff(raw, required, jobs, canonical.value, name, trusted, s);
      }
      if required != [] { assert required[0] in required; }
    }
  }

  /** The verdicts that come before any check is looked at: nothing is required or trusted, or the run
      carries an id that is none. */
  lemma EarlyVerdictIff(checks: seq<Check>, canonical: Option<Run>, required: seq<string>, trusted: seq<string>, s: Subject)
    ensures Evaluate(checks, canonical, required, trusted, s) == Absent <==> required == [] || trusted == []
    ensures Evaluate(checks, canonical, required, trusted, s) == Malformed <==>
      required != [] && trusted != [] && canonical.Some? && !Identified(canonical.value)
  {
    hide Canonical, NamePasses;
    if canonical.Some? { CanonicalIff(canonical.value, s); }
  }

  lemma AttestedIgnoresForeign(raw: seq<CheckRun>, extra: seq<CheckRun>, jobs: seq<Job>, run: Run, name: string,
                               trusted: seq<string>, s: Subject)
    requires forall c :: c in extra ==> c.suite != Some(run.suite)
    ensures Attested(raw + extra, jobs, run, name, trusted, s) <==> Attested(raw, jobs, run, name, trusted, s)
  {
    var all := raw + extra;
    forall j | |raw| <= j < |all| ensures all[j].suite != Some(run.suite) { assert all[j] in extra; }
    if i: nat, k: nat :| SoleCheck(all, name, run, i) && SoleJob(jobs, all[i], k) && Vouches(all[i], jobs[k], run, trusted, s) {
      assert all[i] == raw[i];
      forall j | 0 <= j < |raw| && raw[j].name == name && raw[j].suite == Some(run.suite) ensures j == i {
        assert all[j] == raw[j];
      }
      assert SoleCheck(raw, name, run, i) && SoleJob(jobs, raw[i], k);
    }
    if i: nat, k: nat :| SoleCheck(raw, name, run, i) && SoleJob(jobs, raw[i], k) && Vouches(raw[i], jobs[k], run, trusted, s) {
      assert all[i] == raw[i];
      assert SoleCheck(all, name, run, i) && SoleJob(jobs, all[i], k);
    }
  }

  /** Check runs of other suites, whatever their names and outcomes, change nothing: a foreign green
      cannot stand in, and a foreign red cannot veto. */
  lemma ForeignSuitesIgnored(raw: seq<CheckRun>, extra: seq<CheckRun>, jobs: seq<Job>, canonical: Option<Run>,
                             required: seq<string>, trusted: seq<string>, s: Subject)
    requires Collectable(raw, required) && Collectable(extra, required)
    requires forall c :: c in extra && canonical.Some? ==> c.suite != Some(canonical.value.suite)
    ensures Evaluate(ReportAll(raw + extra, required, canonical, jobs), canonical, required, trusted, s)
      == Evaluate(ReportAll(raw, required, canonical, jobs), canonical, required, trusted, s)
  {
    hide Attested, Canonical, WellFormed, NamePasses, Green, Identified, SuccessfulFor;
    PassingIff(raw, jobs, canonical, required, trusted, s);
    PassingIff(raw + extra, jobs, canonical, required, trusted, s);
    if canonical.Some? {
      forall name | name in required
        ensures Attested(raw + extra, jobs, canonical.value, name, trusted, s) <==> Attested(raw, jobs, canonical.value, name, trusted, s)
      {
        AttestedIgnoresForeign(raw, extra, jobs, canonical.value, name, trusted, s);
      }
    }
  }

  /** A second check run of the canonical suite under a required name, however green, fails the whole
      test: duplicates are never last-wins. */
  lemma DuplicateChecksFail(raw: seq<CheckRun>, jobs: seq<Job>, run: Run, required: seq<string>, trusted: seq<string>,
                            s: Subject, i: nat, j: nat)
    requires Collectable(raw, required) && i < j < |raw|
    requires raw[i].name == raw[j].name && raw[i].name in required
    requires raw[i].suite == Some(run.suite) && raw[j].suite == Some(run.suite)
    ensures Evaluate(ReportAll(raw, required, Some(run), jobs), Some(run), required, trusted, s) != Passing
  {
    PassingIff(raw, jobs, Some(run), required, trusted, s);
  }
}
