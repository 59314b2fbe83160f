/** The guard end to end: the double read, the binder, the required-check ties and the evaluator. A
    Ready verdict on revalidated evidence is a statement about one instant of the server. */
module GuardedSnapshot {
  import opened Outcomes
  import Pages = Pagination
  import Read = DoubleCollect
  import Whole = SurfaceReads
  import Guard = ReviewGuard
  import Verdicts = GuardVerdicts
  import Checks = RequiredChecks

  /** How the fields of listed objects are read; opaque here. A reaction's target is not read but set. */
  datatype Decoders = Decoders(
    review: Pages.Item -> Guard.Review, comment: Pages.Item -> Guard.Comment,
    isReady: Pages.Item -> bool, ready: Pages.Item -> Guard.ReadyEvent, reaction: Pages.Item -> Guard.Reaction,
    check: Pages.Item -> Checks.CheckRun, run: Pages.Item -> Checks.Run, job: Pages.Item -> Checks.Job)

  /** The policy the evaluator is called with. `suffix` is the URL tail of the pull request. */
  datatype Policy = Policy(
    expected: Guard.Expected, required: seq<string>, producers: seq<string>, suffix: string, workflow: string,
    requesters: Guard.Requesters, texts: Guard.Texts)

  function Map<T, U>(xs: seq<T>, f: T -> U): (ys: seq<U>)
    ensures |ys| == |xs| && forall i :: 0 <= i < |xs| ==> ys[i] == f(xs[i])
  {
    seq(|xs|, i requires 0 <= i < |xs| => f(xs[i]))
  }

  /** The surfaces the binder works on. */
  function Gathered(e: Read.Evidence, d: Decoders): Guard.Collected {
    Guard.Collected(
      e.pull.repo, e.pull.number, e.pull.head, Map(e.reviews, d.review), Map(e.comments, d.comment),
      Map(Filter(e.events, d.isReady), d.ready),
      Map(e.reactions, (i: Pages.Item) => d.reaction(i).(targetRepo := e.pull.repo, targetPr := e.pull.number)))
  }

  function CanonicalRun(e: Read.Evidence, d: Decoders): Option<Checks.Run> {
    if e.ci.run.Some? then Some(d.run(e.ci.run.value)) else None
  }

  function SubjectOf(p: Policy): Checks.Subject {
    Checks.Subject(p.expected.repo, p.expected.pr, p.suffix, p.expected.head, p.expected.base, p.workflow)
  }

  /** `_required_checks_pass` on the reported checks. */
  function ChecksVerdict(e: Read.Evidence, d: Decoders, p: Policy): Checks.Verdict {
    var reported := Checks.ReportAll(Map(e.checks, d.check), p.required, CanonicalRun(e, d), Map(e.ci.jobs, d.job));
    Checks.Evaluate(reported, CanonicalRun(e, d), p.required, p.producers, SubjectOf(p))
  }

  /** What `_collect` hands to `_evaluate_live` once the second round agreed; `open` counts the material
      findings without a verified disposition. */
  function Reported(e: Read.Evidence, d: Decoders, p: Policy, open: nat): Guard.Evidence {
    var c := Gathered(e, d);
    Guard.Evidence(
      true, c.repo, c.pr, c.head, e.pull.base, e.pull.state, e.pull.draft, e.pull.merged, ChecksVerdict(e, d, p),
      c.reviews, c.readyEvents, Guard.BindAll(c, p.texts, p.requesters, Guard.CodexComments(c.comments)), c.reactions, open)
  }

  lemma ReportedIsCollection(e: Read.Evidence, d: Decoders, p: Policy, open: nat)
    ensures Verdicts.FromCollection(Reported(e, d, p, open), Gathered(e, d), p.texts, p.requesters)
  {
    var c := Gathered(e, d);
    forall r | r in c.reactions ensures r.targetRepo == c.repo && r.targetPr == c.pr {
      var i :| 0 <= i < |c.reactions| && c.reactions[i] == r;
    }
  }

  /** `ys` are the listed objects `xs` as they read. */
  ghost predicate ReadAs<T>(xs: seq<Pages.Item>, f: Pages.Item -> T, ys: seq<T>) {
    |ys| == |xs| && forall i :: 0 <= i < |xs| ==> ys[i] == f(xs[i])
  }

  /** `c` is what the listings of `e` say about reviews, comments, Ready events and reactions; the reactions
      are those to the pull request itself. */
  ghost predicate Gathers(e: Read.Evidence, d: Decoders, c: Guard.Collected) {
    && c.repo == e.pull.repo && c.pr == e.pull.number && c.head == e.pull.head
    && ReadAs(e.reviews, d.review, c.reviews) && ReadAs(e.comments, d.comment, c.comments)
    && ReadAs(Filter(e.events, d.isReady), d.ready, c.readyEvents)
    && |c.reactions| == |e.reactions|
    && forall i :: 0 <= i < |e.reactions| ==>
      var seen := d.reaction(e.reactions[i]);
      c.reactions[i] == Guard.Reaction(seen.id, seen.login, seen.content, seen.createdAt, e.pull.repo, e.pull.number)
  }

  /** Every required check is attested by the listed checks, the canonical run and its jobs. */
  ghost predicate ChecksAttested(e: Read.Evidence, d: Decoders, p: Policy) {
    exists checks, jobs :: ReadAs(e.checks, d.check, checks) && ReadAs(e.ci.jobs, d.job, jobs)
      && Checks.AllAttested(checks, jobs, match e.ci.run case None => None case Some(run) => Some(d.run(run)), p.required, p.producers,
        Checks.Subject(p.expected.repo, p.expected.pr, p.suffix, p.expected.head, p.expected.base, p.workflow))
  }

  lemma GathersIff(e: Read.Evidence, d: Decoders, c: Guard.Collected)
    ensures Gathers(e, d, c) <==> c == Gathered(e, d)
  {
    var g := Gathered(e, d);
    if Gathers(e, d, c) {
      assert c.reviews == g.reviews && c.comments == g.comments && c.readyEvents == g.readyEvents;
      assert c.reactions == g.reactions;
    }
  }

  lemma AttestedIff(e: Read.Evidence, d: Decoders, p: Policy)
    ensures ChecksAttested(e, d, p)
      <==> Checks.AllAttested(Map(e.checks, d.check), Map(e.ci.jobs, d.job), CanonicalRun(e, d), p.required, p.producers, SubjectOf(p))
  {
    hide Checks.AllAttested;
    var checks, jobs := Map(e.checks, d.check), Map(e.ci.jobs, d.job);
    assert ReadAs(e.checks, d.check, checks) && ReadAs(e.ci.jobs, d.job, jobs);
    assert forall cs :: ReadAs(e.checks, d.check, cs) ==> cs == checks;
    assert forall js :: ReadAs(e.ci.jobs, d.job, js) ==> js == jobs;
  }

  /** What the raw surfaces of `e` must show for the expected subject: an open pull request past its draft,
      one Codex comment, the `i`-th, that completes the round of `bound` and no other one that is bound, no
      open finding, and every required check attested. */
  ghost predicate ReadySurfaces(
    e: Read.Evidence, d: Decoders, p: Policy, open: nat, c: Guard.Collected, i: nat, bound: Guard.Binding)
  {
    && Gathers(e, d, c)
    && p.expected == Guard.Expected(e.pull.repo, e.pull.number, e.pull.head, e.pull.base)
    && e.pull.state == "open" && !e.pull.draft && !e.pull.merged && open == 0
    && Verdicts.SoleCompletion(c, p.texts, p.requesters, i)
    && Verdicts.RoundCompleted(c, p.texts, p.requesters, c.comments[i], bound)
    && ChecksAttested(e, d, p)
  }

  /** The guard's verdict on what it reports is Ready exactly when the surfaces show all of that. */
  lemma ReadyIff(e: Read.Evidence, d: Decoders, p: Policy, open: nat)
    requires Checks.Collectable(Map(e.checks, d.check), p.required)
    ensures Guard.Evaluate(Reported(e, d, p, open), p.expected, p.texts) == Guard.ReadyForDecision
      <==> exists c, i: nat, bound :: ReadySurfaces(e, d, p, open, c, i, bound)
  {
    hide Guard.BindAll, Verdicts.FromCollection, Guard.CodexComments, Verdicts.RoundCompleted, Guard.Pending, Verdicts.Completes,
      Guard.Evaluate, Checks.Evaluate, Checks.AllAttested, Verdicts.Settled, Verdicts.Outdated, Verdicts.Contradictory;
    var r, c := Reported(e, d, p, open), Gathered(e, d);
    forall other ensures Gathers(e, d, other) <==> other == c { GathersIff(e, d, other); }
    AttestedIff(e, d, p);
    hide Gathers, Gathered, ChecksAttested;
    ReportedIsCollection(e, d, p, open);
    Checks.PassingIff(Map(e.checks, d.check), Map(e.ci.jobs, d.job), CanonicalRun(e, d), p.required, p.producers, SubjectOf(p));
    Verdicts.VerdictIff(r, p.expected, p.texts);
    if Verdicts.Admitted(r, p.expected) { Verdicts.AgreementIff(r, p.expected, c, p.texts, p.requesters); }
    if Guard.Evaluate(r, p.expected, p.texts) == Guard.ReadyForDecision {
      var i: nat, bound :| Verdicts.SoleCompletion(c, p.texts, p.requesters, i)
        && Verdicts.RoundCompleted(c, p.texts, p.requesters, c.comments[i], bound);
      assert ReadySurfaces(e, d, p, open, c, i, bound);
    }
  }

  /** A Ready verdict on revalidated evidence holds at one instant: at every instant between the two rounds
      one atomic reading of the whole server returns that evidence, and the surfaces in it show, all at
      once, everything the verdict claims. */
  lemma ReadyAtOneInstant(h: Read.History, a: Read.Schedule, m: nat, b: Read.Schedule, plausible: Read.Plausible,
                          e: Read.Evidence, d: Decoders, p: Policy, open: nat)
    returns (c: Guard.Collected, i: nat, bound: Guard.Binding)
    requires Read.NoReturn(h) && Read.HonoursPages(h) && Read.Between(a, m, b)
    requires Read.Revalidated(h, a, b, p.expected.pr, plausible, e)
    requires Checks.Collectable(Map(e.checks, d.check), p.required)
    requires Guard.Evaluate(Reported(e, d, p, open), p.expected, p.texts) == Guard.ReadyForDecision
    ensures Read.Collect(h, Read.Instant(m), e.pull, plausible) == Resolved(e)
    ensures ReadySurfaces(e, d, p, open, c, i, bound)
  {
    hide *;
    Read.RevalidatedIsSnapshot(h, a, m, b, p.expected.pr, plausible, e);
    ReadyIff(e, d, p, open);
    c, i, bound :| ReadySurfaces(e, d, p, open, c, i, bound);
  }

  /** The same when all that is known of the server is that no surface returns, provided every reported
      listing fits on one page: at every instant in between the server itself held the reported pull
      request and listings, and they show everything the verdict claims. */
  lemma ReadyHeldByServer(srv: Whole.Server, a: Read.Schedule, m: nat, b: Read.Schedule, plausible: Read.Plausible,
                          e: Read.Evidence, d: Decoders, p: Policy, open: nat)
    returns (c: Guard.Collected, i: nat, bound: Guard.Binding)
    requires Whole.SurfacesNeverReturn(srv) && Read.Between(a, m, b) && Whole.OnePage(e)
    requires Read.Revalidated(Whole.Serving(srv), a, b, p.expected.pr, plausible, e)
    requires Checks.Collectable(Map(e.checks, d.check), p.required)
    requires Guard.Evaluate(Reported(e, d, p, open), p.expected, p.texts) == Guard.ReadyForDecision
    ensures srv(m).pull == e.pull && forall x :: x in Whole.Listings(e) ==> srv(m).listing(x.listed) == x.items
    ensures ReadySurfaces(e, d, p, open, c, i, bound)
  {
    hide *;
    Whole.OnePageIsSnapshot(srv, a, m, b, p.expected.pr, plausible, e);
    ReadyIff(e, d, p, open);
    c, i, bound :| ReadySurfaces(e, d, p, open, c, i, bound);
  }
}
