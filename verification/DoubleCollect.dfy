/** The collector's double read. The server changes between any two requests, pages of one listing
    included; the collector reads every surface twice and trusts the first reading only if the second
    agrees. */
module DoubleCollect {
  import opened Outcomes
  import opened Pagination

  /** The fields `identity` compares, which are also the ones the evidence reports. */
  datatype Pull = Pull(number: int, repo: string, state: string, draft: bool, merged: bool, head: string, base: string)

  datatype Listed =
    | Reviews | ReviewComments | IssueComments | Events | Reactions
    | Checks(head: string) | Runs(head: string) | Jobs(run: int, attempt: int)

  datatype Request = PullRequest | PageRequest(listed: Listed, page: nat) | RunRequest(id: int)
  datatype Answer = PullAnswer(pull: Pull) | PageAnswer(response: Response) | RunAnswer(run: Option<Item>)

  /** What the server would answer to each request at each instant: any change at any instant. */
  type History = (nat, Request) -> Answer

  /** When each request of one round was answered. Requests that are never made have a time too; it
      does not matter. */
  type Schedule = Request -> nat

  /** Which Actions runs are plausible for a subject, opaque here. */
  type Plausible = (Pull, Item) -> bool

  datatype CanonicalCi = CanonicalCi(runs: seq<Item>, run: Option<Item>, jobs: seq<Item>)

  datatype Evidence = Evidence(
    pull: Pull, reviews: seq<Item>, reviewComments: seq<Item>, comments: seq<Item>, events: seq<Item>,
    reactions: seq<Item>, checks: seq<Item>, ci: CanonicalCi)

  // ---- One round ---------------------------------------------------------------------------------

  function PageOf(h: History, at: Schedule, l: Listed, page: nat): Response {
    var answer := h(at(PageRequest(l, page)), PageRequest(l, page));
    if answer.PageAnswer? then answer.response else NotListing
  }

  /** The page reader of one listing, each page at its own time. */
  function Reader(h: History, at: Schedule, l: Listed): nat -> Response {
    (page: nat) => PageOf(h, at, l, page)
  }

  function PullAt(h: History, at: Schedule): Outcome<Pull> {
    var answer := h(at(PullRequest), PullRequest);
    if answer.PullAnswer? then Resolved(answer.pull) else Refused
  }

  function RunAt(h: History, at: Schedule, id: int): Outcome<Item> {
    var answer := h(at(RunRequest(id)), RunRequest(id));
    if answer.RunAnswer? && answer.run.Some? then Resolved(answer.run.value) else Refused
  }

  /** `_pages` */
  function ReadPages(h: History, at: Schedule, l: Listed): Outcome<seq<Item>> {
    Pages(Reader(h, at, l), 1, [])
  }

  /** `_envelope_pages` */
  function ReadEnvelope(h: History, at: Schedule, l: Listed): Outcome<seq<Item>> {
    EnvelopePages(Reader(h, at, l), 1, [], None)
  }

  /** `_canonical_ci` */
  function CollectCi(h: History, at: Schedule, subject: Pull, plausible: Plausible): Outcome<CanonicalCi> {
    var runs :- ReadEnvelope(h, at, Runs(subject.head));
    var candidates := Filter(runs, (r: Item) => plausible(subject, r));
    if |candidates| != 1 then Resolved(CanonicalCi(runs, None, []))
    else
      var run :- RunAt(h, at, candidates[0].id);
      if (run.id, run.attempt, run.fields) != (candidates[0].id, candidates[0].attempt, candidates[0].fields) then Refused
      else
        var jobs :- ReadEnvelope(h, at, Jobs(run.id, run.attempt));
        Resolved(CanonicalCi(runs, Some(run), jobs))
  }

  /** All eight surfaces; head and subject come from the first pull request reading. */
  function Collect(h: History, at: Schedule, subject: Pull, plausible: Plausible): Outcome<Evidence> {
    var pull :- PullAt(h, at);
    var reviews :- ReadPages(h, at, Reviews);
    var reviewComments :- ReadPages(h, at, ReviewComments);
    var comments :- ReadPages(h, at, IssueComments);
    var events :- ReadPages(h, at, Events);
    var reactions :- ReadPages(h, at, Reactions);
    var checks :- ReadEnvelope(h, at, Checks(subject.head));
    var ci :- CollectCi(h, at, subject, plausible);
    Resolved(Evidence(pull, reviews, reviewComments, comments, events, reactions, checks, ci))
  }

  /** `_collect` reports `revalidated` for the first round's evidence: the pull request is the one
      asked for, both rounds succeed and every surface reads the same twice. */
  predicate Revalidated(h: History, first: Schedule, second: Schedule, number: int, plausible: Plausible, e: Evidence) {
    && e.pull.repo != "" && e.pull.number == number
    && Collect(h, first, e.pull, plausible) == Resolved(e)
    && Collect(h, second, e.pull, plausible) == Resolved(e)
  }

  // ---- Assumptions about the server and the clock ---------------------------------------------------

  /** No answer comes back after it changed. */
  ghost predicate NoReturn(h: History) {
    forall r, i: nat, j: nat, k: nat {:trigger h(i, r), h(j, r), h(k, r)} ::
      i <= j <= k && h(i, r) == h(k, r) ==> h(j, r) == h(i, r)
  }

  predicate Bare(l: Listed) {
    !(l.Checks? || l.Runs? || l.Jobs?)
  }

  /** No page is longer than `per_page`, and bare arrays carry no count. */
  ghost predicate HonoursPages(h: History) {
    forall t: nat, l, p: nat {:trigger h(t, PageRequest(l, p))} ::
      var answer := h(t, PageRequest(l, p));
      answer.PageAnswer? && answer.response.Listing? ==>
        |answer.response.entries| <= PAGE_SIZE && (Bare(l) ==> answer.response.total == 0)
  }

  /** Instant `m` is no earlier than any request of `a` and no later than any request of `b`. */
  ghost predicate Between(a: Schedule, m: nat, b: Schedule) {
    forall r :: a(r) <= m <= b(r)
  }

  /** Every request answered at the single instant `m`. */
  function Instant(m: nat): Schedule {
    (r: Request) => m
  }

  // ---- Agreement between the rounds ------------------------------------------------------------------

  lemma PageBetween(h: History, a: Schedule, m: nat, b: Schedule, l: Listed, p: nat)
    requires NoReturn(h) && Between(a, m, b) && PageOf(h, a, l, p) == PageOf(h, b, l, p) && PageOf(h, a, l, p).Listing?
    ensures PageOf(h, Instant(m), l, p) == PageOf(h, a, l, p)
  {
    var r := PageRequest(l, p);
    assert a(r) <= m <= b(r) && h(a(r), r) == h(b(r), r);
    assert h(m, r) == h(a(r), r);
  }

  lemma ReaderBounded(h: History, at: Schedule, l: Listed)
    requires HonoursPages(h)
    ensures Bounded(Reader(h, at, l))
    ensures Bare(l) ==> forall p: nat :: PageOf(h, at, l, p).Listing? ==> PageOf(h, at, l, p).total == 0
  {
    forall p: nat | Reader(h, at, l)(p).Listing? ensures |Reader(h, at, l)(p).entries| <= PAGE_SIZE {
      assert h(at(PageRequest(l, p)), PageRequest(l, p)).PageAnswer?;
    }
  }

  lemma ReadersAgree(h: History, a: Schedule, m: nat, b: Schedule, l: Listed, last: nat)
    requires NoReturn(h) && Between(a, m, b)
    requires forall p: nat :: 1 <= p <= last ==> PageOf(h, a, l, p).Listing? && PageOf(h, a, l, p) == PageOf(h, b, l, p)
    ensures AgreeUpto(Reader(h, a, l), Reader(h, Instant(m), l), 1, last)
  {
    forall p: nat | 1 <= p <= last ensures Reader(h, a, l)(p) == Reader(h, Instant(m), l)(p) {
      PageBetween(h, a, m, b, l, p);
    }
  }

  /** A listing read twice with the same result shows that result at every instant in between. */
  lemma PagesBetween(h: History, a: Schedule, m: nat, b: Schedule, l: Listed, xs: seq<Item>)
    requires NoReturn(h) && HonoursPages(h) && Between(a, m, b) && Bare(l)
    requires ReadPages(h, a, l) == Resolved(xs) && ReadPages(h, b, l) == Resolved(xs)
    ensures ReadPages(h, Instant(m), l) == Resolved(xs)
  {
    ReaderBounded(h, a, l);
    ReaderBounded(h, b, l);
    PagesMeanServed(Reader(h, a, l), 1, [], xs);
    PagesMeanServed(Reader(h, b, l), 1, [], xs);
    forall p: nat | 1 <= p <= Asked(xs) ensures PageOf(h, a, l, p).Listing? && PageOf(h, a, l, p) == PageOf(h, b, l, p) {
      assert Reader(h, a, l)(p) == Serve(xs, 0)(p) == Reader(h, b, l)(p);
    }
    ReadersAgree(h, a, m, b, l, Asked(xs));
    PagesDepend(Reader(h, a, l), Reader(h, Instant(m), l), 1, [], Asked(xs));
  }

  lemma EnvelopeBetween(h: History, a: Schedule, m: nat, b: Schedule, l: Listed, xs: seq<Item>)
    requires NoReturn(h) && HonoursPages(h) && Between(a, m, b)
    requires ReadEnvelope(h, a, l) == Resolved(xs) && ReadEnvelope(h, b, l) == Resolved(xs)
    ensures ReadEnvelope(h, Instant(m), l) == Resolved(xs)
  {
    var f, g := Reader(h, a, l), Reader(h, b, l);
    ReaderBounded(h, a, l);
    ReaderBounded(h, b, l);
    EnvelopeIsPages(f, 1, [], None);
    EnvelopeIsPages(g, 1, [], None);
    PagesMeanServed(f, 1, [], xs);
    PagesMeanServed(g, 1, [], xs);
    forall p: nat | 1 <= p <= Asked(xs) ensures PageOf(h, a, l, p).Listing? && PageOf(h, a, l, p) == PageOf(h, b, l, p) {
      EnvelopeTotal(f, 1, [], None, xs, p);
      EnvelopeTotal(g, 1, [], None, xs, p);
      assert f(p) == Serve(xs, |xs|)(p) == g(p);
    }
    ReadersAgree(h, a, m, b, l, Asked(xs));
    EnvelopeDepend(f, Reader(h, Instant(m), l), 1, [], None, Asked(xs));
  }

  /** Position `i` holds the only plausible run. */
  ghost predicate SolePlausible(runs: seq<Item>, subject: Pull, plausible: Plausible, i: nat) {
    && i < |runs| && plausible(subject, runs[i])
    && forall j :: 0 <= j < |runs| && plausible(subject, runs[j]) ==> j == i
  }

  /** What is reported of Actions: the runs of the head and, when exactly one of them is plausible, that run
      as it reads on its own, no different, with the jobs of its attempt. */
  ghost predicate CiShown(h: History, at: Schedule, subject: Pull, plausible: Plausible, ci: CanonicalCi) {
    && ReadEnvelope(h, at, Runs(subject.head)) == Resolved(ci.runs)
    && match ci.run
       case None => ci.jobs == [] && forall i: nat :: !SolePlausible(ci.runs, subject, plausible, i)
       case Some(run) =>
         && (exists i: nat :: SolePlausible(ci.runs, subject, plausible, i)
               && run.id == ci.runs[i].id && run.attempt == ci.runs[i].attempt && run.fields == ci.runs[i].fields)
         && h(at(RunRequest(run.id)), RunRequest(run.id)) == RunAnswer(Some(run))
         && ReadEnvelope(h, at, Jobs(run.id, run.attempt)) == Resolved(ci.jobs)
  }

  lemma CandidatesIff(runs: seq<Item>, subject: Pull, plausible: Plausible)
    ensures var candidates := Filter(runs, (r: Item) => plausible(subject, r));
      && (forall i: nat :: SolePlausible(runs, subject, plausible, i) ==> candidates == [runs[i]])
      && (|candidates| == 1 ==> exists i: nat :: SolePlausible(runs, subject, plausible, i) && candidates == [runs[i]])
  {
    var p := (r: Item) => plausible(subject, r);
    forall i: nat | SolePlausible(runs, subject, plausible, i) ensures Filter(runs, p) == [runs[i]] { SoleFilter(runs, p, i); }
    if |Filter(runs, p)| == 1 {
      var i := FilterSole(runs, p);
      assert SolePlausible(runs, subject, plausible, i);
    }
  }

  lemma CiIff(h: History, at: Schedule, subject: Pull, plausible: Plausible, ci: CanonicalCi)
    ensures CollectCi(h, at, subject, plausible) == Resolved(ci) <==> CiShown(h, at, subject, plausible, ci)
  {
    hide ReadEnvelope;
    CandidatesIff(ci.runs, subject, plausible);
  }

  /** The dependent reads - runs, then the selected run, then its jobs - agree at `m` as well. */
  lemma CiBetween(h: History, a: Schedule, m: nat, b: Schedule, subject: Pull, plausible: Plausible, ci: CanonicalCi)
    requires NoReturn(h) && HonoursPages(h) && Between(a, m, b)
    requires CollectCi(h, a, subject, plausible) == Resolved(ci) && CollectCi(h, b, subject, plausible) == Resolved(ci)
    ensures CollectCi(h, Instant(m), subject, plausible) == Resolved(ci)
  {
    hide CollectCi, ReadEnvelope, SolePlausible, HonoursPages;
    CiIff(h, a, subject, plausible, ci);
    CiIff(h, b, subject, plausible, ci);
    CiIff(h, Instant(m), subject, plausible, ci);
    EnvelopeBetween(h, a, m, b, Runs(subject.head), ci.runs);
    if ci.run.Some? {
      var r, run := RunRequest(ci.run.value.id), ci.run.value;
      assert a(r) <= m <= b(r) && h(a(r), r) == h(b(r), r);
      assert h(m, r) == h(a(r), r);
      EnvelopeBetween(h, a, m, b, Jobs(run.id, run.attempt), ci.jobs);
    }
  }

  ghost predicate Parts(h: History, at: Schedule, plausible: Plausible, e: Evidence) {
    && PullAt(h, at) == Resolved(e.pull)
    && ReadPages(h, at, Reviews) == Resolved(e.reviews)
    && ReadPages(h, at, ReviewComments) == Resolved(e.reviewComments)
    && ReadPages(h, at, IssueComments) == Resolved(e.comments)
    && ReadPages(h, at, Events) == Resolved(e.events)
    && ReadPages(h, at, Reactions) == Resolved(e.reactions)
    && ReadEnvelope(h, at, Checks(e.pull.head)) == Resolved(e.checks)
    && CollectCi(h, at, e.pull, plausible) == Resolved(e.ci)
  }

  lemma CollectParts(h: History, at: Schedule, plausible: Plausible, e: Evidence)
    ensures Collect(h, at, e.pull, plausible) == Resolved(e) <==> Parts(h, at, plausible, e)
  {}

  /** One round, surface by surface: what it reports is what it was answered, and it reports nothing when any
      of the answers cannot be read. */
  lemma CollectIff(h: History, at: Schedule, plausible: Plausible, e: Evidence)
    ensures Collect(h, at, e.pull, plausible) == Resolved(e) <==>
      && h(at(PullRequest), PullRequest) == PullAnswer(e.pull)
      && ReadPages(h, at, Reviews) == Resolved(e.reviews) && ReadPages(h, at, ReviewComments) == Resolved(e.reviewComments)
      && ReadPages(h, at, IssueComments) == Resolved(e.comments) && ReadPages(h, at, Events) == Resolved(e.events)
      && ReadPages(h, at, Reactions) == Resolved(e.reactions) && ReadEnvelope(h, at, Checks(e.pull.head)) == Resolved(e.checks)
      && CiShown(h, at, e.pull, plausible, e.ci)
  {
    hide ReadPages, ReadEnvelope, CollectCi, CiShown;
    CollectParts(h, at, plausible, e);
    CiIff(h, at, e.pull, plausible, e.ci);
  }

  lemma PartsBetween(h: History, a: Schedule, m: nat, b: Schedule, plausible: Plausible, e: Evidence)
    requires NoReturn(h) && HonoursPages(h) && Between(a, m, b)
    requires Parts(h, a, plausible, e) && Parts(h, b, plausible, e)
    ensures Parts(h, Instant(m), plausible, e)
  {
    assert PullAt(h, Instant(m)) == Resolved(e.pull) by {
      var r := PullRequest;
      assert a(r) <= m <= b(r) && h(a(r), r) == h(b(r), r);
      assert h(m, r) == h(a(r), r);
    }
    PagesBetween(h, a, m, b, Reviews, e.reviews);
    PagesBetween(h, a, m, b, ReviewComments, e.reviewComments);
    PagesBetween(h, a, m, b, IssueComments, e.comments);
    PagesBetween(h, a, m, b, Events, e.events);
    PagesBetween(h, a, m, b, Reactions, e.reactions);
    EnvelopeBetween(h, a, m, b, Checks(e.pull.head), e.checks);
    CiBetween(h, a, m, b, e.pull, plausible, e.ci);
  }

  // ---- Main results ---------------------------------------------------------------------------------

  /** Revalidated evidence is a snapshot: at every instant between the two rounds, one atomic reading
      of the whole server would have returned it - under every interleaving of server changes, even
      changes between the pages of a listing. */
  lemma RevalidatedIsSnapshot(h: History, a: Schedule, m: nat, b: Schedule, number: int,
                              plausible: Plausible, e: Evidence)
    requires NoReturn(h) && HonoursPages(h) && Between(a, m, b)
    requires Revalidated(h, a, b, number, plausible, e)
    ensures Collect(h, Instant(m), e.pull, plausible) == Resolved(e)
  {
    CollectParts(h, a, plausible, e);
    CollectParts(h, b, plausible, e);
    CollectParts(h, Instant(m), plausible, e);
    PartsBetween(h, a, m, b, plausible, e);
  }

  // ---- The collector's own comparison ---------------------------------------------------------------------

  /** The entries of `collection_errors` that a completed collection can report. */
  datatype Trouble =
    | WrongSubject | ReviewsChanged | CycleChanged | ReactionsChanged | ChecksChanged | ProvenanceChanged | IdentityChanged

  datatype Checked = Checked(evidence: Evidence, errors: seq<Trouble>)

  function Note(errors: seq<Trouble>, t: Trouble, changed: bool): seq<Trouble> {
    if changed then errors + [t] else errors
  }

  /** The errors of a second round that could be read: each is noted, in this order, exactly when its
      surfaces do not read the same again. */
  ghost function Troubles(h: History, second: Schedule, number: int, plausible: Plausible, e: Evidence): seq<Trouble> {
    var subject := Note([], WrongSubject, e.pull.repo == "" || e.pull.number != number);
    var reviews := Note(subject, ReviewsChanged,
      ReadPages(h, second, Reviews) != Resolved(e.reviews) || ReadPages(h, second, ReviewComments) != Resolved(e.reviewComments));
    var cycle := Note(reviews, CycleChanged,
      ReadPages(h, second, IssueComments) != Resolved(e.comments) || ReadPages(h, second, Events) != Resolved(e.events));
    var reactions := Note(cycle, ReactionsChanged, ReadPages(h, second, Reactions) != Resolved(e.reactions));
    var checks := Note(reactions, ChecksChanged, ReadEnvelope(h, second, Checks(e.pull.head)) != Resolved(e.checks));
    var ci := Note(checks, ProvenanceChanged, !CiShown(h, second, e.pull, plausible, e.ci));
    Note(ci, IdentityChanged, h(second(PullRequest), PullRequest) != PullAnswer(e.pull))
  }

  /** The second reading of two listings that one statement compares: the second is only read when the
      first agrees. */
  method SamePair(h: History, at: Schedule, l: Listed, k: Listed, xs: seq<Item>, ys: seq<Item>) returns (same: Outcome<bool>)
    ensures same == Resolved(true) <==> ReadPages(h, at, l) == Resolved(xs) && ReadPages(h, at, k) == Resolved(ys)
  {
    var again := PagesAll(Reader(h, at, l));
    if again.Refused? {
      return Refused;
    }
    if again.value != xs {
      return Resolved(false);
    }
    again := PagesAll(Reader(h, at, k));
    if again.Refused? {
      return Refused;
    }
    same := Resolved(again.value == ys);
  }

  /** The second round of `_collect`, in its order: what was reported, with the errors it noted, or
      `Refused` when a read failed. */
  method Revalidate(h: History, second: Schedule, number: int, plausible: Plausible, e: Evidence) returns (checked: Outcome<Checked>)
    ensures checked == Resolved(Checked(e, [])) <==> e.pull.repo != "" && e.pull.number == number && Parts(h, second, plausible, e)
    ensures checked.Resolved? ==> checked.value.evidence == e && checked.value.errors == Troubles(h, second, number, plausible, e)
  {
    hide Pages, EnvelopePages, Reader, CollectCi, CiShown;
    CiIff(h, second, e.pull, plausible, e.ci);
    var errors := [];
    errors := Note(errors, WrongSubject, e.pull.repo == "" || e.pull.number != number);
    var same := SamePair(h, second, Reviews, ReviewComments, e.reviews, e.reviewComments);
    if same.Refused? {
      return Refused;
    }
    errors := Note(errors, ReviewsChanged, !same.value);
    same := SamePair(h, second, IssueComments, Events, e.comments, e.events);
    if same.Refused? {
      return Refused;
    }
    errors := Note(errors, CycleChanged, !same.value);
    var reactions := PagesAll(Reader(h, second, Reactions));
    if reactions.Refused? {
      return Refused;
    }
    errors := Note(errors, ReactionsChanged, reactions.value != e.reactions);
    var checks := EnvelopeAll(Reader(h, second, Checks(e.pull.head)));
    if checks.Refused? {
      return Refused;
    }
    errors := Note(errors, ChecksChanged, checks.value != e.checks);
    var ci := CollectCi(h, second, e.pull, plausible);
    if ci.Refused? {
      return Refused;
    }
    errors := Note(errors, ProvenanceChanged, ci.value != e.ci);
    var pull := PullAt(h, second);
    if pull.Refused? {
      return Refused;
    }
    errors := Note(errors, IdentityChanged, pull.value != e.pull);
    checked := Resolved(Checked(e, errors));
  }

  /** Both rounds: an answer without errors is exactly revalidated evidence. */
  method CollectTwice(h: History, first: Schedule, second: Schedule, number: int, plausible: Plausible)
    returns (checked: Outcome<Checked>)
    ensures forall e :: checked == Resolved(Checked(e, [])) <==> Revalidated(h, first, second, number, plausible, e)
    ensures checked.Resolved? ==>
      && Collect(h, first, checked.value.evidence.pull, plausible) == Resolved(checked.value.evidence)
      && checked.value.errors == Troubles(h, second, number, plausible, checked.value.evidence)
  {
    hide CollectCi, ReadPages, ReadEnvelope, Troubles;
    var pull := PullAt(h, first);
    if pull.Refused? {
      return Refused;
    }
    var evidence := Collect(h, first, pull.value, plausible);
    if evidence.Refused? {
      return Refused;
    }
    CollectParts(h, second, plausible, evidence.value);
    checked := Revalidate(h, second, number, plausible, evidence.value);
  }

  // ---- Why the no-return assumption is there ----------------------------------------------------------

  function OneItem(id: int): Response {
    Listing(0, [Object(Item(id, 1, "", ""))])
  }

  function Parity(t: nat): int {
    1 + t % 2
  }

  /** Two listings that flip together: reviews alternate 1, 2 and events alternate 11, 12, in step. */
  function Flipping(t: nat, r: Request): Answer {
    match r
    case PullRequest => PullAnswer(Pull(1, "r", "open", false, false, "h", "b"))
    case RunRequest(_) => RunAnswer(None)
    case PageRequest(l, page) =>
      if page == 1 && l == Reviews then PageAnswer(OneItem(Parity(t)))
      else if page == 1 && l == Events then PageAnswer(OneItem(10 + Parity(t)))
      else PageAnswer(Listing(0, []))
  }

  /** Reviews read at instant `t`, events one instant later. */
  function Skewed(t: nat): Schedule {
    (r: Request) => if r.PageRequest? && r.listed == Events then t + 1 else t
  }

  function SkewedEvidence(): Evidence {
    Evidence(Pull(1, "r", "open", false, false, "h", "b"), [Item(1, 1, "", "")], [], [], [Item(12, 1, "", "")], [], [],
             CanonicalCi([], None, []))
  }

  lemma SinglePage(get: nat -> Response, x: Item)
    requires get(1) == Listing(0, [Object(x)])
    ensures Pages(get, 1, []) == Resolved([x])
  {
    var entries := [Object(x)];
    assert entries[1..] == [];
    assert Objects(entries) == [x] && [] + [x] == [x];
  }

  lemma EmptyPage(get: nat -> Response)
    requires get(1) == Listing(0, [])
    ensures Pages(get, 1, []) == Resolved([]) && EnvelopePages(get, 1, [], None) == Resolved([])
  {
    var none: seq<Item> := [];
    assert Objects([]) == none && none + none == none;
  }

  lemma SkewedReads(t: nat)
    requires t % 2 == 0
    ensures Collect(Flipping, Skewed(t), SkewedEvidence().pull, (p, i) => false) == Resolved(SkewedEvidence())
  {
    hide Pages, EnvelopePages;
    var at := Skewed(t);
    SinglePage(Reader(Flipping, at, Reviews), Item(1, 1, "", ""));
    assert Parity(t + 1) == 2;
    SinglePage(Reader(Flipping, at, Events), Item(12, 1, "", ""));
    EmptyPage(Reader(Flipping, at, ReviewComments));
    EmptyPage(Reader(Flipping, at, IssueComments));
    EmptyPage(Reader(Flipping, at, Reactions));
    EmptyPage(Reader(Flipping, at, Checks("h")));
    EmptyPage(Reader(Flipping, at, Runs("h")));
  }

  lemma FlippingReads(m: nat)
    ensures ReadPages(Flipping, Instant(m), Reviews) == Resolved([Item(Parity(m), 1, "", "")])
    ensures ReadPages(Flipping, Instant(m), Events) == Resolved([Item(10 + Parity(m), 1, "", "")])
  {
    SinglePage(Reader(Flipping, Instant(m), Reviews), Item(Parity(m), 1, "", ""));
    SinglePage(Reader(Flipping, Instant(m), Events), Item(10 + Parity(m), 1, "", ""));
  }

  /** Without the assumption the double read proves nothing: surfaces that flip back can agree twice
      although no instant, in the window or anywhere, ever showed the reported values together. */
  lemma FlippingBreaksSnapshot(m: nat)
    ensures Revalidated(Flipping, Skewed(0), Skewed(2), 1, (p, i) => false, SkewedEvidence())
    ensures HonoursPages(Flipping) && Between(Skewed(0), 1, Skewed(2))
    ensures Collect(Flipping, Instant(m), SkewedEvidence().pull, (p, i) => false) != Resolved(SkewedEvidence())
  {
    SkewedReads(0);
    SkewedReads(2);
    CollectParts(Flipping, Instant(m), (p, i) => false, SkewedEvidence());
    FlippingReads(m);
  }
}
