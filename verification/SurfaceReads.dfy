/** The double read against a server described surface by surface: every page is a slice of the listing
    the server holds at that instant. Which evidence can be trusted when all that is known is that no
    surface returns to an earlier value - exactly the evidence whose listings fit on one page. */
module SurfaceReads {
  import opened Outcomes
  import opened Pagination
  import opened DoubleCollect

  /** What the server holds at one instant. */
  datatype Surfaces = Surfaces(pull: Pull, listing: Listed -> seq<Item>, run: int -> Option<Item>)

  type Server = nat -> Surfaces

  /** The count a listing's pages carry. */
  function Declared(l: Listed, xs: seq<Item>): int {
    if Bare(l) then 0 else |xs|
  }

  function AnswerOf(s: Surfaces, r: Request): Answer {
    match r
    case PullRequest => PullAnswer(s.pull)
    case RunRequest(id) => RunAnswer(s.run(id))
    case PageRequest(l, p) => PageAnswer(Serve(s.listing(l), Declared(l, s.listing(l)))(p))
  }

  function Serving(srv: Server): History {
    (t: nat, r: Request) => AnswerOf(srv(t), r)
  }

  /** No surface comes back to an earlier value after it changed. */
  ghost predicate SurfacesNeverReturn(srv: Server) {
    forall i: nat, j: nat, k: nat {:trigger srv(i), srv(j), srv(k)} :: i <= j <= k ==>
      && (srv(i).pull == srv(k).pull ==> srv(j).pull == srv(i).pull)
      && (forall l :: srv(i).listing(l) == srv(k).listing(l) ==> srv(j).listing(l) == srv(i).listing(l))
      && (forall id :: srv(i).run(id) == srv(k).run(id) ==> srv(j).run(id) == srv(i).run(id))
  }

  /** A listing of which one page shows everything: a bare array says so by being short, an envelope by
      its count. */
  predicate Fits(l: Listed, xs: seq<Item>) {
    if Bare(l) then |xs| < PAGE_SIZE else |xs| <= PAGE_SIZE
  }

  datatype Surface = Surface(listed: Listed, items: seq<Item>)

  /** The listings a collection reports. */
  function Listings(e: Evidence): seq<Surface> {
    [Surface(Reviews, e.reviews), Surface(ReviewComments, e.reviewComments), Surface(IssueComments, e.comments),
     Surface(Events, e.events), Surface(Reactions, e.reactions), Surface(Checks(e.pull.head), e.checks),
     Surface(Runs(e.pull.head), e.ci.runs)]
    + (if e.ci.run.Some? then [Surface(Jobs(e.ci.run.value.id, e.ci.run.value.attempt), e.ci.jobs)] else [])
  }

  predicate OnePage(e: Evidence) {
    forall x :: x in Listings(e) ==> Fits(x.listed, x.items)
  }

  // ---- One listing -------------------------------------------------------------------------------

  /** Reading one listing with its own reader. */
  function ReadListing(h: History, at: Schedule, l: Listed): Outcome<seq<Item>> {
    if Bare(l) then ReadPages(h, at, l) else ReadEnvelope(h, at, l)
  }

  lemma ServedAt(srv: Server, at: Schedule, l: Listed, p: nat)
    ensures var xs := srv(at(PageRequest(l, p))).listing(l); PageOf(Serving(srv), at, l, p) == Serve(xs, Declared(l, xs))(p)
  {}

  lemma FirstPage(xs: seq<Item>, total: int)
    ensures Serve(xs, total)(1).Listing? && Serve(xs, total)(1).total == total
    ensures Objects(Serve(xs, total)(1).entries) == xs[..Least(PAGE_SIZE, |xs|)]
    ensures |Serve(xs, total)(1).entries| == Least(PAGE_SIZE, |xs|)
  {
    ObjectsOfWrap(Slice(xs, 1));
  }

  lemma PagesLength(get: nat -> Response, page: nat, items: seq<Item>)
    requires Pages(get, page, items).Resolved?
    ensures page <= GUARD_PAGES && get(page).Listing? && items + Objects(get(page).entries) <= Pages(get, page, items).value
    ensures |get(page).entries| < PAGE_SIZE ==> Pages(get, page, items).value == items + Objects(get(page).entries)
  {
    if |get(page).entries| >= PAGE_SIZE { PagesExtend(get, page + 1, items + Objects(get(page).entries)); }
  }

  /** A listing that fits on one page and was read as `xs` was `xs` when its first page was read. */
  lemma ShortRead(srv: Server, at: Schedule, l: Listed, xs: seq<Item>)
    requires ReadListing(Serving(srv), at, l) == Resolved(xs) && Fits(l, xs)
    ensures srv(at(PageRequest(l, 1))).listing(l) == xs
  {
    var ys, get := srv(at(PageRequest(l, 1))).listing(l), Reader(Serving(srv), at, l);
    ServedAt(srv, at, l, 1);
    FirstPage(ys, Declared(l, ys));
    if !Bare(l) {
      EnvelopeIsPages(get, 1, [], None);
      EnvelopeTotals(get, 1, [], None, xs);
    }
    PagesLength(get, 1, []);
    var first := ys[..Least(PAGE_SIZE, |ys|)];
    assert [] + first == first;
    assert first <= xs;
  }

  lemma {:induction false} PagesSame(f: nat -> Response, g: nat -> Response, page: nat, items: seq<Item>)
    requires forall p: nat :: f(p) == g(p)
    ensures Pages(f, page, items) == Pages(g, page, items)
    decreases GUARD_PAGES + 1 - page
  {
    assert f(page) == g(page);
    if page <= GUARD_PAGES && f(page).Listing? { PagesSame(f, g, page + 1, items + Objects(f(page).entries)); }
  }

  lemma {:induction false} EnvelopeSame(f: nat -> Response, g: nat -> Response, page: nat, items: seq<Item>, expected: Option<int>)
    requires forall p: nat :: f(p) == g(p)
    ensures EnvelopePages(f, page, items, expected) == EnvelopePages(g, page, items, expected)
    decreases GUARD_PAGES + 1 - page
  {
    assert f(page) == g(page);
    if page <= GUARD_PAGES && f(page).Listing? {
      EnvelopeSame(f, g, page + 1, items + Objects(f(page).entries), Some(f(page).total));
    }
  }

  /** What one atomic reading of a listing returns. */
  lemma AtomicRead(srv: Server, m: nat, l: Listed)
    ensures var xs := srv(m).listing(l);
      ReadListing(Serving(srv), Instant(m), l)
        == if |xs| < 2000 && DistinctIds(xs) && (Bare(l) || PositiveIds(xs)) then Resolved(xs) else Refused
  {
    var xs := srv(m).listing(l);
    var f, g := Reader(Serving(srv), Instant(m), l), Serve(xs, Declared(l, xs));
    assert forall p: nat :: f(p) == g(p);
    if Bare(l) {
      PagesSame(f, g, 1, []);
      PagesExact(xs, 0);
    } else {
      EnvelopeSame(f, g, 1, [], None);
      EnvelopeExact(xs, |xs|);
    }
  }

  lemma {:induction false} ReadValid(get: nat -> Response, page: nat, items: seq<Item>, expected: Option<int>)
    requires EnvelopePages(get, page, items, expected).Resolved? && PositiveIds(items)
    ensures PositiveIds(EnvelopePages(get, page, items, expected).value)
    decreases GUARD_PAGES + 1 - page
  {
    var more := items + Objects(get(page).entries);
    assert PositiveIds(more);
    if |get(page).entries| >= PAGE_SIZE { ReadValid(get, page + 1, more, Some(get(page).total)); }
  }

  lemma {:induction false} ReadDistinct(get: nat -> Response, page: nat, items: seq<Item>)
    requires Pages(get, page, items).Resolved?
    ensures DistinctIds(Pages(get, page, items).value)
    decreases GUARD_PAGES + 1 - page
  {
    if |get(page).entries| >= PAGE_SIZE { ReadDistinct(get, page + 1, items + Objects(get(page).entries)); }
  }

  lemma ListingValid(h: History, at: Schedule, l: Listed, xs: seq<Item>)
    requires ReadListing(h, at, l) == Resolved(xs)
    ensures DistinctIds(xs) && (Bare(l) || PositiveIds(xs))
  {
    var get := Reader(h, at, l);
    if !Bare(l) {
      EnvelopeIsPages(get, 1, [], None);
      ReadValid(get, 1, [], None);
    }
    ReadDistinct(get, 1, []);
  }

  /** Short listings that read the same twice were held at every instant in between. */
  lemma ShortBetween(srv: Server, a: Schedule, m: nat, b: Schedule, l: Listed, xs: seq<Item>)
    requires SurfacesNeverReturn(srv) && Between(a, m, b) && Fits(l, xs)
    requires ReadListing(Serving(srv), a, l) == Resolved(xs) && ReadListing(Serving(srv), b, l) == Resolved(xs)
    ensures srv(m).listing(l) == xs && ReadListing(Serving(srv), Instant(m), l) == Resolved(xs)
  {
    hide ReadListing;
    ShortRead(srv, a, l, xs);
    ShortRead(srv, b, l, xs);
    var r := PageRequest(l, 1);
    assert a(r) <= m <= b(r);
    assert srv(a(r)).listing(l) == srv(b(r)).listing(l) && srv(m).listing(l) == xs;
    ListingValid(Serving(srv), a, l, xs);
    AtomicRead(srv, m, l);
  }

  // ---- All surfaces ------------------------------------------------------------------------------

  lemma RunsRead(h: History, at: Schedule, plausible: Plausible, e: Evidence)
    requires CollectCi(h, at, e.pull, plausible) == Resolved(e.ci)
    ensures ReadEnvelope(h, at, Runs(e.pull.head)) == Resolved(e.ci.runs)
  {
    hide ReadEnvelope, RunAt;
  }

  lemma JobsRead(h: History, at: Schedule, plausible: Plausible, e: Evidence)
    requires CollectCi(h, at, e.pull, plausible) == Resolved(e.ci) && e.ci.run.Some?
    ensures ReadEnvelope(h, at, Jobs(e.ci.run.value.id, e.ci.run.value.attempt)) == Resolved(e.ci.jobs)
  {
    hide ReadEnvelope, RunAt;
  }

  lemma PartReads(h: History, at: Schedule, plausible: Plausible, e: Evidence, x: Surface)
    requires Parts(h, at, plausible, e) && x in Listings(e)
    ensures ReadListing(h, at, x.listed) == Resolved(x.items)
  {
    hide ReadPages, ReadEnvelope;
    if e.ci.run.Some? { JobsRead(h, at, plausible, e); }
    RunsRead(h, at, plausible, e);
  }

  lemma PartSingles(h: History, at: Schedule, plausible: Plausible, e: Evidence)
    requires Parts(h, at, plausible, e)
    ensures PullAt(h, at) == Resolved(e.pull) && CollectCi(h, at, e.pull, plausible) == Resolved(e.ci)
  {
    hide ReadPages, ReadEnvelope, CollectCi, PullAt;
  }

  lemma PartsFrom(h: History, at: Schedule, plausible: Plausible, e: Evidence)
    requires PullAt(h, at) == Resolved(e.pull)
    requires forall x :: x in Listings(e) ==> ReadListing(h, at, x.listed) == Resolved(x.items)
    requires CollectCi(h, at, e.pull, plausible) == Resolved(e.ci)
    ensures Parts(h, at, plausible, e)
  {
    hide CollectCi, ReadPages, ReadEnvelope;
    var xs := Listings(e);
    assert xs[0] in xs && xs[1] in xs && xs[2] in xs && xs[3] in xs && xs[4] in xs && xs[5] in xs;
  }

  lemma CiListings(h: History, at: Schedule, e: Evidence)
    requires forall x :: x in Listings(e) ==> ReadListing(h, at, x.listed) == Resolved(x.items)
    ensures ReadEnvelope(h, at, Runs(e.pull.head)) == Resolved(e.ci.runs)
    ensures e.ci.run.Some? ==> ReadEnvelope(h, at, Jobs(e.ci.run.value.id, e.ci.run.value.attempt)) == Resolved(e.ci.jobs)
  {
    hide ReadPages, ReadEnvelope;
    var xs := Listings(e);
    assert xs[6] in xs;
    if e.ci.run.Some? { assert xs[7] in xs; }
  }

  /** The reported run is the one plausible candidate of the reported runs. */
  lemma RunIsItsOwn(h: History, at: Schedule, plausible: Plausible, e: Evidence)
    requires CollectCi(h, at, e.pull, plausible) == Resolved(e.ci)
    ensures e.ci.run.Some? <==> |Filter(e.ci.runs, (r: Item) => plausible(e.pull, r))| == 1
    ensures e.ci.run.None? ==> e.ci.jobs == []
    ensures e.ci.run.Some? ==>
      var run, candidate := e.ci.run.value, Filter(e.ci.runs, (r: Item) => plausible(e.pull, r))[0];
      && RunAt(h, at, run.id) == Resolved(run)
      && (run.id, run.attempt, run.fields) == (candidate.id, candidate.attempt, candidate.fields)
  {
    hide ReadEnvelope, RunAt;
  }

  lemma CiFrom(h: History, at: Schedule, other: Schedule, plausible: Plausible, e: Evidence)
    requires CollectCi(h, other, e.pull, plausible) == Resolved(e.ci)
    requires forall x :: x in Listings(e) ==> ReadListing(h, at, x.listed) == Resolved(x.items)
    requires e.ci.run.Some? ==> RunAt(h, at, e.ci.run.value.id) == Resolved(e.ci.run.value)
    ensures CollectCi(h, at, e.pull, plausible) == Resolved(e.ci)
  {
    hide ReadPages, Pages, EnvelopePages, Reader, RunAt, ReadEnvelope;
    CiListings(h, at, e);
    var candidates := Filter(e.ci.runs, (r: Item) => plausible(e.pull, r));
    RunIsItsOwn(h, other, plausible, e);
  }

  /** The pull request and the selected run are read whole. */
  lemma PullBetween(srv: Server, a: Schedule, m: nat, b: Schedule, pull: Pull)
    requires SurfacesNeverReturn(srv) && Between(a, m, b)
    requires PullAt(Serving(srv), a) == Resolved(pull) && PullAt(Serving(srv), b) == Resolved(pull)
    ensures PullAt(Serving(srv), Instant(m)) == Resolved(pull) && srv(m).pull == pull
  {
    var r := PullRequest;
    assert a(r) <= m <= b(r);
    assert srv(a(r)).pull == srv(b(r)).pull && srv(m).pull == pull;
  }

  lemma RunBetween(srv: Server, a: Schedule, m: nat, b: Schedule, run: Item)
    requires SurfacesNeverReturn(srv) && Between(a, m, b)
    requires RunAt(Serving(srv), a, run.id) == Resolved(run) && RunAt(Serving(srv), b, run.id) == Resolved(run)
    ensures RunAt(Serving(srv), Instant(m), run.id) == Resolved(run)
  {
    var r := RunRequest(run.id);
    assert a(r) <= m <= b(r);
    assert srv(a(r)).run(run.id) == srv(b(r)).run(run.id) && srv(m).run(run.id) == Some(run);
  }

  /** Evidence whose listings fit on one page each is a snapshot as soon as no surface returns: at every
      instant between the rounds the server held all of it. */
  lemma OnePageIsSnapshot(srv: Server, a: Schedule, m: nat, b: Schedule, number: int, plausible: Plausible, e: Evidence)
    requires SurfacesNeverReturn(srv) && Between(a, m, b) && OnePage(e)
    requires Revalidated(Serving(srv), a, b, number, plausible, e)
    ensures Collect(Serving(srv), Instant(m), e.pull, plausible) == Resolved(e)
    ensures srv(m).pull == e.pull && forall x :: x in Listings(e) ==> srv(m).listing(x.listed) == x.items
  {
    hide Collect, Parts, CollectCi, ReadListing, Listings, Fits;
    var h := Serving(srv);
    CollectParts(h, a, plausible, e);
    CollectParts(h, b, plausible, e);
    forall x | x in Listings(e) ensures srv(m).listing(x.listed) == x.items && ReadListing(h, Instant(m), x.listed) == Resolved(x.items) {
      PartReads(h, a, plausible, e, x);
      PartReads(h, b, plausible, e, x);
      ShortBetween(srv, a, m, b, x.listed, x.items);
    }
    PartSingles(h, a, plausible, e);
    PartSingles(h, b, plausible, e);
    PullBetween(srv, a, m, b, e.pull);
    if e.ci.run.Some? {
      RunIsItsOwn(h, a, plausible, e);
      RunIsItsOwn(h, b, plausible, e);
      RunBetween(srv, a, m, b, e.ci.run.value);
    }
    CiFrom(h, Instant(m), a, plausible, e);
    PartsFrom(h, Instant(m), plausible, e);
    CollectParts(h, Instant(m), plausible, e);
  }

  // ---- A listing of two pages ----------------------------------------------------------------------

  /** An item whose body was edited `k` times. */
  function Edited(i: Item, k: nat): Item {
    i.(body := i.body + seq(k, n => 'x'))
  }

  function Later(xs: seq<Item>, k: nat): seq<Item>
    requires |xs| >= PAGE_SIZE
  {
    if |xs| == PAGE_SIZE then seq(k, n => xs[0]) else [Edited(xs[PAGE_SIZE], k)] + xs[PAGE_SIZE + 1..]
  }

  /** Four versions of a listing: before the first reading of its second page the later pages differ from
      what is reported, and before the next reading of the first page, the first page does. */
  function Version(xs: seq<Item>, t: nat): seq<Item>
    requires |xs| >= PAGE_SIZE
  {
    if t == 0 then xs[..PAGE_SIZE] + Later(xs, 1)
    else if t == 1 then [Edited(xs[0], 1)] + xs[1..]
    else if t == 2 then xs[..PAGE_SIZE] + Later(xs, 2)
    else [Edited(xs[0], 2)] + xs[1..]
  }

  function Phase(t: nat): nat {
    if t < 3 then t else 3
  }

  lemma EditsDiffer(i: Item, j: nat, k: nat)
    requires j != k
    ensures Edited(i, j) != Edited(i, k) && (j > 0 ==> Edited(i, j) != i)
  {
    assert |Edited(i, j).body| == |i.body| + j && |Edited(i, k).body| == |i.body| + k;
  }

  lemma VersionsDiffer(xs: seq<Item>, t: nat, u: nat)
    requires |xs| >= PAGE_SIZE && t < u <= 3
    ensures Version(xs, t) != Version(xs, u)
  {
    EditsDiffer(xs[0], 1, 2);
    EditsDiffer(xs[0], 2, 1);
    if |xs| > PAGE_SIZE { EditsDiffer(xs[PAGE_SIZE], 1, 2); }
    var v, w := Version(xs, t), Version(xs, u);
    if t == 0 && u == 2 {
      assert |xs| > PAGE_SIZE ==> v[PAGE_SIZE] == Edited(xs[PAGE_SIZE], 1) && w[PAGE_SIZE] == Edited(xs[PAGE_SIZE], 2);
    } else {
      assert v[0] != w[0];
    }
  }

  lemma VersionsNew(xs: seq<Item>, t: nat)
    requires |xs| >= PAGE_SIZE
    ensures Version(xs, t) != xs
  {
    EditsDiffer(xs[0], 1, 2);
    EditsDiffer(xs[0], 2, 1);
    var v := Version(xs, t);
    if t == 1 || t > 2 {
      assert v[0] != xs[0];
    } else if |xs| > PAGE_SIZE {
      EditsDiffer(xs[PAGE_SIZE], if t == 0 then 1 else 2, 3);
      assert v[PAGE_SIZE] != xs[PAGE_SIZE];
    } else {
      assert |v| > |xs|;
    }
  }

  lemma FirstPageKept(xs: seq<Item>, t: nat, l: Listed)
    requires !Fits(l, xs) && (t == 0 || t == 2)
    ensures Serve(Version(xs, t), Declared(l, Version(xs, t)))(1) == Serve(xs, Declared(l, xs))(1)
  {
    var v := Version(xs, t);
    assert Slice(v, 1) == Slice(xs, 1);
  }

  lemma LaterPagesKept(xs: seq<Item>, t: nat, l: Listed, p: nat)
    requires !Fits(l, xs) && (t == 1 || t == 3) && p != 1
    ensures Serve(Version(xs, t), Declared(l, Version(xs, t)))(p) == Serve(xs, Declared(l, xs))(p)
  {
    var v := Version(xs, t);
    assert |v| == |xs|;
    if p > 1 {
      assert PAGE_SIZE * (p - 1) >= 1;
      assert Slice(v, p) == Slice(xs, p);
    }
  }

  /** The server that goes through the versions of one listing and changes nothing else. */
  function Drifting(s: Surfaces, l: Listed): Server
    requires |s.listing(l)| >= PAGE_SIZE
  {
    (t: nat) => s.(listing := (k: Listed) => if k == l then Version(s.listing(l), Phase(t)) else s.listing(k))
  }

  lemma VersionSteady(xs: seq<Item>, i: nat, j: nat, k: nat)
    requires |xs| >= PAGE_SIZE && i <= j <= k && Version(xs, Phase(i)) == Version(xs, Phase(k))
    ensures Version(xs, Phase(j)) == Version(xs, Phase(i))
  {
    hide Version;
    if Phase(i) < Phase(k) { VersionsDiffer(xs, Phase(i), Phase(k)); }
  }

  lemma DriftingSteady(s: Surfaces, l: Listed, i: nat, j: nat, k: nat, q: Listed)
    requires |s.listing(l)| >= PAGE_SIZE && i <= j <= k
    requires Drifting(s, l)(i).listing(q) == Drifting(s, l)(k).listing(q)
    ensures Drifting(s, l)(j).listing(q) == Drifting(s, l)(i).listing(q)
  {
    hide Version, Phase;
    if q == l { VersionSteady(s.listing(l), i, j, k); }
  }

  lemma DriftingSingles(s: Surfaces, l: Listed, i: nat, j: nat)
    requires |s.listing(l)| >= PAGE_SIZE
    ensures Drifting(s, l)(i).pull == Drifting(s, l)(j).pull && Drifting(s, l)(i).run == Drifting(s, l)(j).run
  {}

  lemma DriftingNeverReturns(s: Surfaces, l: Listed)
    requires |s.listing(l)| >= PAGE_SIZE
    ensures SurfacesNeverReturn(Drifting(s, l))
  {
    hide Drifting;
    var srv := Drifting(s, l);
    forall i: nat, j: nat, k: nat | i <= j <= k
      ensures (srv(i).pull == srv(k).pull ==> srv(j).pull == srv(i).pull)
        && (forall q :: srv(i).listing(q) == srv(k).listing(q) ==> srv(j).listing(q) == srv(i).listing(q))
        && (forall id :: srv(i).run(id) == srv(k).run(id) ==> srv(j).run(id) == srv(i).run(id))
    {
      DriftingSingles(s, l, i, j);
      forall q | srv(i).listing(q) == srv(k).listing(q) ensures srv(j).listing(q) == srv(i).listing(q) {
        DriftingSteady(s, l, i, j, k, q);
      }
    }
  }

  /** Where a listing comes in the collector's order. */
  function Turn(l: Listed): nat {
    match l
    case Reviews => 0
    case ReviewComments => 1
    case IssueComments => 2
    case Events => 3
    case Reactions => 4
    case Checks(_) => 5
    case Runs(_) => 6
    case Jobs(_, _) => 8
  }

  /** Requests of a round made no later than the first page of `l`; the second round asks for the pull
      request last. */
  predicate UpToFirstPage(r: Request, l: Listed, pullFirst: bool) {
    match r
    case PullRequest => pullFirst
    case RunRequest(_) => 7 < Turn(l)
    case PageRequest(k, p) => if k == l then p <= 1 else Turn(k) < Turn(l)
  }

  /** One round whose first page of `l` is read at `t` and whose later requests come one instant later. */
  function Straddling(l: Listed, t: nat, pullFirst: bool): Schedule {
    (r: Request) => if UpToFirstPage(r, l, pullFirst) then t else t + 1
  }

  lemma LongEnough(l: Listed, xs: seq<Item>)
    ensures !Fits(l, xs) ==> |xs| >= PAGE_SIZE
  {}

  lemma NoPageZero(xs: seq<Item>, total: int)
    ensures Serve(xs, total)(0) == NotListing
  {}

  lemma StraddledPage(s: Surfaces, l: Listed, t: nat, p: nat)
    requires !Fits(l, s.listing(l)) && (t == 0 || t == 2)
    ensures AnswerOf(Drifting(s, l)(if p <= 1 then t else t + 1), PageRequest(l, p)) == AnswerOf(s, PageRequest(l, p))
  {
    hide Version, Serve, Fits;
    var xs := s.listing(l);
    LongEnough(l, xs);
    if p == 0 {
      NoPageZero(xs, Declared(l, xs));
      NoPageZero(Version(xs, t), Declared(l, Version(xs, t)));
    } else if p == 1 {
      FirstPageKept(xs, t, l);
    } else {
      LaterPagesKept(xs, t + 1, l, p);
    }
  }

  lemma StraddlingAnswers(s: Surfaces, l: Listed, t: nat, pullFirst: bool, r: Request)
    requires !Fits(l, s.listing(l)) && (t == 0 || t == 2)
    ensures Serving(Drifting(s, l))(Straddling(l, t, pullFirst)(r), r) == AnswerOf(s, r)
  {
    hide Version, Serve, Turn, Phase;
    if r.PageRequest? && r.listed == l { StraddledPage(s, l, t, r.page); }
  }

  // ---- Reading the same answers ------------------------------------------------------------------

  ghost predicate SameAnswers(h: History, at: Schedule, g: History, when: Schedule) {
    forall r :: h(at(r), r) == g(when(r), r)
  }

  lemma ReadersSame(h: History, at: Schedule, g: History, when: Schedule, l: Listed)
    requires SameAnswers(h, at, g, when)
    ensures forall p: nat :: Reader(h, at, l)(p) == Reader(g, when, l)(p)
  {
    forall p: nat ensures PageOf(h, at, l, p) == PageOf(g, when, l, p) {
      var r := PageRequest(l, p);
      assert h(at(r), r) == g(when(r), r);
    }
  }

  lemma ListingsSame(h: History, at: Schedule, g: History, when: Schedule, l: Listed)
    requires SameAnswers(h, at, g, when)
    ensures ReadListing(h, at, l) == ReadListing(g, when, l)
  {
    ReadersSame(h, at, g, when, l);
    PagesSame(Reader(h, at, l), Reader(g, when, l), 1, []);
    EnvelopeSame(Reader(h, at, l), Reader(g, when, l), 1, [], None);
  }

  lemma CiSame(h: History, at: Schedule, g: History, when: Schedule, plausible: Plausible, e: Evidence)
    requires SameAnswers(h, at, g, when) && CollectCi(h, at, e.pull, plausible) == Resolved(e.ci)
    ensures CollectCi(g, when, e.pull, plausible) == Resolved(e.ci)
  {
    hide Pages, EnvelopePages, ReadPages;
    ListingsSame(h, at, g, when, Runs(e.pull.head));
    if e.ci.run.Some? {
      ListingsSame(h, at, g, when, Jobs(e.ci.run.value.id, e.ci.run.value.attempt));
      var r := RunRequest(e.ci.run.value.id);
      assert h(at(r), r) == g(when(r), r);
    }
  }

  lemma CollectSame(h: History, at: Schedule, g: History, when: Schedule, plausible: Plausible, e: Evidence)
    requires SameAnswers(h, at, g, when) && Collect(h, at, e.pull, plausible) == Resolved(e)
    ensures Collect(g, when, e.pull, plausible) == Resolved(e)
  {
    hide Collect, Parts, CollectCi, ReadListing, Listings;
    CollectParts(h, at, plausible, e);
    PartSingles(h, at, plausible, e);
    assert PullAt(g, when) == Resolved(e.pull) by { assert h(at(PullRequest), PullRequest) == g(when(PullRequest), PullRequest); }
    forall x | x in Listings(e) ensures ReadListing(g, when, x.listed) == Resolved(x.items) {
      PartReads(h, at, plausible, e, x);
      ListingsSame(h, at, g, when, x.listed);
    }
    CiSame(h, at, g, when, plausible, e);
    PartsFrom(g, when, plausible, e);
    CollectParts(g, when, plausible, e);
  }

  // ---- Main results ----------------------------------------------------------------------------------

  /** `s` shows `e` to an atomic reading. */
  ghost predicate Shows(s: Surfaces, plausible: Plausible, e: Evidence) {
    Collect(Serving((t: nat) => s), Instant(0), e.pull, plausible) == Resolved(e)
  }

  /** No page of `k` is read after any page of `l`. */
  ghost predicate Before(at: Schedule, k: Listed, l: Listed) {
    forall p: nat, q: nat :: at(PageRequest(k, p)) <= at(PageRequest(l, q))
  }

  /** A round in the collector's own order: pages one after the other, listings in the order of its
      statements, runs before the run they select and that before its jobs, and the pull request first, or
      last when it is the second round. */
  ghost predicate ReadsInOrder(at: Schedule, head: string, pullFirst: bool) {
    && (forall l, p: nat, q: nat :: p <= q ==> at(PageRequest(l, p)) <= at(PageRequest(l, q)))
    && Before(at, Reviews, ReviewComments) && Before(at, ReviewComments, IssueComments) && Before(at, IssueComments, Events)
    && Before(at, Events, Reactions) && Before(at, Reactions, Checks(head)) && Before(at, Checks(head), Runs(head))
    && (forall p: nat, id :: at(PageRequest(Runs(head), p)) <= at(RunRequest(id)))
    && (forall id, attempt, p: nat :: at(RunRequest(id)) <= at(PageRequest(Jobs(id, attempt), p)))
    && (forall r: Request :: if pullFirst then at(PullRequest) <= at(r) else at(r) <= at(PullRequest))
  }

  lemma StraddlingBefore(l: Listed, t: nat, pullFirst: bool, k: Listed, j: Listed)
    requires Turn(k) < Turn(j)
    ensures Before(Straddling(l, t, pullFirst), k, j)
  {
    hide Turn;
  }

  lemma StraddlingRuns(l: Listed, t: nat, pullFirst: bool, head: string)
    ensures var at := Straddling(l, t, pullFirst);
      && (forall p: nat, id :: at(PageRequest(Runs(head), p)) <= at(RunRequest(id)))
      && (forall id, attempt, p: nat :: at(RunRequest(id)) <= at(PageRequest(Jobs(id, attempt), p)))
  {}

  lemma StraddlingPages(l: Listed, t: nat, pullFirst: bool)
    ensures var at := Straddling(l, t, pullFirst);
      && (forall k, p: nat, q: nat :: p <= q ==> at(PageRequest(k, p)) <= at(PageRequest(k, q)))
      && (forall r: Request :: if pullFirst then at(PullRequest) <= at(r) else at(r) <= at(PullRequest))
  {
    hide Turn;
  }

  lemma StraddlingOrdered(l: Listed, t: nat, pullFirst: bool, head: string)
    ensures ReadsInOrder(Straddling(l, t, pullFirst), head, pullFirst)
  {
    hide Straddling, Before;
    StraddlingPages(l, t, pullFirst);
    StraddlingRuns(l, t, pullFirst, head);
    StraddlingBefore(l, t, pullFirst, Reviews, ReviewComments);
    StraddlingBefore(l, t, pullFirst, ReviewComments, IssueComments);
    StraddlingBefore(l, t, pullFirst, IssueComments, Events);
    StraddlingBefore(l, t, pullFirst, Events, Reactions);
    StraddlingBefore(l, t, pullFirst, Reactions, Checks(head));
    StraddlingBefore(l, t, pullFirst, Checks(head), Runs(head));
  }

  lemma StraddlingBetween(l: Listed)
    ensures Between(Straddling(l, 0, true), 1, Straddling(l, 2, false)) && Between(Straddling(l, 0, true), 2, Straddling(l, 2, false))
  {}

  /** A listing of two pages undoes the double read although no surface ever returns: whatever evidence a
      server shows, if one of its listings does not fit on a page, some server that only moves forward
      makes both rounds agree on it and never holds it at any instant. Each round reads in the collector's
      own order. */
  lemma LongListingBreaks(s: Surfaces, number: int, plausible: Plausible, e: Evidence, x: Surface)
    returns (srv: Server, a: Schedule, b: Schedule)
    requires Shows(s, plausible, e) && e.pull.repo != "" && e.pull.number == number
    requires x in Listings(e) && !Fits(x.listed, x.items)
    ensures SurfacesNeverReturn(srv) && Between(a, 1, b) && Between(a, 2, b)
    ensures ReadsInOrder(a, e.pull.head, true) && ReadsInOrder(b, e.pull.head, false)
    ensures Revalidated(Serving(srv), a, b, number, plausible, e)
    ensures forall m :: Collect(Serving(srv), Instant(m), e.pull, plausible) != Resolved(e)
  {
    hide Collect, Parts, ReadListing, Listings, Fits, SurfacesNeverReturn, Version, Straddling, AnswerOf, ReadsInOrder;
    var l, still := x.listed, Serving((t: nat) => s);
    CollectParts(still, Instant(0), plausible, e);
    PartReads(still, Instant(0), plausible, e, x);
    AtomicRead((t: nat) => s, 0, l);
    LongEnough(l, x.items);
    srv, a, b := Drifting(s, l), Straddling(l, 0, true), Straddling(l, 2, false);
    DriftingNeverReturns(s, l);
    StraddlingBetween(l);
    StraddlingOrdered(l, 0, true, e.pull.head);
    StraddlingOrdered(l, 2, false, e.pull.head);
    forall r ensures still(Instant(0)(r), r) == Serving(srv)(a(r), r) == Serving(srv)(b(r), r) {
      StraddlingAnswers(s, l, 0, true, r);
      StraddlingAnswers(s, l, 2, false, r);
    }
    CollectSame(still, Instant(0), Serving(srv), a, plausible, e);
    CollectSame(still, Instant(0), Serving(srv), b, plausible, e);
    forall m ensures Collect(Serving(srv), Instant(m), e.pull, plausible) != Resolved(e) {
      CollectParts(Serving(srv), Instant(m), plausible, e);
      if Parts(Serving(srv), Instant(m), plausible, e) {
        PartReads(Serving(srv), Instant(m), plausible, e, x);
      }
      AtomicRead(srv, m, l);
      VersionsNew(x.items, Phase(m));
    }
  }

  /** Whenever surfaces never return, both rounds agreeing on `e` means that every instant in between
      shows it. */
  ghost predicate Trustworthy(number: int, plausible: Plausible, e: Evidence) {
    forall srv: Server, a, m, b {:trigger Serving(srv), Between(a, m, b)} ::
      (SurfacesNeverReturn(srv) && Between(a, m, b) && Revalidated(Serving(srv), a, b, number, plausible, e)) ==>
        Collect(Serving(srv), Instant(m), e.pull, plausible) == Resolved(e)
  }

  /** Which evidence can be trusted, exactly, and on the evidence alone: that whose listings all fit on one
      page - fewer than 100 entries of a bare array, at most 100 of a counted envelope. */
  lemma TrustworthyIff(s: Surfaces, number: int, plausible: Plausible, e: Evidence)
    requires Shows(s, plausible, e) && e.pull.repo != "" && e.pull.number == number
    ensures Trustworthy(number, plausible, e) <==> OnePage(e)
  {
    hide Collect, Revalidated, SurfacesNeverReturn, Shows;
    if OnePage(e) {
      forall srv: Server, a, m, b |
        SurfacesNeverReturn(srv) && Between(a, m, b) && Revalidated(Serving(srv), a, b, number, plausible, e)
        ensures Collect(Serving(srv), Instant(m), e.pull, plausible) == Resolved(e)
      {
        OnePageIsSnapshot(srv, a, m, b, number, plausible, e);
      }
    } else {
      var x :| x in Listings(e) && !Fits(x.listed, x.items);
      var srv, a, b := LongListingBreaks(s, number, plausible, e, x);
      assert Between(a, 1, b);
    }
  }
}
