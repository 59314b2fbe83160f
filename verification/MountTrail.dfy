/** The governing mount defined by what it must look like, not by how the walk finds it: a trail of
    forced hops from the single base root. The walk of `_governing_mount_raw_v2` agrees with this
    definition on every table with unique ids, in its answers and in its refusals. */
module MountTrail {
  import opened Outcomes
  import opened Paths
  import opened MountTable
  import opened MountChains

  /** The canonical path of the first `d` components. */
  function Point(cs: seq<string>, d: nat): string
    requires d <= |cs|
  {
    Render(cs[..d])
  }

  datatype Stop = Stop(mount: MountRecord, depth: nat)

  /** `r` is another mount of the table, attached to `m` at `point`. */
  ghost predicate Attached(t: Table, m: MountRecord, point: string, r: MountRecord) {
    r in t && r.parentId == m.mountId && r.mountPoint == point && r.mountId != m.mountId
  }

  /** Nothing is attached to `m` at the `d`-component point. */
  ghost predicate BareAt(t: Table, cs: seq<string>, m: MountRecord, d: nat)
    requires d <= |cs|
  {
    forall r :: r in t ==> !Attached(t, m, Point(cs, d), r)
  }

  ghost predicate BareBetween(t: Table, cs: seq<string>, m: MountRecord, from: nat, to: nat)
    requires to <= |cs| + 1
  {
    forall d :: from <= d < to ==> BareAt(t, cs, m, d)
  }

  /** `b` is the only other mount attached to `a` at its point, and `a` has none on the way there. */
  ghost predicate Hop(t: Table, cs: seq<string>, a: Stop, b: Stop) {
    && a.depth <= b.depth <= |cs|
    && Attached(t, a.mount, Point(cs, b.depth), b.mount)
    && (forall r :: Attached(t, a.mount, Point(cs, b.depth), r) ==> r == b.mount)
    && BareBetween(t, cs, a.mount, a.depth, b.depth)
  }

  /** Nothing is attached to `a` at its own point or at any longer prefix of the path. */
  ghost predicate Settled(t: Table, cs: seq<string>, a: Stop) {
    BareBetween(t, cs, a.mount, a.depth, |cs| + 1)
  }

  /** The nearest point with anything attached to `a` has several mounts. */
  ghost predicate Disputed(t: Table, cs: seq<string>, a: Stop) {
    exists d, r, other :: a.depth <= d <= |cs| && BareBetween(t, cs, a.mount, a.depth, d)
      && Attached(t, a.mount, Point(cs, d), r) && Attached(t, a.mount, Point(cs, d), other) && r != other
  }

  /** `r` is the only mount at `/` that has no other mount as its parent. */
  ghost predicate SoleBase(t: Table, r: MountRecord) {
    && r in t && r.mountPoint == "/" && Parentless(t, r)
    && forall other :: other in t && other.mountPoint == "/" && Parentless(t, other) ==> other == r
  }

  ghost predicate HopAt(t: Table, cs: seq<string>, s: seq<Stop>, i: nat)
    requires i + 1 < |s|
  {
    Hop(t, cs, s[i], s[i + 1])
  }

  ghost predicate Trail(t: Table, cs: seq<string>, s: seq<Stop>) {
    && |s| > 0
    && SoleBase(t, s[0].mount) && s[0].depth == 0
    && forall i :: 0 <= i < |s| - 1 ==> HopAt(t, cs, s, i)
  }

  ghost predicate Governs(t: Table, cs: seq<string>, g: MountRecord) {
    exists s: seq<Stop> :: Trail(t, cs, s) && Settled(t, cs, s[|s| - 1]) && s[|s| - 1].mount == g
  }

  ghost predicate Ungoverned(t: Table, cs: seq<string>) {
    (forall r :: !SoleBase(t, r)) || exists s: seq<Stop> :: Trail(t, cs, s) && Disputed(t, cs, s[|s| - 1])
  }

  // ---- What the loops select ------------------------------------------------------------------

  lemma StackedIff(t: Table, m: MountRecord, point: string)
    requires UniqueIds(t)
    ensures forall r :: r in Stacked(t, m, point) <==> Attached(t, m, point, r)
    ensures forall i, j :: 0 <= i < j < |Stacked(t, m, point)| ==> Stacked(t, m, point)[i] != Stacked(t, m, point)[j]
  {
    FilterUnique(t, (r: MountRecord) => r.parentId == m.mountId && r.mountPoint == point && r.mountId != m.mountId);
  }

  lemma BareIff(t: Table, cs: seq<string>, m: MountRecord, d: nat)
    requires UniqueIds(t) && d <= |cs|
    ensures BareAt(t, cs, m, d) <==> Stacked(t, m, Point(cs, d)) == []
  {
    StackedIff(t, m, Point(cs, d));
    var here := Stacked(t, m, Point(cs, d));
    if here != [] { assert here[0] in here; }
  }

  lemma SoleStacked(t: Table, m: MountRecord, point: string, b: MountRecord)
    requires UniqueIds(t)
    ensures Stacked(t, m, point) == [b] <==> Attached(t, m, point, b) && forall r :: Attached(t, m, point, r) ==> r == b
  {
    StackedIff(t, m, point);
    var here := Stacked(t, m, point);
    if Attached(t, m, point, b) && forall r :: Attached(t, m, point, r) ==> r == b {
      OneElement(here, b);
    }
    if here == [b] { assert b in here; }
  }

  lemma ManyStacked(t: Table, m: MountRecord, point: string, r: MountRecord, other: MountRecord)
    requires UniqueIds(t) && Attached(t, m, point, r) && Attached(t, m, point, other) && r != other
    ensures |Stacked(t, m, point)| > 1
  {
    StackedIff(t, m, point);
    assert r in Stacked(t, m, point) && other in Stacked(t, m, point);
  }

  lemma SoleBases(t: Table, r: MountRecord)
    requires UniqueIds(t)
    ensures Bases(t) == [r] <==> SoleBase(t, r)
  {
    var bases := Bases(t);
    FilterUnique(t, (x: MountRecord) => x.mountPoint == "/");
    FilterUnique(Roots(t), (x: MountRecord) => Terminal(t, x));
    forall x ensures x in bases <==> x in t && x.mountPoint == "/" && Parentless(t, x) { TerminalIff(t, x); }
    if SoleBase(t, r) {
      OneElement(bases, r);
    }
    if bases == [r] { assert r in bases; }
  }

  // ---- Facts about trails ------------------------------------------------------------------

  lemma PointInjective(cs: seq<string>, d: nat, e: nat)
    requires AllClean(cs) && d <= |cs| && e <= |cs| && Point(cs, d) == Point(cs, e)
    ensures d == e
  {
    ComponentsOfRender(cs[..d]);
    ComponentsOfRender(cs[..e]);
  }

  lemma StopFacts(t: Table, cs: seq<string>, s: seq<Stop>, i: nat)
    requires Trail(t, cs, s) && i < |s|
    ensures s[i].mount in t && s[i].depth <= |cs| && s[i].mount.mountPoint == Point(cs, s[i].depth)
    ensures i == 0 ==> Parentless(t, s[0].mount)
    ensures i > 0 ==> s[i].mount.parentId == s[i - 1].mount.mountId && s[i].mount.mountId != s[i - 1].mount.mountId
  {
    if i > 0 { assert HopAt(t, cs, s, i - 1); }
  }

  lemma {:induction false} TrailDistinct(t: Table, cs: seq<string>, s: seq<Stop>, i: nat, j: nat)
    requires UniqueIds(t) && Trail(t, cs, s) && i < j < |s|
    ensures s[i].mount.mountId != s[j].mount.mountId
  {
    hide Trail, HopAt, Point, Lookup;
    StopFacts(t, cs, s, i);
    StopFacts(t, cs, s, j);
    StopFacts(t, cs, s, j - 1);
    if s[i].mount.mountId == s[j].mount.mountId {
      SameId(t, s[i].mount, s[j].mount);
      if i > 0 {
        TrailDistinct(t, cs, s, i - 1, j - 1);
      }
    }
  }

  function MountIds(s: seq<Stop>): set<int> {
    set i | 0 <= i < |s| :: s[i].mount.mountId
  }

  lemma PointsNested(cs: seq<string>, d: nat, e: nat)
    requires AllClean(cs) && e <= d <= |cs|
    ensures Within(Point(cs, d), Point(cs, e))
  {
    assert cs[..e] == cs[..d][..e];
    WithinIsPrefix(cs[..d], cs[..e]);
  }

  lemma TrailParent(t: Table, cs: seq<string>, s: seq<Stop>, i: nat)
    requires UniqueIds(t) && AllClean(cs) && Trail(t, cs, s) && 0 < i < |s|
    ensures !Terminal(t, s[i].mount) && Parent(t, s[i].mount) == s[i - 1].mount
    ensures Within(s[i].mount.mountPoint, s[i - 1].mount.mountPoint)
  {
    hide Attached, Lookup, BareBetween, SoleBase, Point, UniqueIds, Within;
    StopFacts(t, cs, s, i);
    StopFacts(t, cs, s, i - 1);
    LookupFinds(t, s[i - 1].mount);
    assert HopAt(t, cs, s, i - 1);
    PointsNested(cs, s[i].depth, s[i - 1].depth);
  }

  lemma ChainStep(t: Table, child: MountRecord, seen: set<int>)
    requires !Terminal(t, child) && Within(child.mountPoint, Parent(t, child).mountPoint)
    requires Parent(t, child).mountId !in seen && ChainAccepted(t, Parent(t, child), seen + {Parent(t, child).mountId})
    ensures ChainAccepted(t, child, seen)
  {}

  lemma BaseChain(t: Table, cs: seq<string>, s: seq<Stop>, seen: set<int>)
    requires Trail(t, cs, s)
    ensures ChainAccepted(t, s[0].mount, seen)
  {
    StopFacts(t, cs, s, 0);
  }

  /** A mount reached by a trail has a valid parent chain: the trail read backwards. */
  lemma {:induction false} TrailChain(t: Table, cs: seq<string>, s: seq<Stop>, i: nat, seen: set<int>)
    requires UniqueIds(t) && AllClean(cs) && Trail(t, cs, s) && i < |s|
    requires forall j :: 0 <= j < i ==> s[j].mount.mountId !in seen
    ensures ChainAccepted(t, s[i].mount, seen)
    decreases i
  {
    hide ChainAccepted, Lookup, Parent, Stacked;
    if i == 0 {
      BaseChain(t, cs, s, seen);
    } else {
      TrailParent(t, cs, s, i);
      var parent := s[i - 1].mount.mountId;
      forall j | 0 <= j < i - 1 ensures s[j].mount.mountId !in seen + {parent} {
        TrailDistinct(t, cs, s, j, i - 1);
      }
      TrailChain(t, cs, s, i - 1, seen + {parent});
      ChainStep(t, s[i].mount, seen);
    }
  }

  lemma ClimbBare(t: Table, m: MountRecord, point: string, visited: set<int>)
    requires Stacked(t, m, point) == []
    ensures Climb(t, m, point, visited) == Resolved(m)
  {}

  lemma ClimbMany(t: Table, m: MountRecord, point: string, visited: set<int>)
    requires |Stacked(t, m, point)| > 1
    ensures Climb(t, m, point, visited).Refused?
  {}

  // ---- The walk follows the trail ----------------------------------------------------------

  /** The rest of the walk once it stands at stop `a`. */
  function Continue(t: Table, cs: seq<string>, a: Stop, visited: set<int>): Outcome<MountRecord>
    requires a.depth <= |cs|
  {
    var top :- Climb(t, a.mount, Point(cs, a.depth), visited);
    Descend(t, top, cs, a.depth)
  }

  lemma AttachedIsStacked(t: Table, cs: seq<string>, a: Stop, d: nat)
    requires UniqueIds(t) && AllClean(cs) && a.mount in t && a.depth < d <= |cs|
    requires a.mount.mountPoint == Point(cs, a.depth)
    ensures ChildrenAt(t, a.mount.mountId, Point(cs, d)) == Stacked(t, a.mount, Point(cs, d))
  {
    var m, point := a.mount, Point(cs, d);
    forall r | r in t
      ensures r.parentId == m.mountId && r.mountPoint == point
        <==> r.parentId == m.mountId && r.mountPoint == point && r.mountId != m.mountId
    {
      if r.mountId == m.mountId && r.mountPoint == point {
        SameId(t, r, m);
        PointInjective(cs, a.depth, d);
      }
    }
    FilterSame(t, (r: MountRecord) => r.parentId == m.mountId && r.mountPoint == point,
      (r: MountRecord) => r.parentId == m.mountId && r.mountPoint == point && r.mountId != m.mountId);
  }

  lemma {:induction false} DescendSkip(t: Table, cs: seq<string>, a: Stop, k: nat, e: nat)
    requires UniqueIds(t) && AllClean(cs) && a.mount in t && a.depth <= k <= e <= |cs|
    requires a.mount.mountPoint == Point(cs, a.depth)
    requires BareBetween(t, cs, a.mount, a.depth, e + 1)
    ensures Descend(t, a.mount, cs, k) == Descend(t, a.mount, cs, e)
    decreases e - k
  {
    hide Stacked, Climb;
    if k < e {
      AttachedIsStacked(t, cs, a, k + 1);
      BareIff(t, cs, a.mount, k + 1);
      assert Point(cs, k + 1) == Slashed(cs[..k + 1]);
      DescendSkip(t, cs, a, k + 1, e);
    }
  }

  lemma ContinueSettled(t: Table, cs: seq<string>, a: Stop, visited: set<int>)
    requires UniqueIds(t) && AllClean(cs) && a.mount in t && a.depth <= |cs|
    requires a.mount.mountPoint == Point(cs, a.depth) && Settled(t, cs, a)
    ensures Continue(t, cs, a, visited) == Resolved(a.mount)
  {
    hide Stacked;
    BareIff(t, cs, a.mount, a.depth);
    DescendSkip(t, cs, a, a.depth, |cs|);
  }

  lemma ContinueDisputed(t: Table, cs: seq<string>, a: Stop, visited: set<int>)
    requires UniqueIds(t) && AllClean(cs) && a.mount in t && a.depth <= |cs|
    requires a.mount.mountPoint == Point(cs, a.depth) && Disputed(t, cs, a)
    ensures Continue(t, cs, a, visited).Refused?
  {
    hide Stacked, Climb;
    var d: nat, r, other :| a.depth <= d <= |cs| && BareBetween(t, cs, a.mount, a.depth, d)
      && Attached(t, a.mount, Point(cs, d), r) && Attached(t, a.mount, Point(cs, d), other) && r != other;
    ManyStacked(t, a.mount, Point(cs, d), r, other);
    ClimbMany(t, a.mount, Point(cs, d), visited);
    if d > a.depth {
      BareIff(t, cs, a.mount, a.depth);
      ClimbBare(t, a.mount, Point(cs, a.depth), visited);
      DescendSkip(t, cs, a, a.depth, d - 1);
      AttachedIsStacked(t, cs, a, d);
      assert Point(cs, d) == Slashed(cs[..d - 1 + 1]);
    }
  }

  lemma ContinueHop(t: Table, cs: seq<string>, a: Stop, b: Stop, visited: set<int>)
    requires UniqueIds(t) && AllClean(cs) && a.mount in t && a.depth <= |cs|
    requires a.mount.mountPoint == Point(cs, a.depth) && Hop(t, cs, a, b)
    requires b.mount.mountId !in visited
    ensures Continue(t, cs, a, visited)
      == Continue(t, cs, b, (if a.depth == b.depth then visited else {}) + {b.mount.mountId})
  {
    hide Stacked;
    SoleStacked(t, a.mount, Point(cs, b.depth), b.mount);
    if a.depth < b.depth {
      BareIff(t, cs, a.mount, a.depth);
      DescendSkip(t, cs, a, a.depth, b.depth - 1);
      AttachedIsStacked(t, cs, a, b.depth);
      assert Point(cs, b.depth) == Slashed(cs[..b.depth - 1 + 1]);
      assert {} + {b.mount.mountId} == {b.mount.mountId};
    }
  }

  lemma ContinueLast(t: Table, cs: seq<string>, a: Stop, visited: set<int>)
    requires UniqueIds(t) && AllClean(cs) && a.mount in t && a.depth <= |cs|
    requires a.mount.mountPoint == Point(cs, a.depth)
    ensures Settled(t, cs, a) ==> Continue(t, cs, a, visited) == Resolved(a.mount)
    ensures Disputed(t, cs, a) ==> Continue(t, cs, a, visited).Refused?
  {
    if Settled(t, cs, a) { ContinueSettled(t, cs, a, visited); }
    if Disputed(t, cs, a) { ContinueDisputed(t, cs, a, visited); }
  }

  function VisitedNext(a: Stop, b: Stop, visited: set<int>): set<int> {
    (if a.depth == b.depth then visited else {}) + {b.mount.mountId}
  }

  lemma FollowHop(t: Table, cs: seq<string>, s: seq<Stop>, i: nat, visited: set<int>)
    requires UniqueIds(t) && AllClean(cs) && Trail(t, cs, s) && i + 1 < |s|
    requires s[i].depth <= |cs| && s[i + 1].depth <= |cs|
    requires s[i + 1].mount.mountId !in visited
    ensures Continue(t, cs, s[i], visited) == Continue(t, cs, s[i + 1], VisitedNext(s[i], s[i + 1], visited))
  {
    StopFacts(t, cs, s, i);
    assert HopAt(t, cs, s, i);
    ContinueHop(t, cs, s[i], s[i + 1], visited);
  }

  lemma VisitedApart(t: Table, cs: seq<string>, s: seq<Stop>, i: nat, visited: set<int>)
    requires UniqueIds(t) && Trail(t, cs, s) && i + 1 < |s|
    requires forall j :: i < j < |s| ==> s[j].mount.mountId !in visited
    ensures forall j :: i + 1 < j < |s| ==> s[j].mount.mountId !in VisitedNext(s[i], s[i + 1], visited)
  {
    forall j | i + 1 < j < |s| ensures s[j].mount.mountId !in VisitedNext(s[i], s[i + 1], visited) {
      TrailDistinct(t, cs, s, i + 1, j);
    }
  }

  /** From any stop of a trail the walk's outcome is the same. */
  lemma {:induction false} WalkFollows(t: Table, cs: seq<string>, s: seq<Stop>, i: nat, visited: set<int>) returns (last: set<int>)
    requires UniqueIds(t) && AllClean(cs) && Trail(t, cs, s) && i < |s|
    requires forall j :: i < j < |s| ==> s[j].mount.mountId !in visited
    requires forall j :: 0 <= j < |s| ==> s[j].depth <= |cs|
    ensures Continue(t, cs, s[i], visited) == Continue(t, cs, s[|s| - 1], last)
    decreases |s| - i
  {
    hide Continue;
    if i == |s| - 1 {
      last := visited;
    } else {
      FollowHop(t, cs, s, i, visited);
      VisitedApart(t, cs, s, i, visited);
      last := WalkFollows(t, cs, s, i + 1, VisitedNext(s[i], s[i + 1], visited));
    }
  }

  lemma WalkStarts(t: Table, cs: seq<string>, s: seq<Stop>)
    requires UniqueIds(t) && Trail(t, cs, s)
    ensures Walk(t, cs) == Continue(t, cs, s[0], {s[0].mount.mountId})
  {
    SoleBases(t, s[0].mount);
    assert Bases(t)[0] in Roots(t);
    assert Point(cs, 0) == "/";
  }

  lemma WalkBaseless(t: Table, cs: seq<string>)
    requires UniqueIds(t) && forall r :: !SoleBase(t, r)
    ensures Walk(t, cs).Refused?
  {
    if |Bases(t)| == 1 {
      assert Bases(t) == [Bases(t)[0]];
      SoleBases(t, Bases(t)[0]);
    }
  }

  lemma WalkFromBase(t: Table, cs: seq<string>, s: seq<Stop>)
    requires UniqueIds(t) && AllClean(cs) && Trail(t, cs, s)
    ensures Settled(t, cs, s[|s| - 1]) ==> Walk(t, cs) == Resolved(s[|s| - 1].mount)
    ensures Disputed(t, cs, s[|s| - 1]) ==> Walk(t, cs).Refused?
  {
    hide Continue, Settled, Disputed, HopAt, SoleBase, Walk;
    forall j | 0 < j < |s| ensures s[j].mount.mountId != s[0].mount.mountId { TrailDistinct(t, cs, s, 0, j); }
    forall j | 0 <= j < |s| ensures s[j].depth <= |cs| { StopFacts(t, cs, s, j); }
    WalkStarts(t, cs, s);
    var last := WalkFollows(t, cs, s, 0, {s[0].mount.mountId});
    StopFacts(t, cs, s, |s| - 1);
    ContinueLast(t, cs, s[|s| - 1], last);
  }

  // ---- Every base root starts a trail that cannot be continued ------------------------------

  lemma {:induction false} NextStop(t: Table, cs: seq<string>, a: Stop, d: nat) returns (b: Stop)
    requires UniqueIds(t) && a.depth <= d <= |cs| && BareBetween(t, cs, a.mount, a.depth, d)
    ensures Settled(t, cs, a) || Disputed(t, cs, a) || Hop(t, cs, a, b)
    decreases |cs| - d
  {
    hide Stacked, UniqueIds;
    var point := Point(cs, d);
    if BareAt(t, cs, a.mount, d) {
      if d == |cs| { b := a; } else { b := NextStop(t, cs, a, d + 1); }
    } else {
      var r :| Attached(t, a.mount, point, r);
      b := Stop(r, d);
    }
  }

  lemma Extend(t: Table, cs: seq<string>, s: seq<Stop>, b: Stop)
    requires Trail(t, cs, s) && Hop(t, cs, s[|s| - 1], b)
    ensures Trail(t, cs, s + [b])
  {
    var longer := s + [b];
    forall i | 0 <= i < |longer| - 1 ensures HopAt(t, cs, longer, i) {
      if i < |s| - 1 { assert HopAt(t, cs, s, i); }
    }
  }

  lemma NewMount(t: Table, cs: seq<string>, s: seq<Stop>, b: Stop)
    requires UniqueIds(t) && |s| > 0 && Trail(t, cs, s + [b])
    ensures b.mount.mountId in Ids(t) && b.mount.mountId !in MountIds(s)
    ensures MountIds(s + [b]) == MountIds(s) + {b.mount.mountId}
  {
    var longer := s + [b];
    StopFacts(t, cs, longer, |s|);
    forall j | 0 <= j < |s| ensures s[j].mount.mountId != b.mount.mountId {
      TrailDistinct(t, cs, longer, j, |s|);
    }
    forall id | id in MountIds(s) + {b.mount.mountId} ensures id in MountIds(longer) {
      if id == b.mount.mountId {
        assert longer[|s|].mount.mountId == id;
      } else {
        var i :| 0 <= i < |s| && s[i].mount.mountId == id;
        assert longer[i].mount.mountId == id;
      }
    }
  }

  lemma {:induction false} Exhaust(t: Table, cs: seq<string>, s: seq<Stop>) returns (full: seq<Stop>)
    requires UniqueIds(t) && Trail(t, cs, s)
    ensures Trail(t, cs, full)
    ensures Settled(t, cs, full[|full| - 1]) || Disputed(t, cs, full[|full| - 1])
    decreases Ids(t) - MountIds(s)
  {
    hide Attached, Hop, HopAt, BareAt, Settled, Disputed, Point, SoleBase, UniqueIds;
    var a := s[|s| - 1];
    StopFacts(t, cs, s, |s| - 1);
    var b := NextStop(t, cs, a, a.depth);
    if Settled(t, cs, a) || Disputed(t, cs, a) {
      full := s;
    } else {
      Extend(t, cs, s, b);
      NewMount(t, cs, s, b);
      full := Exhaust(t, cs, s + [b]);
    }
  }

  lemma BaseTrail(t: Table, cs: seq<string>, base: MountRecord) returns (full: seq<Stop>)
    requires UniqueIds(t) && SoleBase(t, base)
    ensures Trail(t, cs, full)
    ensures Settled(t, cs, full[|full| - 1]) || Disputed(t, cs, full[|full| - 1])
  {
    full := Exhaust(t, cs, [Stop(base, 0)]);
  }

  // ---- Main results ------------------------------------------------------------------------

  /** The walk answers `g` exactly when `g` ends a settled trail, and refuses exactly when there is
      no single base root or a trail is disputed. In particular the cycle refusal of the climb is
      never the reason. */
  lemma WalkIff(t: Table, cs: seq<string>, g: MountRecord)
    requires UniqueIds(t) && AllClean(cs)
    ensures Walk(t, cs) == Resolved(g) <==> Governs(t, cs, g)
    ensures Walk(t, cs).Refused? <==> Ungoverned(t, cs)
  {
    hide Walk, HopAt, Settled, Disputed, SoleBase;
    if base :| SoleBase(t, base) {
      var full := BaseTrail(t, cs, base);
      WalkFromBase(t, cs, full);
    } else {
      WalkBaseless(t, cs);
    }
    if Governs(t, cs, g) {
      var s: seq<Stop> :| Trail(t, cs, s) && Settled(t, cs, s[|s| - 1]) && s[|s| - 1].mount == g;
      WalkFromBase(t, cs, s);
    }
    if s: seq<Stop> :| Trail(t, cs, s) && Disputed(t, cs, s[|s| - 1]) {
      WalkFromBase(t, cs, s);
    }
  }

  lemma TrailCertified(t: Table, cs: seq<string>, s: seq<Stop>)
    requires UniqueIds(t) && AllClean(cs) && Trail(t, cs, s)
    ensures ValidChain(t, s[|s| - 1].mount)
  {
    hide ChainAccepted;
    var n := |s| - 1;
    forall j | 0 <= j < n ensures s[j].mount.mountId != s[n].mount.mountId { TrailDistinct(t, cs, s, j, n); }
    TrailChain(t, cs, s, n, {s[n].mount.mountId});
  }

  lemma GovernsTrail(t: Table, cs: seq<string>, g: MountRecord) returns (s: seq<Stop>)
    requires Governs(t, cs, g)
    ensures |s| > 0 && Trail(t, cs, s) && Settled(t, cs, s[|s| - 1]) && s[|s| - 1].mount == g
  {
    s :| Trail(t, cs, s) && Settled(t, cs, s[|s| - 1]) && s[|s| - 1].mount == g;
  }

  /** Every mount the walk returns is already certified, so the closing chain check of
      `_governing_mount_raw_v2` never refuses. */
  lemma WalkCertified(t: Table, cs: seq<string>, g: MountRecord) returns (d: nat)
    requires UniqueIds(t) && AllClean(cs) && Walk(t, cs) == Resolved(g)
    ensures g in t && ValidChain(t, g)
    ensures d <= |cs| && g.mountPoint == Point(cs, d)
    ensures Settled(t, cs, Stop(g, d))
  {
    hide *;
    WalkIff(t, cs, g);
    var s := GovernsTrail(t, cs, g);
    StopFacts(t, cs, s, |s| - 1);
    d := s[|s| - 1].depth;
    assert s[|s| - 1] == Stop(g, d);
    TrailCertified(t, cs, s);
  }

  /** `_governing_mount_raw_v2` against the declarative definition, for every path and table. */
  lemma GoverningIff(t: Table, path: string, g: MountRecord)
    requires UniqueIds(t)
    ensures Governing(t, path) == Resolved(g) <==> Governs(t, Components(Normalize(path)), g)
    ensures Governing(t, path).Refused? <==> Ungoverned(t, Components(Normalize(path)))
  {
    var cs := NormalizeShape(path);
    WalkIff(t, cs, g);
    if Walk(t, cs).Resolved? {
      var d := WalkCertified(t, cs, Walk(t, cs).value);
    }
  }

  /** A governing mount sits at a prefix of the path it governs. */
  lemma GoverningPoint(t: Table, path: string, g: MountRecord) returns (d: nat)
    requires UniqueIds(t) && Governing(t, path) == Resolved(g)
    ensures d <= |Components(Normalize(path))| && g.mountPoint == Point(Components(Normalize(path)), d)
    ensures g in t && ValidChain(t, g) && forall r :: !Attached(t, g, g.mountPoint, r)
  {
    hide Walk, ChainAccepted, UniqueIds;
    var cs := NormalizeShape(path);
    d := WalkCertified(t, cs, g);
    assert BareAt(t, cs, g, d);
  }

  /** A governing mount lies at an ancestor of the path it governs, and carries nothing else at
      its own point. */
  lemma GoverningContains(t: Table, path: string, g: MountRecord)
    requires UniqueIds(t) && CanonicalPath(path) && Governing(t, path) == Resolved(g)
    ensures g in t && ValidChain(t, g) && CanonicalPath(g.mountPoint)
    ensures Within(path, g.mountPoint) && forall r :: !Attached(t, g, g.mountPoint, r)
  {
    CanonicalIffFixed(path);
    var cs := Components(path);
    var d := GoverningPoint(t, path, g);
    WithinIsPrefix(cs, cs[..d]);
    ComponentsOfRender(cs[..d]);
  }
}
