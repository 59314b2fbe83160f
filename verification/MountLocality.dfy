/** Frontier locality: a query's answer depends only on the mounts its own closure reaches. */
module MountLocality {
  import opened Outcomes
  import opened Paths
  import opened MountTable
  import opened MountTrail
  import opened MountClosure

  /** The table that holds only the mounts in `f`, in table order. */
  function Restrict(t: Table, f: seq<MountRecord>): Table {
    Filter(t, (r: MountRecord) => r in f)
  }

  /** Every mount of `t` at a point the walk over `cs` looks at belongs to `f`. */
  ghost predicate Covers(t: Table, f: seq<MountRecord>, cs: seq<string>) {
    forall r, d {:trigger r in t, Point(cs, d)} :: r in t && 0 <= d <= |cs| && r.mountPoint == Point(cs, d) ==> r in f
  }

  ghost predicate Closed(t: Table, f: seq<MountRecord>) {
    (forall r :: r in f ==> r in t) && ClosedUnder(t, Elements(f))
  }

  // ---- Restriction keeps the pieces the resolver reads ---------------------------------------

  /** A selection that only ever picks members of `f` reads the same from the restricted table. */
  lemma FilterRestrict(t: Table, f: seq<MountRecord>, q: MountRecord -> bool)
    requires forall r :: r in t && q(r) ==> r in f
    ensures Filter(Restrict(t, f), q) == Filter(t, q)
  {
    FilterTwice(t, (r: MountRecord) => r in f, q, q);
  }

  lemma RestrictLookup(t: Table, f: seq<MountRecord>, id: int)
    requires UniqueIds(t) && (Lookup(t, id).Some? ==> Lookup(t, id).value in f)
    ensures Lookup(Restrict(t, f), id) == Lookup(t, id)
  {
    FilterUnique(t, (r: MountRecord) => r in f);
    if Lookup(t, id).Some? {
      LookupFinds(Restrict(t, f), Lookup(t, id).value);
    }
  }

  /** The parent, siblings and stacked children of a member are members. */
  lemma NeighbourKept(t: Table, f: seq<MountRecord>, r: MountRecord, n: MountRecord)
    requires UniqueIds(t) && Closed(t, f) && r in f && n in Neighbours(t, r)
    ensures n in f
  {
    NeighboursIff(t, r, n);
    assert r in Elements(f);
    assert n in Elements(f);
  }

  lemma RestrictParent(t: Table, f: seq<MountRecord>, r: MountRecord)
    requires UniqueIds(t) && Closed(t, f) && r in f
    ensures Lookup(Restrict(t, f), r.parentId) == Lookup(t, r.parentId)
  {
    var parent := Lookup(t, r.parentId);
    if parent.Some? {
      assert Neighbours(t, r)[0] == parent.value;
      NeighbourKept(t, f, r, parent.value);
    }
    RestrictLookup(t, f, r.parentId);
  }

  lemma RestrictKids(t: Table, f: seq<MountRecord>, id: int, point: string)
    requires forall n :: n in ChildrenAt(t, id, point) ==> n in f
    ensures ChildrenAt(Restrict(t, f), id, point) == ChildrenAt(t, id, point)
  {
    FilterRestrict(t, f, (x: MountRecord) => x.parentId == id && x.mountPoint == point);
  }

  lemma RestrictNeighbours(t: Table, f: seq<MountRecord>, r: MountRecord)
    requires UniqueIds(t) && Closed(t, f) && r in f
    ensures Neighbours(Restrict(t, f), r) == Neighbours(t, r)
    ensures Lookup(Restrict(t, f), r.parentId) == Lookup(t, r.parentId)
  {
    RestrictParent(t, f, r);
    forall n | n in ChildrenAt(t, r.parentId, r.mountPoint) ensures n in f { NeighbourKept(t, f, r, n); }
    forall n | n in ChildrenAt(t, r.mountId, r.mountPoint) ensures n in f { NeighbourKept(t, f, r, n); }
    RestrictKids(t, f, r.parentId, r.mountPoint);
    RestrictKids(t, f, r.mountId, r.mountPoint);
  }

  lemma RestrictTerminal(t: Table, f: seq<MountRecord>, r: MountRecord)
    requires UniqueIds(t) && Closed(t, f) && r in f
    ensures Terminal(Restrict(t, f), r) <==> Terminal(t, r)
    ensures !Terminal(t, r) ==> Parent(Restrict(t, f), r) == Parent(t, r) && Parent(t, r) in f
  {
    RestrictNeighbours(t, f, r);
    if !Terminal(t, r) {
      assert Parent(t, r) in Neighbours(t, r);
      NeighbourKept(t, f, r, Parent(t, r));
    }
  }

  lemma {:induction false} RestrictChain(t: Table, f: seq<MountRecord>, r: MountRecord, seen: set<int>)
    requires UniqueIds(t) && Closed(t, f) && r in f
    ensures ChainAccepted(Restrict(t, f), r, seen) <==> ChainAccepted(t, r, seen)
    decreases Ids(t) - seen
  {
    RestrictTerminal(t, f, r);
    if !Terminal(t, r) {
      var parent := Parent(t, r);
      if parent.mountId !in seen {
        RestrictChain(t, f, parent, seen + {parent.mountId});
      }
    }
  }

  lemma {:induction false} RestrictClosure(t: Table, f: seq<MountRecord>, w: Work)
    requires UniqueIds(t) && Closed(t, f)
    requires forall r :: r in w.pending ==> r in f
    ensures Closure(Restrict(t, f), w.closed, w.pending) == Closure(t, w.closed, w.pending)
    decreases Ids(t) - Ids(w.closed), |w.pending|
  {
    if w.pending != [] {
      var k := |w.pending| - 1;
      var record := w.pending[k];
      RestrictNeighbours(t, f, record);
      var next := PopAt(t, w, k);
      PopShrinks(t, w, k);
      assert w.pending[..k] + w.pending[k + 1..] == w.pending[..k];
      forall r | r in next.pending ensures r in f {
        if r in Fresh(w.closed, Neighbours(t, record)) { NeighbourKept(t, f, record, r); }
      }
      RestrictClosure(t, f, next);
    }
  }

  // ---- The walk -------------------------------------------------------------------------------

  lemma RestrictStacked(t: Table, f: seq<MountRecord>, cs: seq<string>, m: MountRecord, d: nat)
    requires Covers(t, f, cs) && d <= |cs|
    ensures Stacked(Restrict(t, f), m, Point(cs, d)) == Stacked(t, m, Point(cs, d))
  {
    var point := Point(cs, d);
    FilterRestrict(t, f,
      (r: MountRecord) => r.parentId == m.mountId && r.mountPoint == point && r.mountId != m.mountId);
  }

  lemma RestrictChildrenAt(t: Table, f: seq<MountRecord>, cs: seq<string>, id: int, d: nat)
    requires Covers(t, f, cs) && d <= |cs|
    ensures ChildrenAt(Restrict(t, f), id, Point(cs, d)) == ChildrenAt(t, id, Point(cs, d))
  {
    var point := Point(cs, d);
    FilterRestrict(t, f, (r: MountRecord) => r.parentId == id && r.mountPoint == point);
  }

  lemma {:induction false} RestrictClimb(
    t: Table, f: seq<MountRecord>, cs: seq<string>, m: MountRecord, d: nat, visited: set<int>)
    requires Covers(t, f, cs) && d <= |cs|
    ensures Climb(Restrict(t, f), m, Point(cs, d), visited) == Climb(t, m, Point(cs, d), visited)
    decreases Ids(t) - visited
  {
    RestrictStacked(t, f, cs, m, d);
    var stacked := Stacked(t, m, Point(cs, d));
    if |stacked| == 1 && stacked[0].mountId !in visited {
      assert stacked[0] in stacked;
      RestrictClimb(t, f, cs, stacked[0], d, visited + {stacked[0].mountId});
    }
  }

  lemma {:induction false} RestrictDescend(t: Table, f: seq<MountRecord>, cs: seq<string>, m: MountRecord, k: nat)
    requires Covers(t, f, cs) && k <= |cs|
    ensures Descend(Restrict(t, f), m, cs, k) == Descend(t, m, cs, k)
    decreases |cs| - k
  {
    if k < |cs| {
      var prefix := Slashed(cs[..k + 1]);
      assert prefix == Point(cs, k + 1);
      RestrictChildrenAt(t, f, cs, m.mountId, k + 1);
      var attached := ChildrenAt(t, m.mountId, prefix);
      if attached == [] {
        RestrictDescend(t, f, cs, m, k + 1);
      } else if |attached| == 1 {
        RestrictClimb(t, f, cs, attached[0], k + 1, {attached[0].mountId});
        var top := Climb(t, attached[0], prefix, {attached[0].mountId});
        if top.Resolved? { RestrictDescend(t, f, cs, top.value, k + 1); }
      }
    }
  }

  lemma RestrictBases(t: Table, f: seq<MountRecord>)
    requires UniqueIds(t) && Closed(t, f) && forall r :: r in t && r.mountPoint == "/" ==> r in f
    ensures Roots(Restrict(t, f)) == Roots(t) && Bases(Restrict(t, f)) == Bases(t)
  {
    var u := Restrict(t, f);
    FilterRestrict(t, f, (r: MountRecord) => r.mountPoint == "/");
    forall r | r in Roots(t) ensures Terminal(u, r) <==> Terminal(t, r) { RestrictTerminal(t, f, r); }
    FilterSame(Roots(t), (r: MountRecord) => Terminal(u, r), (r: MountRecord) => Terminal(t, r));
  }

  lemma RestrictWalk(t: Table, f: seq<MountRecord>, cs: seq<string>)
    requires UniqueIds(t) && Closed(t, f) && Covers(t, f, cs)
    ensures Walk(Restrict(t, f), cs) == Walk(t, cs)
  {
    assert Point(cs, 0) == "/";
    RestrictBases(t, f);
    if |Bases(t)| == 1 {
      RestrictClimb(t, f, cs, Bases(t)[0], 0, {Bases(t)[0].mountId});
      var root := VisibleRoot(t);
      if root.Resolved? { RestrictDescend(t, f, cs, root.value, 0); }
    }
  }

  lemma RestrictGoverning(t: Table, f: seq<MountRecord>, path: string)
    requires UniqueIds(t) && Closed(t, f) && Covers(t, f, Components(Normalize(path)))
    ensures Governing(Restrict(t, f), path) == Governing(t, path)
  {
    var cs := NormalizeShape(path);
    RestrictWalk(t, f, cs);
    var g := Walk(t, cs);
    if g.Resolved? {
      var d := WalkCertified(t, cs, g.value);
      assert g.value in f;
      RestrictChain(t, f, g.value, {g.value.mountId});
    }
  }

  // ---- Seeds cover the walks of their query ---------------------------------------------------

  /** The query paths whose text and components agree on containment: every path except one that
      normalises to two slashes followed by a component. */
  predicate Tidy(path: string) {
    !DoubleSlash(Rooted(path)) || Components(Normalize(path)) == []
  }

  /** As paths, one of the two lies above the other. */
  predicate Comparable(path: string, point: string) {
    var ps, us := Components(Normalize(path)), Components(Normalize(point));
    ps <= us || us <= ps
  }

  /** The mount points whose visibility a subtree query of `path` asks for. */
  predicate IsBelow(point: string, path: string) {
    RStrip(Normalize(path)) + "/" <= point
  }

  /** Those points normalise to a place above or below the path. */
  ghost predicate ComparableBelow(t: Table, q: Query) {
    forall r :: r in t && IsBelow(r.mountPoint, q.path) ==> Comparable(q.path, r.mountPoint)
  }

  lemma PathCovered(path: string, d: nat)
    requires Tidy(path) && d <= |Components(Normalize(path))|
    ensures Within(Normalize(path), Point(Components(Normalize(path)), d))
  {
    var cs := NormalizeShape(path);
    if DoubleSlash(Rooted(path)) {
      SlashedEndsClean([]);
      assert Point(cs, d) == "/";
    } else {
      WithinIsPrefix(cs, cs[..d]);
    }
  }

  lemma SeedsInTable(t: Table, q: Query)
    ensures forall r :: r in Seeds(t, q) ==> r in t
    ensures forall r :: r in t && Within(Normalize(q.path), r.mountPoint) ==> r in Seeds(t, q)
    ensures forall r :: q.kind.VisibleSubtree? && r in t && Within(r.mountPoint, Normalize(q.path)) ==> r in Seeds(t, q)
  {}

  lemma FrontierClosed(t: Table, q: Query)
    requires UniqueIds(t)
    ensures Closed(t, Frontier(t, q))
    ensures forall r :: r in Seeds(t, q) ==> r in Frontier(t, q)
  {
    SeedsInTable(t, q);
    ClosureIsLeast(t, Seeds(t, q));
    forall r | r in Seeds(t, q) ensures r in Frontier(t, q) { assert r in Elements(Seeds(t, q)); }
  }

  lemma FrontierCoversPath(t: Table, q: Query)
    requires UniqueIds(t) && Tidy(q.path)
    ensures Covers(t, Frontier(t, q), Components(Normalize(q.path)))
  {
    var cs := Components(Normalize(q.path));
    SeedsInTable(t, q);
    FrontierClosed(t, q);
    forall r, d | r in t && 0 <= d <= |cs| && r.mountPoint == Point(cs, d) ensures r in Frontier(t, q) {
      PathCovered(q.path, d);
    }
  }

  /** Points on the way to a comparable place are above the path or below it. */
  lemma OnTheWay(path: string, cs: seq<string>, d: nat)
    requires Tidy(path) && AllClean(cs) && d <= |cs|
    requires Components(Normalize(path)) <= cs || cs <= Components(Normalize(path))
    ensures Within(Normalize(path), Point(cs, d)) || Within(Point(cs, d), Normalize(path))
  {
    var ps := NormalizeShape(path);
    var on := cs[..d];
    assert ps <= on || on <= ps by {
      if ps <= cs { assert if d <= |ps| then on == ps[..d] else on[..|ps|] == ps; } else { assert on == ps[..d]; }
    }
    if DoubleSlash(Rooted(path)) {
      assert RStrip("//") == RStrip("//"[..1]) && RStrip("//"[..1]) == "" by { assert "//"[..1] == "/" && RStrip("/") == ""; }
      RenderIsSingleSlash(on);
    } else {
      WithinIsPrefix(ps, on);
      WithinIsPrefix(on, ps);
    }
  }

  lemma FrontierCoversBelow(t: Table, q: Query, point: string)
    requires UniqueIds(t) && Tidy(q.path) && q.kind.VisibleSubtree? && Comparable(q.path, point)
    ensures Covers(t, Frontier(t, q), Components(Normalize(point)))
  {
    var cs := NormalizeShape(point);
    SeedsInTable(t, q);
    FrontierClosed(t, q);
    forall x, d | x in t && 0 <= d <= |cs| && x.mountPoint == Point(cs, d) ensures x in Frontier(t, q) {
      OnTheWay(q.path, cs, d);
    }
  }

  lemma RestrictVisible(t: Table, q: Query, r: MountRecord)
    requires UniqueIds(t) && ComparableBelow(t, q) && Tidy(q.path) && q.kind.VisibleSubtree?
    requires r in t && IsBelow(r.mountPoint, q.path)
    ensures Visible(Restrict(t, Frontier(t, q)), r) == Visible(t, r)
  {
    FrontierCoversBelow(t, q, r.mountPoint);
    FrontierClosed(t, q);
    RestrictGoverning(t, Frontier(t, q), r.mountPoint);
  }

  lemma {:induction false} VisibleBelowSame(t: Table, u: Table, rs: seq<MountRecord>, prefix: string)
    requires forall r :: r in rs && prefix <= r.mountPoint ==> Visible(u, r) == Visible(t, r)
    ensures VisibleBelow(u, rs, prefix) == VisibleBelow(t, rs, prefix)
  {
    if rs != [] {
      assert rs[0] in rs;
      VisibleBelowSame(t, u, rs[1..], prefix);
    }
  }

  lemma RestrictSeeds(t: Table, q: Query)
    requires UniqueIds(t)
    ensures Seeds(Restrict(t, Frontier(t, q)), q) == Seeds(t, q)
  {
    var f, path := Frontier(t, q), Normalize(q.path);
    FrontierClosed(t, q);
    SeedsInTable(t, q);
    FilterRestrict(t, f, (r: MountRecord) => Within(path, r.mountPoint));
    if q.kind.VisibleSubtree? {
      var above := Filter(t, (r: MountRecord) => Within(path, r.mountPoint));
      FilterRestrict(t, f, (r: MountRecord) => Within(r.mountPoint, path) && r !in above);
    }
  }

  lemma RestrictFrontier(t: Table, q: Query)
    requires UniqueIds(t)
    ensures Frontier(Restrict(t, Frontier(t, q)), q) == Frontier(t, q)
  {
    RestrictSeeds(t, q);
    FrontierClosed(t, q);
    RestrictClosure(t, Frontier(t, q), Work(Seeds(t, q), Seeds(t, q)));
  }

  lemma RestrictAllValid(t: Table, f: seq<MountRecord>)
    requires UniqueIds(t) && Closed(t, f)
    ensures AllValid(Restrict(t, f), f) <==> AllValid(t, f)
  {
    forall r | r in f ensures ValidChain(Restrict(t, f), r) <==> ValidChain(t, r) {
      RestrictChain(t, f, r, {r.mountId});
    }
  }

  // ---- Main results ---------------------------------------------------------------------------

  /** Resolving a query against a table holding only its frontier gives the very same resolution -
      governing mount, frontier and descendants in order - or the same refusal. */
  lemma Locality(t: Table, q: Query)
    requires UniqueIds(t) && Tidy(q.path)
    requires q.kind.VisibleSubtree? ==> ComparableBelow(t, q)
    ensures Resolve(Restrict(t, Frontier(t, q)), q) == Resolve(t, q)
  {
    var f := Frontier(t, q);
    FrontierClosed(t, q);
    RestrictFrontier(t, q);
    RestrictAllValid(t, f);
    FrontierCoversPath(t, q);
    RestrictGoverning(t, f, q.path);
    if q.kind.VisibleSubtree? {
      var prefix := BelowPrefix(Normalize(q.path));
      forall r | r in f && prefix <= r.mountPoint ensures Visible(Restrict(t, f), r) == Visible(t, r) {
        RestrictVisible(t, q, r);
      }
      VisibleBelowSame(t, Restrict(t, f), f, prefix);
    }
  }

  /** Two tables that agree on a query's frontier answer it alike, whatever else they hold. */
  lemma OutsideIrrelevant(t: Table, other: Table, q: Query)
    requires UniqueIds(t) && UniqueIds(other) && Tidy(q.path)
    requires q.kind.VisibleSubtree? ==> ComparableBelow(t, q) && ComparableBelow(other, q)
    requires Restrict(other, Frontier(other, q)) == Restrict(t, Frontier(t, q))
    ensures Resolve(other, q) == Resolve(t, q)
  {
    Locality(t, q);
    Locality(other, q);
  }
}
