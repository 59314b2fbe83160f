/** What a query's frontier is, said without its seeds and without its worklist: as long as the chains
    of the mounts it concerns are valid, it holds exactly those mounts. */
module MountFrontier {
  import opened Outcomes
  import opened Paths
  import opened MountTable
  import opened MountChains
  import opened MountClosure
  import opened MountLocality

  /** The mounts a query concerns: those at points above its path and, for a subtree query, below it. */
  ghost predicate Concerns(q: Query, r: MountRecord) {
    || Within(Normalize(q.path), r.mountPoint)
    || (q.kind.VisibleSubtree? && Within(r.mountPoint, Normalize(q.path)))
  }

  /** Some mount the query concerns has no valid chain. */
  ghost predicate BrokenChain(t: Table, q: Query) {
    exists r :: r in t && Concerns(q, r) && !ValidChain(t, r)
  }

  lemma SeedsConcern(t: Table, q: Query)
    ensures forall r :: r in Seeds(t, q) <==> r in t && Concerns(q, r)
  {
    SeedsInTable(t, q);
  }

  /** Going up to an ancestor never leaves the concerned mounts. */
  lemma AncestorConcerned(q: Query, r: MountRecord, n: MountRecord)
    requires Concerns(q, r) && Within(r.mountPoint, n.mountPoint)
    ensures Concerns(q, n)
  {
    var p := Normalize(q.path);
    if Within(p, r.mountPoint) {
      WithinTransitive(p, r.mountPoint, n.mountPoint);
    } else {
      WithinComparable(r.mountPoint, p, n.mountPoint);
    }
  }

  /** Nor does anything the worklist looks at, when the chain is valid. */
  lemma NeighbourConcerned(t: Table, q: Query, r: MountRecord, n: MountRecord)
    requires UniqueIds(t) && r in t && Concerns(q, r) && ValidChain(t, r) && n in Neighbours(t, r)
    ensures n in t && Concerns(q, n)
  {
    hide Concerns;
    NeighboursIff(t, r, n);
    TerminalIff(t, r);
    if n.mountPoint == r.mountPoint {
      AncestorConcerned(q, r, n);
    } else if r.parentId == r.mountId {
      SameId(t, r, n);
    } else {
      assert IsParent(t, r, n);
      AncestorConcerned(q, r, n);
    }
  }

  lemma {:induction false} FreshNothing(closed: seq<MountRecord>, candidates: seq<MountRecord>)
    requires forall n :: n in candidates ==> n in closed
    ensures Fresh(closed, candidates) == []
  {
    if candidates != [] {
      assert candidates[0] in candidates;
      FreshNothing(closed, candidates[1..]);
    }
  }

  /** A worklist that already holds all it will look at only empties itself. */
  lemma {:induction false} ClosureStays(t: Table, closed: seq<MountRecord>, pending: seq<MountRecord>)
    requires forall r, n :: r in pending && n in Neighbours(t, r) ==> n in closed
    ensures Closure(t, closed, pending) == closed
    decreases |pending|
  {
    if pending != [] {
      var k := |pending| - 1;
      assert pending[k] in pending;
      FreshNothing(closed, Neighbours(t, pending[k]));
      assert closed + [] == closed && pending[..k] + [] == pending[..k];
      ClosureStays(t, closed, pending[..k]);
    }
  }

  lemma FrontierIsSeeds(t: Table, q: Query)
    requires UniqueIds(t) && !BrokenChain(t, q)
    ensures Frontier(t, q) == Seeds(t, q)
  {
    hide Concerns, Closure, Seeds, Neighbours, ChainAccepted, UniqueIds;
    var seeds := Seeds(t, q);
    SeedsConcern(t, q);
    forall r, n | r in seeds && n in Neighbours(t, r) ensures n in seeds { NeighbourConcerned(t, q, r, n); }
    ClosureStays(t, seeds, seeds);
  }

  /** The frontier, exactly, in order: the mounts at points above the path in table order, then for a
      subtree query the others below it. */
  lemma FrontierExact(t: Table, q: Query)
    requires UniqueIds(t) && !BrokenChain(t, q)
    ensures var p := Normalize(q.path);
      Frontier(t, q) == Filter(t, (r: MountRecord) => Within(p, r.mountPoint))
        + if q.kind.PointLookup? then []
          else Filter(t, (r: MountRecord) => Within(r.mountPoint, p) && !Within(p, r.mountPoint))
  {
    hide Within;
    FrontierIsSeeds(t, q);
    var p := Normalize(q.path);
    var above := Filter(t, (r: MountRecord) => Within(p, r.mountPoint));
    FilterSame(t, (r: MountRecord) => Within(r.mountPoint, p) && r !in above,
      (r: MountRecord) => Within(r.mountPoint, p) && !Within(p, r.mountPoint));
    assert above + [] == above;
  }

  /** The validation loop of a query refuses exactly when a concerned mount has no valid chain. */
  lemma FrontierValidIff(t: Table, q: Query)
    requires UniqueIds(t)
    ensures AllValid(t, Frontier(t, q)) <==> !BrokenChain(t, q)
  {
    hide Concerns, Closure, Seeds, ChainAccepted, UniqueIds;
    SeedsConcern(t, q);
    FrontierClosed(t, q);
    if !BrokenChain(t, q) { FrontierIsSeeds(t, q); }
  }
}
