/** The mount table as a parent-pointer graph, and the answers the resolver computes from it,
    written as functions of the table. Tables are arbitrary: parents may be missing, chains may
    cycle, several mounts may share a point. */
module MountTable {
  import opened Outcomes
  import opened Paths

  datatype MountRecord = MountRecord(
    mountId: int, parentId: int, device: int, root: string, mountPoint: string, filesystemType: string)

  type Table = seq<MountRecord>

  predicate UniqueIds(t: Table) {
    forall i, j :: 0 <= i < j < |t| ==> t[i].mountId != t[j].mountId
  }

  function Ids(t: Table): (ids: set<int>)
    ensures forall r :: r in t ==> r.mountId in ids
    ensures forall id :: id in ids ==> exists r :: r in t && r.mountId == id
  {
    set r | r in t :: r.mountId
  }

  lemma SameId(t: Table, a: MountRecord, b: MountRecord)
    requires UniqueIds(t) && a in t && b in t && a.mountId == b.mountId
    ensures a == b
  {
    var i :| 0 <= i < |t| && t[i] == a;
    var j :| 0 <= j < |t| && t[j] == b;
    assert i == j;
  }

  lemma {:induction false} FilterUnique(t: Table, p: MountRecord -> bool)
    requires UniqueIds(t)
    ensures UniqueIds(Filter(t, p))
  {
    if t != [] {
      FilterUnique(t[1..], p);
      var rest := Filter(t[1..], p);
      forall j | 0 <= j < |rest| ensures rest[j].mountId != t[0].mountId {
        assert rest[j] in t[1..];
        var k :| 0 <= k < |t[1..]| && t[1..][k] == rest[j];
        assert t[1..][k] == t[k + 1];
      }
    }
  }

  /** `self.by_id.get(id)` */
  function Lookup(t: Table, id: int): (o: Option<MountRecord>)
    ensures o.Some? ==> o.value in t && o.value.mountId == id
    ensures o.None? <==> id !in Ids(t)
  {
    if t == [] then None else if t[0].mountId == id then Some(t[0]) else Lookup(t[1..], id)
  }

  lemma LookupFinds(t: Table, r: MountRecord)
    requires UniqueIds(t) && r in t
    ensures Lookup(t, r.mountId) == Some(r)
  {
    SameId(t, r, Lookup(t, r.mountId).value);
  }

  /** `self.children.get(id, [])` */
  function ChildrenOf(t: Table, id: int): seq<MountRecord> {
    Filter(t, (r: MountRecord) => r.parentId == id)
  }

  function ChildrenAt(t: Table, id: int, point: string): seq<MountRecord> {
    Filter(t, (r: MountRecord) => r.parentId == id && r.mountPoint == point)
  }

  /** Other mounts stacked on `m` at `point`. */
  function Stacked(t: Table, m: MountRecord, point: string): seq<MountRecord> {
    Filter(t, (r: MountRecord) => r.parentId == m.mountId && r.mountPoint == point && r.mountId != m.mountId)
  }

  // ---- Parent chains -----------------------------------------------------------------------

  /** A chain ends at a record whose parent is absent or itself. */
  predicate Terminal(t: Table, r: MountRecord) {
    r.parentId !in Ids(t) || r.parentId == r.mountId
  }

  function Parent(t: Table, r: MountRecord): (p: MountRecord)
    requires !Terminal(t, r)
    ensures p in t && p.mountId == r.parentId
  {
    Lookup(t, r.parentId).value
  }

  /** The loop of `validate_relevant_chain_v2` from `current` with these ids already seen. */
  predicate ChainAccepted(t: Table, current: MountRecord, seen: set<int>)
    decreases Ids(t) - seen
  {
    if Terminal(t, current) then current.mountPoint == "/"
    else
      var parent := Parent(t, current);
      && Within(current.mountPoint, parent.mountPoint)
      && parent.mountId !in seen
      && ChainAccepted(t, parent, seen + {parent.mountId})
  }

  predicate ValidChain(t: Table, r: MountRecord) {
    ChainAccepted(t, r, {r.mountId})
  }

  // ---- The governing walk ------------------------------------------------------------------

  function Roots(t: Table): seq<MountRecord> {
    Filter(t, (r: MountRecord) => r.mountPoint == "/")
  }

  function Bases(t: Table): seq<MountRecord> {
    Filter(Roots(t), (r: MountRecord) => Terminal(t, r))
  }

  /** `_climb_stack_v2` with these ids already visited. */
  function Climb(t: Table, current: MountRecord, point: string, visited: set<int>): Outcome<MountRecord>
    decreases Ids(t) - visited
  {
    var stacked := Stacked(t, current, point);
    if stacked == [] then Resolved(current)
    else if |stacked| > 1 then Refused
    else if stacked[0].mountId in visited then Refused
    else
      assert stacked[0] in stacked;
      Climb(t, stacked[0], point, visited + {stacked[0].mountId})
  }

  function VisibleRoot(t: Table): Outcome<MountRecord> {
    if Roots(t) == [] then Refused
    else if |Bases(t)| != 1 then Refused
    else Climb(t, Bases(t)[0], "/", {Bases(t)[0].mountId})
  }

  /** The component loop of `_governing_mount_raw_v2`, having consumed `k` components. */
  function Descend(t: Table, current: MountRecord, cs: seq<string>, k: nat): Outcome<MountRecord>
    requires k <= |cs|
    decreases |cs| - k
  {
    if k == |cs| then Resolved(current)
    else
      var prefix := Slashed(cs[..k + 1]);
      var attached := ChildrenAt(t, current.mountId, prefix);
      if attached == [] then Descend(t, current, cs, k + 1)
      else if |attached| > 1 then Refused
      else
        var top :- Climb(t, attached[0], prefix, {attached[0].mountId});
        Descend(t, top, cs, k + 1)
  }

  /** The walk alone, before the closing chain check. */
  function Walk(t: Table, cs: seq<string>): Outcome<MountRecord> {
    var root :- VisibleRoot(t);
    Descend(t, root, cs, 0)
  }

  /** `_governing_mount_raw_v2` */
  function Governing(t: Table, path: string): Outcome<MountRecord> {
    var g :- Walk(t, Components(Normalize(path)));
    if ValidChain(t, g) then Resolved(g) else Refused
  }

  /** `_is_visible_raw_v2` without its cache. */
  function Visible(t: Table, r: MountRecord): Outcome<bool> {
    var g :- Governing(t, r.mountPoint);
    Resolved(g.mountId == r.mountId)
  }

  // ---- Queries -----------------------------------------------------------------------------

  datatype QueryKind = PointLookup | VisibleSubtree
  datatype Query = Query(kind: QueryKind, path: string)

  /** `_semantic_seeds_v2` */
  function Seeds(t: Table, q: Query): seq<MountRecord> {
    var path := Normalize(q.path);
    var above := Filter(t, (r: MountRecord) => Within(path, r.mountPoint));
    if q.kind.PointLookup? then above
    else above + Filter(t, (r: MountRecord) => Within(r.mountPoint, path) && r !in above)
  }

  /** What one record makes the closure look at: its parent, its siblings at the same point, its
      children at the same point, in that order. */
  function Neighbours(t: Table, r: MountRecord): seq<MountRecord> {
    (match Lookup(t, r.parentId) case Some(p) => [p] case None => [])
    + ChildrenAt(t, r.parentId, r.mountPoint)
    + ChildrenAt(t, r.mountId, r.mountPoint)
  }

  /** The candidates whose id is new, each once, in order. */
  function Fresh(closed: seq<MountRecord>, candidates: seq<MountRecord>): (added: seq<MountRecord>)
    ensures forall r :: r in added ==> r in candidates && r.mountId !in Ids(closed)
    ensures forall r :: r in candidates ==> r.mountId in Ids(closed + added)
    decreases |candidates|
  {
    if candidates == [] then
      assert closed + [] == closed;
      []
    else if candidates[0].mountId in Ids(closed) then
      var rest := Fresh(closed, candidates[1..]);
      assert forall r :: r in closed ==> r in closed + rest;
      rest
    else
      var rest := Fresh(closed + [candidates[0]], candidates[1..]);
      assert closed + [candidates[0]] + rest == closed + ([candidates[0]] + rest);
      assert forall r :: r in closed ==> r in closed + [candidates[0]];
      assert candidates[0] in closed + ([candidates[0]] + rest);
      [candidates[0]] + rest
  }

  lemma NeighboursInTable(t: Table, r: MountRecord)
    ensures forall n :: n in Neighbours(t, r) ==> n in t
  {}

  /** The worklist of `_dependency_closure_v2`: `closed` in insertion order, `pending` a stack. */
  function Closure(t: Table, closed: seq<MountRecord>, pending: seq<MountRecord>): seq<MountRecord>
    decreases Ids(t) - Ids(closed), |pending|
  {
    if pending == [] then closed
    else
      var record := pending[|pending| - 1];
      var added := Fresh(closed, Neighbours(t, record));
      assert Ids(closed) <= Ids(closed + added) by {
        assert forall r :: r in closed ==> r in closed + added;
      }
      assert added != [] ==> added[0].mountId in Ids(t) - Ids(closed) && added[0] in closed + added by {
        if added != [] { assert added[0] in added; NeighboursInTable(t, record); }
      }
      Closure(t, closed + added, pending[..|pending| - 1] + added)
  }

  function Frontier(t: Table, q: Query): seq<MountRecord> {
    Closure(t, Seeds(t, q), Seeds(t, q))
  }

  predicate AllValid(t: Table, rs: seq<MountRecord>) {
    forall r :: r in rs ==> ValidChain(t, r)
  }

  /** The prefix a mount point must have to lie strictly below a path. */
  function BelowPrefix(path: string): string {
    RStrip(path) + "/"
  }

  /** The generator over the frontier: keep visible mounts below `prefix`, refusing as soon as a
      visibility question refuses. */
  function VisibleBelow(t: Table, rs: seq<MountRecord>, prefix: string): Outcome<seq<MountRecord>> {
    if rs == [] then Resolved([])
    else if !(prefix <= rs[0].mountPoint) then VisibleBelow(t, rs[1..], prefix)
    else
      var visible :- Visible(t, rs[0]);
      var rest :- VisibleBelow(t, rs[1..], prefix);
      Resolved(if visible then [rs[0]] + rest else rest)
  }

  datatype Resolution = Resolution(
    query: Query, governing: MountRecord, frontier: seq<MountRecord>, descendants: seq<MountRecord>)

  /** `resolve_query_v2` */
  function Resolve(t: Table, q: Query): Outcome<Resolution> {
    var frontier := Frontier(t, q);
    if !AllValid(t, frontier) then Refused
    else
      var governing :- Governing(t, q.path);
      if q.kind.PointLookup? then Resolved(Resolution(q, governing, frontier, []))
      else
        var below :- VisibleBelow(t, frontier, BelowPrefix(Normalize(q.path)));
        Resolved(Resolution(q, governing, frontier, below))
  }

  // ---- Projection --------------------------------------------------------------------------

  datatype Location = Location(device: int, internal: string)

  /** The last lines of `project_v2`: where `path` lies inside its governing mount's filesystem. */
  function Project(path: string, governing: MountRecord): Outcome<Location> {
    var skip := |RStrip(governing.mountPoint)|;
    var remainder := if skip <= |path| then path[skip..] else "";
    if remainder == "" || governing.mountPoint == path then
      Resolved(Location(governing.device, governing.root))
    else
      var internal := Normalize(RStrip(governing.root) + remainder);
      if Within(internal, governing.root) then Resolved(Location(governing.device, internal)) else Refused
  }
}
