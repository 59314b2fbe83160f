/** `RawMountTopologyRepresentationV2`: the indexed table with its visibility cache, its loops and
    its worklist, proved against the functions of `MountTable`. */
module MountResolver {
  import opened Outcomes
  import opened Paths
  import opened MountTable
  import opened MountTrail
  import opened MountClosure
  import opened MountLocality
  import opened MountAnswers
  import opened MountProjection

  lemma ChildrenAtFromIndex(t: Table, id: int, point: string)
    ensures Filter(ChildrenOf(t, id), (r: MountRecord) => r.mountPoint == point) == ChildrenAt(t, id, point)
  {
    FilterTwice(t, (r: MountRecord) => r.parentId == id, (r: MountRecord) => r.mountPoint == point,
      (r: MountRecord) => r.parentId == id && r.mountPoint == point);
  }

  lemma StackedFromIndex(t: Table, m: MountRecord, point: string)
    ensures Filter(ChildrenOf(t, m.mountId), (r: MountRecord) => r.mountPoint == point && r.mountId != m.mountId)
      == Stacked(t, m, point)
  {
    FilterTwice(t, (r: MountRecord) => r.parentId == m.mountId,
      (r: MountRecord) => r.mountPoint == point && r.mountId != m.mountId,
      (r: MountRecord) => r.parentId == m.mountId && r.mountPoint == point && r.mountId != m.mountId);
  }

  lemma ChildrenGrow(t: Table, i: nat, id: int)
    requires i < |t|
    ensures ChildrenOf(t[..i + 1], id) == ChildrenOf(t[..i], id) + if t[i].parentId == id then [t[i]] else []
  {
    assert t[..i + 1] == t[..i] + [t[i]];
    FilterAppend(t[..i], [t[i]], (r: MountRecord) => r.parentId == id);
    assert [t[i]][1..] == [];
  }

  /** Admitting two batches of candidates one after the other. */
  lemma {:induction false} FreshAppend(closed: seq<MountRecord>, a: seq<MountRecord>, b: seq<MountRecord>)
    ensures Fresh(closed, a + b) == Fresh(closed, a) + Fresh(closed + Fresh(closed, a), b)
    decreases |a|
  {
    if a == [] {
      assert a + b == b && closed + [] == closed;
    } else {
      assert (a + b)[1..] == a[1..] + b;
      if a[0].mountId in Ids(closed) {
        FreshAppend(closed, a[1..], b);
      } else {
        FreshAppend(closed + [a[0]], a[1..], b);
        FreshStep(closed, a);
      }
    }
  }

  lemma Associate<T>(x: seq<T>, a: seq<T>, b: seq<T>)
    ensures x + (a + b) == x + a + b
  {}

  lemma FreshThree(closed: seq<MountRecord>, a: seq<MountRecord>, b: seq<MountRecord>, c: seq<MountRecord>,
                   first: seq<MountRecord>, second: seq<MountRecord>, third: seq<MountRecord>)
    requires first == Fresh(closed, a) && second == Fresh(closed + first, b) && third == Fresh(closed + first + second, c)
    ensures Fresh(closed, a + b + c) == first + second + third
  {
    FreshAppend(closed, a, b);
    FreshAppend(closed, a + b, c);
    Associate(closed, first, second);
  }

  lemma Regroup<T>(x: seq<T>, a: seq<T>, b: seq<T>, c: seq<T>)
    ensures x + a + b + c == x + (a + b + c)
  {}

  function Prepend(kept: seq<MountRecord>, rest: Outcome<seq<MountRecord>>): Outcome<seq<MountRecord>> {
    if rest.Refused? then Refused else Resolved(kept + rest.value)
  }

  lemma PrependNothing(rest: Outcome<seq<MountRecord>>)
    ensures Prepend([], rest) == rest
  {
    if rest.Resolved? { assert [] + rest.value == rest.value; }
  }

  lemma VisibleBelowStep(t: Table, rs: seq<MountRecord>, prefix: string, i: nat, kept: seq<MountRecord>)
    requires i < |rs|
    ensures Prepend(kept, VisibleBelow(t, rs[i..], prefix)) ==
      if !(prefix <= rs[i].mountPoint) then Prepend(kept, VisibleBelow(t, rs[i + 1..], prefix))
      else if Visible(t, rs[i]).Refused? then Refused
      else Prepend(if Visible(t, rs[i]).value then kept + [rs[i]] else kept, VisibleBelow(t, rs[i + 1..], prefix))
  {
    assert rs[i..][0] == rs[i] && rs[i..][1..] == rs[i + 1..];
    var rest := VisibleBelow(t, rs[i + 1..], prefix);
    if rest.Resolved? { assert kept + ([rs[i]] + rest.value) == kept + [rs[i]] + rest.value; }
  }

  function KidsIn(children: map<int, seq<MountRecord>>, id: int): seq<MountRecord> {
    if id in children then children[id] else []
  }

  lemma SeedsUnique(t: Table, q: Query)
    requires UniqueIds(t)
    ensures UniqueIds(Seeds(t, q))
  {
    var path := Normalize(q.path);
    var above := Filter(t, (r: MountRecord) => Within(path, r.mountPoint));
    FilterUnique(t, (r: MountRecord) => Within(path, r.mountPoint));
    if q.kind.VisibleSubtree? {
      var below := Filter(t, (r: MountRecord) => Within(r.mountPoint, path) && r !in above);
      FilterUnique(t, (r: MountRecord) => Within(r.mountPoint, path) && r !in above);
      forall i, j | 0 <= i < |above| && 0 <= j < |below| ensures above[i].mountId != below[j].mountId {
        assert above[i] in above && below[j] in below;
        if above[i].mountId == below[j].mountId { SameId(t, above[i], below[j]); }
      }
    }
  }

  /** What a cache remembers is what recomputation would say. */
  ghost predicate CacheOk(t: Table, cache: map<int, bool>) {
    forall r {:trigger Visible(t, r)} :: r in t && r.mountId in cache ==> Visible(t, r) == Resolved(cache[r.mountId])
  }

  lemma CacheHit(t: Table, cache: map<int, bool>, record: MountRecord)
    requires CacheOk(t, cache) && record in t && record.mountId in cache
    ensures Visible(t, record) == Resolved(cache[record.mountId])
    ensures cache == cache[record.mountId := cache[record.mountId]]
  {}

  lemma CacheExtend(t: Table, cache: map<int, bool>, record: MountRecord)
    requires UniqueIds(t) && record in t && CacheOk(t, cache) && Visible(t, record).Resolved?
    ensures CacheOk(t, cache[record.mountId := Visible(t, record).value])
  {
    var v := Visible(t, record).value;
    var next := cache[record.mountId := v];
    forall r | r in t && r.mountId in next ensures Visible(t, r) == Resolved(next[r.mountId]) {
      if r.mountId == record.mountId { SameId(t, r, record); }
    }
  }

  lemma NormalResolves(t: Table, path: string)
    ensures var q, n := Query(PointLookup, path), Query(PointLookup, Normalize(path));
      && (Resolve(t, q).Resolved? <==> Resolve(t, n).Resolved?)
      && (Resolve(t, q).Resolved? ==> Resolve(t, q).value.governing == Resolve(t, n).value.governing)
  {
    var q, n := Query(PointLookup, path), Query(PointLookup, Normalize(path));
    NormalizeIdempotent(path);
    assert Seeds(t, q) == Seeds(t, n);
    assert Governing(t, q.path) == Governing(t, n.path);
  }

  /** Some mount at a point above the path has no valid chain. */
  ghost predicate BrokenAbove(t: Table, path: string) {
    exists r :: r in t && Within(Normalize(path), r.mountPoint) && !ValidChain(t, r)
  }

  lemma PointRefused(t: Table, path: string)
    requires UniqueIds(t)
    ensures Resolve(t, Query(PointLookup, path)).Refused? <==> BrokenAbove(t, path) || Ungoverned(t, Components(Normalize(path)))
    ensures Resolve(t, Query(PointLookup, path)).Resolved? ==>
      Governs(t, Components(Normalize(path)), Resolve(t, Query(PointLookup, path)).value.governing)
  {
    hide Components, Normalize, ChainAccepted, Governs, Ungoverned, Closure, Within;
    PointAnswerIff(t, path, MountRecord(0, 0, 0, "", "", ""));
    var q := Query(PointLookup, path);
    if Resolve(t, q).Resolved? { GoverningIff(t, path, Resolve(t, q).value.governing); }
  }

  /** Where a path is projected, and when it is refused: by the point query, or as an escape from the
      mount that governs it. */
  lemma ProjectionRefused(t: Table, path: string)
    requires UniqueIds(t)
    ensures var location := (var r :- Resolve(t, Query(PointLookup, path)); Project(Normalize(path), r.governing));
      && (location.Refused? <==>
        || BrokenAbove(t, path) || Ungoverned(t, Components(Normalize(path)))
        || exists g :: Governs(t, Components(Normalize(path)), g) && Escapes(path, g))
      && (location.Resolved? ==> forall g :: Governs(t, Components(Normalize(path)), g) ==> location == Project(Normalize(path), g))
  {
    hide Resolve, Governing, Governs, Ungoverned, Project, Escapes, Components, Normalize, BrokenAbove, UniqueIds;
    PointRefused(t, path);
    forall g | Governs(t, Components(Normalize(path)), g)
      ensures Project(Normalize(path), g).Refused? <==> Escapes(path, g)
      ensures Governing(t, path) == Resolved(g)
    {
      GoverningIff(t, path, g);
      EscapeIff(t, path, g);
    }
  }

  class RawMountTopology {
    const records: Table
    var byId: map<int, MountRecord>
    var children: map<int, seq<MountRecord>>
    var visibleCache: map<int, bool>

    /** `self.children.get(id, [])` */
    function Kids(id: int): seq<MountRecord>
      reads this`children
    {
      KidsIn(children, id)
    }

    ghost predicate Indexed()
      reads this`byId, this`children
    {
      && UniqueIds(records)
      && byId.Keys == Ids(records) && (forall r :: r in records ==> r.mountId in byId && byId[r.mountId] == r)
      && (forall id {:trigger Kids(id)} :: Kids(id) == ChildrenOf(records, id))
    }

    ghost predicate Valid()
      reads this
    {
      Indexed() && CacheOk(records, visibleCache)
    }

    constructor (records: Table)
      ensures this.records == records && byId == map[] && children == map[] && visibleCache == map[]
    {
      this.records := records;
      byId, children, visibleCache := map[], map[], map[];
    }

    ghost predicate IdsIndexed(i: nat)
      requires i <= |records|
      reads this
    {
      && UniqueIds(records[..i]) && byId.Keys == Ids(records[..i])
      && forall r :: r in records[..i] ==> r.mountId in byId && byId[r.mountId] == r
    }

    lemma IdsIndexedStep(i: nat)
      requires i < |records| && IdsIndexed(i)
      ensures records[i].mountId in byId ==> !UniqueIds(records)
      ensures records[i].mountId !in byId ==> UniqueIds(records[..i + 1])
      ensures Ids(records[..i + 1]) == Ids(records[..i]) + {records[i].mountId}
      ensures forall r :: r in records[..i + 1] <==> r in records[..i] || r == records[i]
    {
      var record := records[i];
      assert records[..i + 1] == records[..i] + [record];
      IdsExtend(records[..i], record);
      if record.mountId in byId {
        var earlier: MountRecord :| earlier in records[..i] && earlier.mountId == record.mountId;
        var j :| 0 <= j < i && records[..i][j] == earlier;
        assert records[j].mountId == records[i].mountId;
      } else {
        forall j | 0 <= j < i ensures records[j].mountId != record.mountId {
          assert records[..i][j] in records[..i];
        }
      }
    }

    /** The first loop of `__init__`; `false` is its refusal of a repeated mount id. */
    method IndexIds() returns (ok: bool)
      requires byId == map[]
      modifies this`byId
      ensures ok <==> UniqueIds(records)
      ensures ok ==> byId.Keys == Ids(records) && forall r :: r in records ==> r.mountId in byId && byId[r.mountId] == r
    {
      for i := 0 to |records|
        invariant IdsIndexed(i)
      {
        IdsIndexedStep(i);
        if records[i].mountId in byId {
          return false;
        }
        byId := byId[records[i].mountId := records[i]];
      }
      assert records[..|records|] == records;
      ok := true;
    }

    /** The second loop of `__init__`. */
    method IndexChildren()
      requires children == map[]
      modifies this`children
      ensures forall id {:trigger Kids(id)} :: Kids(id) == ChildrenOf(records, id)
    {
      for i := 0 to |records|
        invariant forall id {:trigger KidsIn(children, id)} :: KidsIn(children, id) == ChildrenOf(records[..i], id)
      {
        var record := records[i];
        ghost var before := children;
        children := children[record.parentId := Kids(record.parentId) + [record]];
        forall id ensures KidsIn(children, id) == ChildrenOf(records[..i + 1], id) {
          ChildrenGrow(records, i, id);
          assert KidsIn(before, id) == ChildrenOf(records[..i], id);
        }
      }
      assert records[..|records|] == records;
    }

    /** `RawMountTopologyRepresentationV2(records)` */
    static method Load(records: Table) returns (loaded: Outcome<RawMountTopology>)
      ensures loaded.Resolved? <==> UniqueIds(records)
      ensures loaded.Resolved? ==> fresh(loaded.value) && loaded.value.Valid() && loaded.value.records == records
    {
      var raw := new RawMountTopology(records);
      var ok := raw.IndexIds();
      if !ok {
        return Refused;
      }
      raw.IndexChildren();
      loaded := Resolved(raw);
    }

    method ValidateRelevantChain(record: MountRecord) returns (ok: bool)
      requires Valid()
      ensures ok <==> ValidChain(records, record)
    {
      var seen := {record.mountId};
      var current := record;
      while true
        invariant ValidChain(records, record) <==> ChainAccepted(records, current, seen)
        decreases Ids(records) - seen
      {
        var atRoot := current.mountPoint == "/";
        var absent := current.parentId !in byId;
        var selfParent := current.parentId == current.mountId;
        if absent || selfParent {
          return atRoot;
        }
        var parent := byId[current.parentId];
        LookupFinds(records, Parent(records, current));
        if !Within(current.mountPoint, parent.mountPoint) {
          return false;
        }
        current := parent;
        if current.mountId in seen {
          return false;
        }
        seen := seen + {current.mountId};
      }
    }

    method ClimbStack(start: MountRecord, point: string) returns (top: Outcome<MountRecord>)
      requires Valid()
      ensures top == Climb(records, start, point, {start.mountId})
    {
      var current := start;
      var visited := {current.mountId};
      while true
        invariant Climb(records, start, point, {start.mountId}) == Climb(records, current, point, visited)
        decreases Ids(records) - visited
      {
        var stacked := Filter(Kids(current.mountId),
          (child: MountRecord) => child.mountPoint == point && child.mountId != current.mountId);
        StackedFromIndex(records, current, point);
        if stacked == [] {
          return Resolved(current);
        }
        if |stacked| > 1 {
          return Refused;
        }
        assert stacked[0] in stacked;
        current := stacked[0];
        if current.mountId in visited {
          return Refused;
        }
        visited := visited + {current.mountId};
      }
    }

    method VisibleRootMount() returns (root: Outcome<MountRecord>)
      requires Valid()
      ensures root == VisibleRoot(records)
    {
      var roots := Filter(records, (r: MountRecord) => r.mountPoint == "/");
      if roots == [] {
        return Refused;
      }
      var known := byId.Keys;
      var base := Filter(roots, (r: MountRecord) => r.parentId !in known || r.parentId == r.mountId);
      FilterSame(roots, (r: MountRecord) => r.parentId !in known || r.parentId == r.mountId,
        (r: MountRecord) => Terminal(records, r));
      if |base| != 1 {
        return Refused;
      }
      root := ClimbStack(base[0], "/");
    }

    method GoverningMountRaw(path: string) returns (governing: Outcome<MountRecord>)
      requires Valid()
      ensures governing == Governing(records, path)
    {
      var components := Components(Normalize(path));
      var root := VisibleRootMount();
      if root.Refused? {
        return Refused;
      }
      var current := root.value;
      var prefix := "";
      for k := 0 to |components|
        invariant prefix == Slashed(components[..k])
        invariant Walk(records, components) == Descend(records, current, components, k)
      {
        SlashedExtend(components, k);
        prefix := prefix + "/" + components[k];
        var attached := Filter(Kids(current.mountId), (child: MountRecord) => child.mountPoint == prefix);
        ChildrenAtFromIndex(records, current.mountId, prefix);
        if attached == [] {
          continue;
        }
        if |attached| > 1 {
          return Refused;
        }
        var top := ClimbStack(attached[0], prefix);
        if top.Refused? {
          return Refused;
        }
        current := top.value;
      }
      var ok := ValidateRelevantChain(current);
      governing := if ok then Resolved(current) else Refused;
    }

    /** The cached visibility question: its answer is the recomputed one whatever was asked before. */
    method IsVisibleRaw(record: MountRecord) returns (visible: Outcome<bool>)
      requires Valid() && record in records
      modifies this`visibleCache
      ensures Valid()
      ensures visible == Visible(records, record)
      ensures visibleCache == if visible.Resolved? then old(visibleCache)[record.mountId := visible.value] else old(visibleCache)
    {
      if record.mountId in visibleCache {
        CacheHit(records, visibleCache, record);
        return Resolved(visibleCache[record.mountId]);
      }
      var governing := GoverningMountRaw(record.mountPoint);
      if governing.Refused? {
        return Refused;
      }
      visible := Resolved(governing.value.mountId == record.mountId);
      CacheExtend(records, visibleCache, record);
      visibleCache := visibleCache[record.mountId := visible.value];
    }

    /** One `for` of the worklist: append every candidate whose id is not closed yet. */
    method Admit(candidates: seq<MountRecord>, closed0: seq<MountRecord>, pending0: seq<MountRecord>)
      returns (closed: seq<MountRecord>, pending: seq<MountRecord>)
      ensures closed == closed0 + Fresh(closed0, candidates)
      ensures pending == pending0 + Fresh(closed0, candidates)
    {
      closed, pending := closed0, pending0;
      for i := 0 to |candidates|
        invariant closed + Fresh(closed, candidates[i..]) == closed0 + Fresh(closed0, candidates)
        invariant pending + Fresh(closed, candidates[i..]) == pending0 + Fresh(closed0, candidates)
      {
        assert candidates[i..][1..] == candidates[i + 1..];
        if candidates[i].mountId !in Ids(closed) {
          FreshStep(closed, candidates[i..]);
          ghost var tail := Fresh(closed + [candidates[i]], candidates[i + 1..]);
          Associate(pending, [candidates[i]], tail);
          closed, pending := closed + [candidates[i]], pending + [candidates[i]];
        }
      }
    }

    /** The body of the worklist loop after the pop. */
    method AdmitNeighbours(record: MountRecord, closed0: seq<MountRecord>, pending0: seq<MountRecord>)
      returns (closed: seq<MountRecord>, pending: seq<MountRecord>)
      requires Valid()
      ensures closed == closed0 + Fresh(closed0, Neighbours(records, record))
      ensures pending == pending0 + Fresh(closed0, Neighbours(records, record))
    {
      var parent := if record.parentId in byId then [byId[record.parentId]] else [];
      if record.parentId in byId { LookupFinds(records, byId[record.parentId]); }
      closed, pending := Admit(parent, closed0, pending0);
      var siblings := Filter(Kids(record.parentId), (s: MountRecord) => s.mountPoint == record.mountPoint);
      ChildrenAtFromIndex(records, record.parentId, record.mountPoint);
      closed, pending := Admit(siblings, closed, pending);
      var stacked := Filter(Kids(record.mountId), (c: MountRecord) => c.mountPoint == record.mountPoint);
      ChildrenAtFromIndex(records, record.mountId, record.mountPoint);
      closed, pending := Admit(stacked, closed, pending);
      ghost var first := Fresh(closed0, parent);
      ghost var second := Fresh(closed0 + first, siblings);
      ghost var third := Fresh(closed0 + first + second, stacked);
      FreshThree(closed0, parent, siblings, stacked, first, second, third);
      Regroup(closed0, first, second, third);
      Regroup(pending0, first, second, third);
      assert Neighbours(records, record) == parent + siblings + stacked;
    }

    method DependencyClosure(seeds: seq<MountRecord>) returns (closed: seq<MountRecord>)
      requires Valid() && UniqueIds(seeds)
      ensures closed == Closure(records, seeds, seeds)
    {
      closed := seeds;
      var pending := seeds;
      while pending != []
        invariant Closure(records, seeds, seeds) == Closure(records, closed, pending)
        decreases Ids(records) - Ids(closed), |pending|
      {
        var record := pending[|pending| - 1];
        PopShrinks(records, Work(closed, pending), |pending| - 1);
        assert pending[..|pending| - 1] + pending[|pending|..] == pending[..|pending| - 1];
        closed, pending := AdmitNeighbours(record, closed, pending[..|pending| - 1]);
      }
    }

    method ValidateAll(frontier: seq<MountRecord>) returns (ok: bool)
      requires Valid()
      ensures ok <==> AllValid(records, frontier)
    {
      for i := 0 to |frontier|
        invariant AllValid(records, frontier[..i])
      {
        var valid := ValidateRelevantChain(frontier[i]);
        if !valid {
          assert frontier[i] in frontier;
          return false;
        }
        assert frontier[..i + 1] == frontier[..i] + [frontier[i]];
      }
      assert frontier[..|frontier|] == frontier;
      ok := true;
    }

    /** The descendants generator of `resolve_query_v2`. */
    method VisibleMembers(frontier: seq<MountRecord>, prefix: string) returns (below: Outcome<seq<MountRecord>>)
      requires Valid() && forall r :: r in frontier ==> r in records
      modifies this`visibleCache
      ensures Valid()
      ensures below == VisibleBelow(records, frontier, prefix)
    {
      var kept := [];
      assert frontier[0..] == frontier;
      PrependNothing(VisibleBelow(records, frontier, prefix));
      for i := 0 to |frontier|
        invariant Valid()
        invariant VisibleBelow(records, frontier, prefix) == Prepend(kept, VisibleBelow(records, frontier[i..], prefix))
      {
        VisibleBelowStep(records, frontier, prefix, i, kept);
        if prefix <= frontier[i].mountPoint {
          var visible := IsVisibleRaw(frontier[i]);
          if visible.Refused? {
            return Refused;
          }
          if visible.value {
            kept := kept + [frontier[i]];
          }
        }
      }
      assert kept + [] == kept;
      below := Resolved(kept);
    }

    /** `resolve_query_v2`: a function of the table alone, whatever the cache held. */
    method ResolveQuery(query: Query) returns (resolution: Outcome<Resolution>)
      requires Valid()
      modifies this`visibleCache
      ensures Valid()
      ensures resolution == Resolve(records, query)
    {
      var seeds := Seeds(records, query);
      SeedsUnique(records, query);
      FrontierClosed(records, query);
      var frontier := DependencyClosure(seeds);
      var ok := ValidateAll(frontier);
      if !ok {
        return Refused;
      }
      var governing := GoverningMountRaw(query.path);
      if governing.Refused? {
        return Refused;
      }
      var descendants := [];
      if query.kind.VisibleSubtree? {
        var below := VisibleMembers(frontier, BelowPrefix(Normalize(query.path)));
        if below.Refused? {
          return Refused;
        }
        descendants := below.value;
      }
      resolution := Resolved(Resolution(query, governing.value, frontier, descendants));
    }

    /** `is_visible_v2`: the point query at the record's own mount point. When it answers, for a record of
        the table or not, the answer is the raw visibility; it may refuse where raw visibility answers,
        because a chain in the frontier is invalid, and for no other reason. */
    method IsVisible(record: MountRecord) returns (visible: Outcome<bool>)
      requires Valid()
      modifies this`visibleCache
      ensures Valid()
      ensures visible == (var r :- Resolve(records, Query(PointLookup, record.mountPoint));
                          Resolved(r.governing.mountId == record.mountId))
      ensures visible.Resolved? ==> visible == Visible(records, record)
      ensures visible.Refused? <==>
        BrokenAbove(records, record.mountPoint) || Ungoverned(records, Components(Normalize(record.mountPoint)))
    {
      PointRefused(records, record.mountPoint);
      var resolution := ResolveQuery(Query(PointLookup, record.mountPoint));
      visible := if resolution.Refused? then Refused else Resolved(resolution.value.governing.mountId == record.mountId);
    }

    /** `project_v2`: whenever the point query resolves, the answer is the projection of the normalised
        path under its governing mount, which `MountProjection.ProjectRightIff` judges. A path that keeps
        two slashes may be refused as an escape, or answered with a wrong place. */
    method ProjectPath(path: string) returns (location: Outcome<Location>)
      requires Valid()
      modifies this`visibleCache
      ensures Valid()
      ensures location == (var r :- Resolve(records, Query(PointLookup, path)); Project(Normalize(path), r.governing))
      ensures location.Refused? <==>
        || BrokenAbove(records, path) || Ungoverned(records, Components(Normalize(path)))
        || exists g :: Governs(records, Components(Normalize(path)), g) && Escapes(path, g)
      ensures location.Resolved? ==>
        forall g :: Governs(records, Components(Normalize(path)), g) ==> location == Project(Normalize(path), g)
    {
      ProjectionRefused(records, path);
      var normal := Normalize(path);
      NormalResolves(records, path);
      var resolution := ResolveQuery(Query(PointLookup, normal));
      if resolution.Refused? {
        return Refused;
      }
      location := Project(normal, resolution.value.governing);
    }
  }
}
