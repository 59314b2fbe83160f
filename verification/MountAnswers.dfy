/** What the resolver's answers mean: the exact paths for which locality holds, and exact
    visibility. */
module MountAnswers {
  import opened Outcomes
  import opened Paths
  import opened MountTable
  import opened MountTrail
  import opened MountLocality
  import opened MountFrontier

  // ---- Locality holds for exactly the tidy paths ----------------------------------------------

  function BaseMount(): MountRecord { MountRecord(1, 0, 0, "/", "/", "x") }
  function ChildMount(c: string, root: string): MountRecord { MountRecord(2, 1, 0, root, Slashed([c]), "x") }

  lemma ChildPoint(c: string)
    requires Clean(c)
    ensures Slashed([c]) == "/" + c && Slashed([c]) == Render([c]) && Slashed([c]) != "/"
  {
    assert [c][1..] == [];
  }

  /** The child's mount point is outside what the text test sees from a double-slash path. */
  lemma ChildNotWithin(c: string, s: string)
    requires Clean(c) && "//" <= s
    ensures !Within(s, Slashed([c]))
  {
    ChildPoint(c);
    var point := "/" + c;
    assert point[1] == c[0] != '/';
    SlashedEndsClean([c]);
    assert (point + "/")[1] == c[0];
    assert s[1] == "//"[1];
  }

  function TwoMounts(c: string, root: string): Table { [BaseMount(), ChildMount(c, root)] }

  lemma TwoMountChildren(c: string, root: string, id: int, point: string)
    ensures ChildrenAt(TwoMounts(c, root), id, point)
      == (if id == 0 && point == "/" then [BaseMount()] else []) + (if id == 1 && point == Slashed([c]) then [ChildMount(c, root)] else [])
  {
    FilterPair(BaseMount(), ChildMount(c, root), (r: MountRecord) => r.parentId == id && r.mountPoint == point);
  }

  lemma TwoMountBases(c: string, root: string)
    requires Clean(c)
    ensures UniqueIds(TwoMounts(c, root)) && Ids(TwoMounts(c, root)) == {1, 2}
    ensures Roots(TwoMounts(c, root)) == [BaseMount()] && Bases(TwoMounts(c, root)) == [BaseMount()]
  {
    var t := TwoMounts(c, root);
    ChildPoint(c);
    assert BaseMount() in t && ChildMount(c, root) in t;
    FilterPair(BaseMount(), ChildMount(c, root), (r: MountRecord) => r.mountPoint == "/");
    assert Terminal(t, BaseMount());
    assert [BaseMount()][1..] == [];
  }

  /** Nor does the text test see the child below a double-slash path. */
  lemma NotWithinDouble(c: string, cs: seq<string>)
    requires Clean(c) && AllClean(cs) && cs != []
    ensures !Within(Slashed([c]), "/" + Render(cs)) && !(BelowPrefix("/" + Render(cs)) <= "/")
  {
    ChildPoint(c);
    SlashedStart(cs);
    StripDouble(cs);
    var p := "/" + Slashed(cs);
    assert (p + "/")[1] == '/' && ("/" + c)[1] == c[0] != '/';
  }

  /** What the text test says of the two mounts and a double-slash path. */
  lemma TwoMountWithin(c: string, path: string)
    requires Clean(c) && !Tidy(path)
    ensures var p := Normalize(path); Within(p, "/") && !Within(p, Slashed([c])) && !Within(Slashed([c]), p)
  {
    var p := Normalize(path);
    var cs := NormalizeShape(path);
    RenderIsSingleSlash(cs);
    assert p[..2] == "//";
    ChildNotWithin(c, p);
    SlashesStrip();
    NotWithinDouble(c, cs);
  }

  lemma TwoMountSeeds(c: string, root: string, q: Query)
    requires Clean(c) && !Tidy(q.path)
    ensures Seeds(TwoMounts(c, root), q) == [BaseMount()]
  {
    hide Within, Normalize, Slashed, Tidy, Clean;
    TwoMountWithin(c, q.path);
    var p, base, child := Normalize(q.path), BaseMount(), ChildMount(c, root);
    var above := (r: MountRecord) => Within(p, r.mountPoint);
    FilterPair(base, child, above);
    assert [base] + [] == [base];
    var seen := Filter([base, child], above);
    FilterPair(base, child, (r: MountRecord) => Within(r.mountPoint, p) && r !in seen);
  }

  lemma TwoMountFrontier(c: string, root: string, q: Query)
    requires Clean(c) && !Tidy(q.path)
    ensures Frontier(TwoMounts(c, root), q) == [BaseMount()]
  {
    var base, t := BaseMount(), TwoMounts(c, root);
    ChildPoint(c);
    TwoMountBases(c, root);
    TwoMountSeeds(c, root, q);
    TwoMountChildren(c, root, 0, "/");
    TwoMountChildren(c, root, 1, "/");
    assert Neighbours(t, base) == [base];
    assert base in [base] && [base][1..] == [];
    var s := [base];
    assert Fresh(s, s) == [];
    assert s + [] == s && s[..|s| - 1] + [] == [];
    assert Closure(t, s, []) == s;
    assert Closure(t, s, s) == Closure(t, s + Fresh(s, s), s[..|s| - 1] + Fresh(s, s));
  }

  lemma TwoMountAttached(c: string, root: string, m: MountRecord, point: string, r: MountRecord)
    requires m == BaseMount() || m == ChildMount(c, root)
    ensures Attached(TwoMounts(c, root), m, point, r) <==> m == BaseMount() && r == ChildMount(c, root) && point == Slashed([c])
  {
    hide Slashed;
    assert ChildMount(c, root) in TwoMounts(c, root);
  }

  lemma TwoMountBase(c: string, root: string)
    requires Clean(c)
    ensures UniqueIds(TwoMounts(c, root)) && SoleBase(TwoMounts(c, root), BaseMount())
  {
    TwoMountBases(c, root);
    SoleBases(TwoMounts(c, root), BaseMount());
  }

  lemma BaseApart(c: string, root: string)
    ensures BaseMount() != ChildMount(c, root)
  {}

  lemma TwoMountGoverning(c: string, root: string, path: string)
    requires Clean(c) && Components(Normalize(path)) != [] && Components(Normalize(path))[0] == c
    ensures Governing(TwoMounts(c, root), path) == Resolved(ChildMount(c, root))
  {
    hide TwoMounts, Slashed, Governing, Components, Normalize, Attached, SoleBase, BaseMount, ChildMount, UniqueIds;
    var base, child, t := BaseMount(), ChildMount(c, root), TwoMounts(c, root);
    var cs := NormalizeShape(path);
    ChildPoint(c);
    TwoMountBase(c, root);
    assert cs[..1] == [c] && cs[..0] == [];
    EmptyRender();
    var s := [Stop(base, 0), Stop(child, 1)];
    BaseApart(c, root);
    forall m, point, r | m == base || m == child
      ensures Attached(t, m, point, r) <==> m == base && r == child && point == Slashed([c])
    {
      TwoMountAttached(c, root, m, point, r);
    }
    assert HopAt(t, cs, s, 0);
    assert Settled(t, cs, s[1]);
    GoverningIff(t, path, child);
  }

  /** The two-mount table answers an untidy query with the child mount. */
  lemma TwoMountResolves(c: string, root: string, q: Query)
    requires !Tidy(q.path) && Components(Normalize(q.path))[0] == c
    ensures Clean(c) && UniqueIds(TwoMounts(c, root))
    ensures Resolve(TwoMounts(c, root), q) == Resolved(Resolution(q, ChildMount(c, root), [BaseMount()], []))
  {
    hide Closure, Descend, Seeds, Components, Normalize;
    var t := TwoMounts(c, root);
    var cs := NormalizeShape(q.path);
    assert cs[0] in cs;
    TwoMountBases(c, root);
    TwoMountFrontier(c, root, q);
    TwoMountGoverning(c, root, q.path);
    assert AllValid(t, [BaseMount()]) by { assert Terminal(t, BaseMount()); }
    NotWithinDouble(c, cs);
    assert [BaseMount()][1..] == [];
    assert VisibleBelow(t, [BaseMount()], BelowPrefix(Normalize(q.path))) == Resolved([]);
  }

  lemma RestrictedMisses(t: Table, cs: seq<string>, q: Query)
    requires AllClean(cs) && cs != [] && cs == Components(Normalize(q.path))
    requires t == TwoMounts(cs[0], "/") && Frontier(t, q) == [BaseMount()] && UniqueIds(t)
    ensures var u := Restrict(t, Frontier(t, q));
      Resolve(u, q).Resolved? ==> Resolve(u, q).value.governing != ChildMount(cs[0], "/")
  {
    hide VisibleRoot, Descend, Frontier, Seeds, AllValid, ChainAccepted, VisibleBelow, Settled, Components, Normalize;
    var f := [BaseMount()];
    var u := Restrict(t, f);
    FilterUnique(t, (r: MountRecord) => r in f);
    if Resolve(u, q).Resolved? {
      var d := WalkCertified(u, cs, Resolve(u, q).value.governing);
    }
  }

  lemma NothingBelow(cs: seq<string>, path: string)
    requires AllClean(cs) && cs != [] && Normalize(path) == "/" + Render(cs)
    ensures forall r :: r in TwoMounts(cs[0], "/") ==> !IsBelow(r.mountPoint, path)
  {
    SlashedStart(cs);
    StripDouble(cs);
    ChildPoint(cs[0]);
    var prefix := "/" + Slashed(cs) + "/";
    assert prefix[1] == '/' && ("/" + cs[0])[1] == cs[0][0];
  }

  /** A path that keeps two slashes before a component breaks locality, for point and subtree queries
      alike: the walk follows a mount that the textual frontier never saw. */
  lemma UntidyWitness(q: Query) returns (t: Table)
    requires !Tidy(q.path)
    ensures UniqueIds(t) && forall r :: r in t ==> !IsBelow(r.mountPoint, q.path)
    ensures Resolve(Restrict(t, Frontier(t, q)), q) != Resolve(t, q)
  {
    hide Resolve, Frontier, Components, Normalize;
    var cs := NormalizeShape(q.path);
    t := TwoMounts(cs[0], "/");
    TwoMountResolves(cs[0], "/", q);
    TwoMountFrontier(cs[0], "/", q);
    RestrictedMisses(t, cs, q);
    NothingBelow(cs, q.path);
  }

  /** The exact condition for point queries: local on every table if and only if the path does not
      normalise to two slashes followed by a component. */
  lemma LocalityExact(path: string)
    ensures Tidy(path) <==>
      forall t: Table {:trigger UniqueIds(t)} :: UniqueIds(t) ==>
        var q := Query(PointLookup, path); Resolve(Restrict(t, Frontier(t, q)), q) == Resolve(t, q)
  {
    hide Resolve, Frontier, Restrict, UniqueIds;
    var q := Query(PointLookup, path);
    if Tidy(path) {
      forall t: Table | UniqueIds(t) ensures Resolve(Restrict(t, Frontier(t, q)), q) == Resolve(t, q) {
        Locality(t, q);
      }
    } else {
      var t := UntidyWitness(q);
      assert UniqueIds(t);
    }
  }

  // ---- Visibility -----------------------------------------------------------------------------

  lemma {:induction false} VisibleBelowMembers(t: Table, rs: seq<MountRecord>, prefix: string, r: MountRecord)
    requires VisibleBelow(t, rs, prefix).Resolved?
    ensures r in VisibleBelow(t, rs, prefix).value
      <==> r in rs && prefix <= r.mountPoint && Visible(t, r) == Resolved(true)
  {
    if rs != [] {
      VisibleBelowMembers(t, rs[1..], prefix, r);
      assert r in rs <==> r == rs[0] || r in rs[1..];
    }
  }

  lemma {:induction false} VisibleBelowRefused(t: Table, rs: seq<MountRecord>, prefix: string)
    ensures VisibleBelow(t, rs, prefix).Refused?
      <==> exists r :: r in rs && prefix <= r.mountPoint && Visible(t, r).Refused?
  {
    if rs != [] {
      VisibleBelowRefused(t, rs[1..], prefix);
      assert forall r :: r in rs <==> r == rs[0] || r in rs[1..];
    }
  }

  lemma {:induction false} VisibleBelowInOrder(t: Table, rs: seq<MountRecord>, prefix: string)
    requires VisibleBelow(t, rs, prefix).Resolved?
    ensures VisibleBelow(t, rs, prefix).value
      == Filter(rs, (r: MountRecord) => prefix <= r.mountPoint && Visible(t, r) == Resolved(true))
  {
    hide Governing;
    if rs != [] { VisibleBelowInOrder(t, rs[1..], prefix); }
  }

  /** A mount is visible exactly when it governs its own mount point. */
  lemma VisibleIff(t: Table, r: MountRecord)
    requires UniqueIds(t) && r in t
    ensures Visible(t, r) == Resolved(true) <==> Governs(t, Components(Normalize(r.mountPoint)), r)
    ensures Visible(t, r).Refused? <==> Ungoverned(t, Components(Normalize(r.mountPoint)))
  {
    GoverningIff(t, r.mountPoint, r);
    var g := Governing(t, r.mountPoint);
    if g.Resolved? {
      var d := GoverningPoint(t, r.mountPoint, g.value);
      if g.value.mountId == r.mountId { SameId(t, g.value, r); }
    }
  }

  /** The mounts below the path that govern their own points. */
  ghost predicate Listed(t: Table, path: string, r: MountRecord) {
    r in t && IsBelow(r.mountPoint, path) && Governs(t, Components(Normalize(r.mountPoint)), r)
  }

  lemma ListedIff(t: Table, path: string, r: MountRecord)
    requires UniqueIds(t) && r in t
    ensures Listed(t, path, r) <==> BelowPrefix(Normalize(path)) <= r.mountPoint && Visible(t, r) == Resolved(true)
  {
    VisibleIff(t, r);
  }

  lemma BelowIsSeeded(t: Table, q: Query, r: MountRecord)
    requires UniqueIds(t) && q.kind.VisibleSubtree? && r in t && IsBelow(r.mountPoint, q.path)
    ensures r in Frontier(t, q) && Within(r.mountPoint, Normalize(q.path))
  {
    SeedsInTable(t, q);
    FrontierClosed(t, q);
  }

  lemma ListedBelow(t: Table, q: Query, r: MountRecord)
    requires UniqueIds(t) && q.kind.VisibleSubtree? && Listed(t, q.path, r)
    ensures Within(r.mountPoint, Normalize(q.path))
  {
    BelowIsSeeded(t, q, r);
  }

  lemma ResolvedBelow(t: Table, q: Query)
    requires q.kind.VisibleSubtree? && Resolve(t, q).Resolved?
    ensures AllValid(t, Frontier(t, q))
    ensures VisibleBelow(t, Frontier(t, q), BelowPrefix(Normalize(q.path))) == Resolved(Resolve(t, q).value.descendants)
  {}

  /** A subtree answer lists exactly the table's visible mounts below the path: filtering only the
      frontier loses none. */
  lemma DescendantsExact(t: Table, q: Query, r: MountRecord)
    requires UniqueIds(t) && q.kind.VisibleSubtree? && Resolve(t, q).Resolved?
    ensures r in Resolve(t, q).value.descendants
      <==> r in t && RStrip(Normalize(q.path)) + "/" <= r.mountPoint && Governs(t, Components(Normalize(r.mountPoint)), r)
  {
    hide Resolve, Closure, Visible, Governs, Ungoverned, BelowPrefix, UniqueIds, Components, Normalize, ValidChain;
    ResolvedBelow(t, q);
    FrontierClosed(t, q);
    VisibleBelowMembers(t, Frontier(t, q), BelowPrefix(Normalize(q.path)), r);
    if r in t {
      ListedIff(t, q.path, r);
      if IsBelow(r.mountPoint, q.path) { BelowIsSeeded(t, q, r); }
    }
  }

  /** And it lists them in table order, those that are also above the path first - which only mounts at
      the root can be. */
  lemma DescendantsInOrder(t: Table, q: Query)
    requires UniqueIds(t) && q.kind.VisibleSubtree? && Resolve(t, q).Resolved?
    ensures var p := Normalize(q.path);
      Resolve(t, q).value.descendants
        == Filter(t, (r: MountRecord) => Listed(t, q.path, r) && Within(p, r.mountPoint))
          + Filter(t, (r: MountRecord) => Listed(t, q.path, r) && !Within(p, r.mountPoint))
  {
    hide Resolve, Closure, Visible, BelowPrefix, Listed, UniqueIds, Frontier, BrokenChain, IsBelow, Within;
    var p := Normalize(q.path);
    var prefix := BelowPrefix(p);
    ResolvedBelow(t, q);
    FrontierValidIff(t, q);
    FrontierExact(t, q);
    VisibleBelowInOrder(t, Frontier(t, q), prefix);
    var seen := (r: MountRecord) => prefix <= r.mountPoint && Visible(t, r) == Resolved(true);
    forall r | r in t && Listed(t, q.path, r) ensures Within(r.mountPoint, p) { ListedBelow(t, q, r); }
    forall r | r in t ensures seen(r) <==> Listed(t, q.path, r) { ListedIff(t, q.path, r); }
    var above, below := (r: MountRecord) => Within(p, r.mountPoint), (r: MountRecord) => Within(r.mountPoint, p) && !Within(p, r.mountPoint);
    FilterAppend(Filter(t, above), Filter(t, below), seen);
    FilterTwice(t, above, seen, (r: MountRecord) => Listed(t, q.path, r) && Within(p, r.mountPoint));
    FilterTwice(t, below, seen, (r: MountRecord) => Listed(t, q.path, r) && !Within(p, r.mountPoint));
  }

  /** A subtree query refuses exactly when some mount at a point above or below its path has an invalid
      chain, its own walk refuses, or the walk to some mount point below it refuses. */
  lemma SubtreeRefusedIff(t: Table, q: Query)
    requires UniqueIds(t) && q.kind.VisibleSubtree?
    ensures var p := Normalize(q.path);
      Resolve(t, q).Refused? <==>
        || (exists r :: r in t && (Within(p, r.mountPoint) || Within(r.mountPoint, p)) && !ValidChain(t, r))
        || Ungoverned(t, Components(p))
        || (exists r :: r in t && RStrip(p) + "/" <= r.mountPoint && Ungoverned(t, Components(Normalize(r.mountPoint))))
  {
    hide Closure, Ungoverned, Governing, Visible, ChainAccepted, UniqueIds, Components, Normalize;
    var prefix := BelowPrefix(Normalize(q.path));
    GoverningIff(t, q.path, BaseMount());
    FrontierValidIff(t, q);
    VisibleBelowRefused(t, Frontier(t, q), prefix);
    FrontierClosed(t, q);
    forall r | r in t ensures Visible(t, r).Refused? <==> Ungoverned(t, Components(Normalize(r.mountPoint))) { VisibleIff(t, r); }
    if r: MountRecord :| r in t && prefix <= r.mountPoint && Visible(t, r).Refused? { BelowIsSeeded(t, q, r); }
  }

  /** When it answers, it does so with the governing mount of its path, and its frontier holds exactly the
      mounts above the path and below it. */
  lemma SubtreeAnswer(t: Table, q: Query, g: MountRecord, r: MountRecord)
    requires UniqueIds(t) && q.kind.VisibleSubtree? && Resolve(t, q).Resolved?
    ensures Resolve(t, q).value.query == q
    ensures Resolve(t, q).value.governing == g <==> Governs(t, Components(Normalize(q.path)), g)
    ensures var p := Normalize(q.path);
      r in Resolve(t, q).value.frontier <==> r in t && (Within(p, r.mountPoint) || Within(r.mountPoint, p))
  {
    hide Closure, VisibleBelow, Governs, Ungoverned, UniqueIds, Components, Normalize, ChainAccepted;
    GoverningIff(t, q.path, g);
    FrontierValidIff(t, q);
    FrontierExact(t, q);
  }

  /** The subtree of `/` reports the mount that governs `/` itself. */
  lemma RootListsItself(t: Table, g: MountRecord)
    requires UniqueIds(t) && Governing(t, "/") == Resolved(g)
    requires Resolve(t, Query(VisibleSubtree, "/")).Resolved?
    ensures g in Resolve(t, Query(VisibleSubtree, "/")).value.descendants
  {
    hide Resolve, Governing, Governs, Ungoverned, ChainAccepted, UniqueIds;
    ComponentsOfRender([]);
    NormalizeRender([]);
    SlashesStrip();
    GoverningIff(t, "/", g);
    var d := GoverningPoint(t, "/", g);
    assert g.mountPoint == "/" by { assert Components("/")[..d] == []; }
    DescendantsExact(t, Query(VisibleSubtree, "/"), g);
  }

  /** A point query answers exactly when every mount at a point above the path has a valid chain and some
      mount governs the path: then with that mount, and with those mounts for its frontier. */
  lemma PointAnswerIff(t: Table, path: string, g: MountRecord)
    requires UniqueIds(t)
    ensures var q, p := Query(PointLookup, path), Normalize(path);
      (Resolve(t, q) == Resolved(Resolution(q, g, Filter(t, (r: MountRecord) => Within(p, r.mountPoint)), [])))
        <==> (forall r :: r in t && Within(p, r.mountPoint) ==> ValidChain(t, r)) && Governs(t, Components(p), g)
    ensures var q, p := Query(PointLookup, path), Normalize(path);
      Resolve(t, q).Refused? <==>
        || (exists r :: r in t && Within(p, r.mountPoint) && !ValidChain(t, r))
        || Ungoverned(t, Components(p))
  {
    hide Closure, Seeds, Governs, Ungoverned, Governing, UniqueIds, Components, Normalize, ChainAccepted, Within;
    var q := Query(PointLookup, path);
    GoverningIff(t, path, g);
    FrontierValidIff(t, q);
    assert BrokenChain(t, q) <==> exists r :: r in t && Within(Normalize(path), r.mountPoint) && !ValidChain(t, r);
    if !BrokenChain(t, q) { FrontierExact(t, q); }
    var above := Filter(t, (r: MountRecord) => Within(Normalize(path), r.mountPoint));
    assert above + [] == above;
  }
}
