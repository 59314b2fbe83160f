/** Which tables make subtree queries local, exactly. A mount point that is textually below the path but
    normalises to an unrelated place is enough to break locality; nothing else is. */
module MountDetour {
  import opened Outcomes
  import opened Paths
  import opened MountTable
  import opened MountTrail
  import opened MountClosure
  import opened MountLocality
  import opened MountAnswers

  function Detour(s: string): MountRecord { MountRecord(2, 1, 0, "/", s, "x") }
  function Rival(id: int, us: seq<string>): MountRecord { MountRecord(id, 1, 0, "/", Render(us), "x") }

  /** Two mounts compete at `us`, and a third has the mount point `s`, which normalises to `us`. */
  function DetourTable(s: string, us: seq<string>): Table { [BaseMount(), Detour(s), Rival(3, us), Rival(4, us)] }

  /** `s` is below the subtree of `ps` but leads to `us`, which is neither above `ps` nor below it. */
  ghost predicate Leads(ps: seq<string>, s: string, us: seq<string>) {
    && AllClean(ps) && AllClean(us) && Slashed(ps) + "/" <= s
    && Components(Normalize(s)) == us && !(ps <= us) && !(us <= ps)
  }

  /** Such a point is no canonical path, so no walk ever looks at it. */
  lemma DetourText(ps: seq<string>, s: string, us: seq<string>, cs: seq<string>)
    requires Leads(ps, s, us) && AllClean(cs)
    ensures s != Render(cs) && ps != [] && us != [] && Render(us) != "/"
    ensures "/" <= s && !(Slashed(ps) + "/" <= Render(us)) && !(Slashed(ps) + "/" <= "/")
  {
    SlashedStart(ps);
    SlashedStart(us);
    SlashedEndsClean(ps);
    if s == Render(cs) {
      NormalizeRender(cs);
      ComponentsOfRender(cs);
      WithinIsPrefix(cs, ps);
      assert false;
    }
    WithinIsPrefix(us, ps);
    assert s[0] == (Slashed(ps) + "/")[0];
  }

  lemma DetourFacts(ps: seq<string>, s: string, us: seq<string>)
    requires Leads(ps, s, us)
    ensures AllClean(us) && us != [] && s != "/" && Render(us) != "/" && s != Render(us)
  {
    var none: seq<string> := [];
    DetourText(ps, s, us, none);
    DetourText(ps, s, us, us);
    EmptyRender();
  }

  lemma DetourMembers(s: string, us: seq<string>)
    ensures var t := DetourTable(s, us);
      && UniqueIds(t) && Ids(t) == {1, 2, 3, 4}
      && BaseMount() in t && Detour(s) in t && Rival(3, us) in t && Rival(4, us) in t
      && forall r :: r in t ==> r == BaseMount() || r == Detour(s) || r == Rival(3, us) || r == Rival(4, us)
  {
    hide Render;
    var t := DetourTable(s, us);
    assert t[0] == BaseMount() && t[1] == Detour(s) && t[2] == Rival(3, us) && t[3] == Rival(4, us);
    assert t[0] in t && t[1] in t && t[2] in t && t[3] in t;
  }

  lemma DetourNeighbours(ps: seq<string>, s: string, us: seq<string>, r: MountRecord, n: MountRecord)
    requires Leads(ps, s, us) && (r == BaseMount() || r == Detour(s)) && n in Neighbours(DetourTable(s, us), r)
    ensures n == BaseMount() || n == Detour(s)
  {
    hide Render, DetourTable, Leads, UniqueIds;
    DetourFacts(ps, s, us);
    DetourMembers(s, us);
    var t := DetourTable(s, us);
    assert n in t by { NeighboursInTable(t, r); }
    var parent := Lookup(t, r.parentId);
    assert parent.Some? ==> parent.value.mountId <= 1;
    assert r.mountPoint != Render(us);
  }

  /** `q` asks for the subtree of `ps`. */
  ghost predicate Asks(q: Query, ps: seq<string>) {
    AllClean(ps) && q.kind.VisibleSubtree? && Normalize(q.path) == Render(ps) && Tidy(q.path)
  }

  lemma SeedWithin(t: Table, q: Query, r: MountRecord)
    requires r in Seeds(t, q)
    ensures r in t && (Within(Normalize(q.path), r.mountPoint) || Within(r.mountPoint, Normalize(q.path)))
  {}

  lemma DetourWithin(q: Query, ps: seq<string>, s: string, us: seq<string>)
    requires Asks(q, ps) && Leads(ps, s, us)
    ensures var path := Normalize(q.path);
      Within(path, "/") && Within(s, path) && !Within(path, Render(us)) && !Within(Render(us), path)
  {
    SlashedEndsClean(ps);
    WithinIsPrefix(ps, us);
    WithinIsPrefix(us, ps);
    WithinIsPrefix(ps, []);
    EmptyRender();
  }

  lemma DetourSeeds(q: Query, ps: seq<string>, s: string, us: seq<string>, r: MountRecord)
    requires Asks(q, ps) && Leads(ps, s, us)
    ensures BaseMount() in Seeds(DetourTable(s, us), q) && Detour(s) in Seeds(DetourTable(s, us), q)
    ensures r in Seeds(DetourTable(s, us), q) ==> r == BaseMount() || r == Detour(s)
  {
    hide Render, DetourTable, Normalize, Seeds, Within, Leads;
    var t := DetourTable(s, us);
    DetourMembers(s, us);
    DetourWithin(q, ps, s, us);
    SeedsInTable(t, q);
    if r in Seeds(t, q) { SeedWithin(t, q, r); }
  }

  lemma DetourFrontier(q: Query, ps: seq<string>, s: string, us: seq<string>)
    requires Asks(q, ps) && Leads(ps, s, us)
    ensures forall r :: r in Frontier(DetourTable(s, us), q) <==> r == BaseMount() || r == Detour(s)
  {
    hide Closure, Seeds, Render, DetourTable, Neighbours, UniqueIds, Leads, Asks;
    var t, base, detour := DetourTable(s, us), BaseMount(), Detour(s);
    DetourMembers(s, us);
    DetourSeeds(q, ps, s, us, base);
    SeedsInTable(t, q);
    FrontierClosed(t, q);
    var kept := {base, detour};
    forall r, n | r in kept && n in t && Beside(r, n) ensures n in kept {
      NeighboursIff(t, r, n);
      DetourNeighbours(ps, s, us, r, n);
    }
    forall r | r in Seeds(t, q) ensures r in kept { DetourSeeds(q, ps, s, us, r); }
    ClosureIsLeast(t, Seeds(t, q));
    assert Elements(Frontier(t, q)) <= kept;
    forall r | r in Frontier(t, q) ensures r in kept { assert r in Elements(Frontier(t, q)); }
  }

  // ---- The whole table refuses -------------------------------------------------------------------

  lemma DetourStacked(s: string, us: seq<string>, m: MountRecord, point: string)
    requires m == BaseMount() && s != point
    ensures Stacked(DetourTable(s, us), m, point) == if Render(us) == point then [Rival(3, us), Rival(4, us)] else []
  {
    hide Render;
    var t := DetourTable(s, us);
    var p := (r: MountRecord) => r.parentId == m.mountId && r.mountPoint == point && r.mountId != m.mountId;
    FilterFour(t, p);
    assert !p(t[0]) && !p(t[1]) && (p(t[2]) <==> Render(us) == point) && (p(t[3]) <==> Render(us) == point);
  }

  lemma DetourBases(s: string, us: seq<string>)
    requires s != "/" && Render(us) != "/"
    ensures Bases(DetourTable(s, us)) == [BaseMount()]
  {
    hide Render, Lookup;
    var t := DetourTable(s, us);
    DetourMembers(s, us);
    FilterFour(t, (r: MountRecord) => r.mountPoint == "/");
    assert Roots(t) == [BaseMount()];
    assert [BaseMount()][1..] == [] && Terminal(t, BaseMount());
  }

  lemma RenderInjective(us: seq<string>, d: nat)
    requires AllClean(us) && d < |us|
    ensures Render(us[..d]) != Render(us)
  {
    ComponentsOfRender(us[..d]);
    ComponentsOfRender(us);
  }

  lemma DetourStacks(ps: seq<string>, s: string, us: seq<string>, d: nat)
    requires Leads(ps, s, us) && d <= |us|
    ensures Stacked(DetourTable(s, us), BaseMount(), Point(us, d)) == if d == |us| then [Rival(3, us), Rival(4, us)] else []
  {
    hide Stacked, DetourTable, Slashed;
    DetourText(ps, s, us, us[..d]);
    DetourStacked(s, us, BaseMount(), Point(us, d));
    if d < |us| { RenderInjective(us, d); } else { assert us[..d] == us; }
  }

  lemma DetourDisputed(ps: seq<string>, s: string, us: seq<string>)
    requires Leads(ps, s, us)
    ensures Ungoverned(DetourTable(s, us), us)
  {
    hide DetourTable, Bases, Stacked, Leads, Render, Point;
    var t, base := DetourTable(s, us), BaseMount();
    DetourFacts(ps, s, us);
    DetourMembers(s, us);
    DetourBases(s, us);
    SoleBases(t, base);
    var walk := [Stop(base, 0)];
    assert Trail(t, us, walk);
    forall d | 0 <= d < |us| ensures BareAt(t, us, base, d) {
      DetourStacks(ps, s, us, d);
      BareIff(t, us, base, d);
    }
    DetourStacks(ps, s, us, |us|);
    StackedIff(t, base, Point(us, |us|));
    var rivals := Stacked(t, base, Point(us, |us|));
    assert rivals[0] in rivals && rivals[1] in rivals;
    assert Disputed(t, us, walk[0]);
  }

  lemma DetourBelow(q: Query, ps: seq<string>, s: string, us: seq<string>, r: MountRecord)
    requires Asks(q, ps) && Leads(ps, s, us) && r in DetourTable(s, us)
    ensures IsBelow(r.mountPoint, q.path) <==> r == Detour(s)
  {
    DetourMembers(s, us);
    DetourText(ps, s, us, us);
    SlashedEndsClean(ps);
  }

  lemma DetourRefused(q: Query, ps: seq<string>, s: string, us: seq<string>)
    requires Asks(q, ps) && Leads(ps, s, us)
    ensures Resolve(DetourTable(s, us), q).Refused?
  {
    var t := DetourTable(s, us);
    DetourMembers(s, us);
    DetourDisputed(ps, s, us);
    DetourBelow(q, ps, s, us, Detour(s));
    hide Render, DetourTable, Descend, Resolve, BelowPrefix, Ungoverned, Asks;
    VisibleIff(t, Detour(s));
    SubtreeRefusedIff(t, q);
  }

  // ---- What is left of the frontier answers ------------------------------------------------------

  lemma DetourLeft(q: Query, ps: seq<string>, s: string, us: seq<string>)
    requires Asks(q, ps) && Leads(ps, s, us)
    ensures Restrict(DetourTable(s, us), Frontier(DetourTable(s, us), q)) == [BaseMount(), Detour(s)]
  {
    hide Frontier, Render, Leads, Asks;
    DetourFrontier(q, ps, s, us);
    var t := DetourTable(s, us);
    var f := Frontier(t, q);
    FilterFour(t, (r: MountRecord) => r in f);
    assert [BaseMount()] + [Detour(s)] == [BaseMount(), Detour(s)];
  }

  lemma DetourChains(ps: seq<string>, s: string, us: seq<string>)
    requires Leads(ps, s, us)
    ensures var u := [BaseMount(), Detour(s)]; UniqueIds(u) && ValidChain(u, BaseMount()) && ValidChain(u, Detour(s))
  {
    hide Render, Slashed, Normalize, Components;
    var base, detour := BaseMount(), Detour(s);
    var u := [base, detour];
    DetourText(ps, s, us, us);
    assert base in u && detour in u;
    assert Ids(u) == {1, 2};
    assert Terminal(u, base) && !Terminal(u, detour);
    LookupFinds(u, base);
    SlashesStrip();
    assert ChainAccepted(u, base, {2, 1}) && ChainAccepted(u, base, {1});
    assert {2} + {1} == {2, 1};
  }

  lemma DetourBare(ps: seq<string>, s: string, us: seq<string>, cs: seq<string>, d: nat)
    requires Leads(ps, s, us) && AllClean(cs) && d <= |cs|
    ensures BareAt([BaseMount(), Detour(s)], cs, BaseMount(), d)
  {
    hide Leads, Render;
    var point := Point(cs, d);
    DetourText(ps, s, us, cs[..d]);
    FilterPair(BaseMount(), Detour(s), (r: MountRecord) => r.parentId == 1 && r.mountPoint == point && r.mountId != 1);
  }

  lemma DetourAlone(ps: seq<string>, s: string, us: seq<string>, path: string)
    requires Leads(ps, s, us)
    ensures Governing([BaseMount(), Detour(s)], path) == Resolved(BaseMount())
  {
    hide Leads, Render, Components, Normalize, Lookup, RStrip, BareAt;
    var base, detour := BaseMount(), Detour(s);
    var u := [base, detour];
    var cs := NormalizeShape(path);
    DetourFacts(ps, s, us);
    FilterPair(base, detour, (r: MountRecord) => r.mountPoint == "/");
    assert Ids(u) == {1, 2} by { assert base in u && detour in u; }
    assert Roots(u) == [base] && [base][1..] == [] && Terminal(u, base);
    var walk := [Stop(base, 0)];
    assert Trail(u, cs, walk);
    forall d | 0 <= d <= |cs| ensures BareAt(u, cs, base, d) { DetourBare(ps, s, us, cs, d); }
    assert Settled(u, cs, walk[0]);
    GoverningIff(u, path, base);
  }

  lemma DetourGoverned(ps: seq<string>, s: string, us: seq<string>, path: string)
    requires Leads(ps, s, us)
    ensures !Ungoverned([BaseMount(), Detour(s)], Components(Normalize(path)))
  {
    hide *;
    DetourChains(ps, s, us);
    DetourAlone(ps, s, us, path);
    GoverningIff([BaseMount(), Detour(s)], path, BaseMount());
  }

  lemma AsksSubtree(q: Query, ps: seq<string>)
    requires Asks(q, ps)
    ensures q.kind.VisibleSubtree?
  {}

  lemma DetourAnswered(q: Query, ps: seq<string>, s: string, us: seq<string>)
    requires Asks(q, ps) && Leads(ps, s, us)
    ensures Resolve([BaseMount(), Detour(s)], q).Resolved?
  {
    hide *;
    var u := [BaseMount(), Detour(s)];
    DetourChains(ps, s, us);
    forall path: string ensures !Ungoverned(u, Components(Normalize(path))) { DetourGoverned(ps, s, us, path); }
    assert forall r :: r in u ==> r == BaseMount() || r == Detour(s);
    AsksSubtree(q, ps);
    SubtreeRefusedIff(u, q);
  }

  /** Under any path, a mount point that is textually below it and normalises to an unrelated place makes
      the whole table refuse, because that place is disputed, while the frontier, which holds nothing
      there, answers. No other point of the table is below the path. */
  lemma DetourBreaksLocality(path: string, s: string) returns (t: Table)
    requires Tidy(path) && IsBelow(s, path) && !Comparable(path, s)
    ensures UniqueIds(t) && forall r :: r in t && IsBelow(r.mountPoint, path) ==> r.mountPoint == s
    ensures var q := Query(VisibleSubtree, path);
      Resolve(t, q).Refused? && Resolve(Restrict(t, Frontier(t, q)), q).Resolved?
  {
    var q := Query(VisibleSubtree, path);
    var ps := NormalizeShape(path);
    var us := NormalizeShape(s);
    SlashedEndsClean(ps);
    assert Asks(q, ps) && Leads(ps, s, us);
    t := DetourTable(s, us);
    forall r | r in t && IsBelow(r.mountPoint, path) ensures r.mountPoint == s { DetourBelow(q, ps, s, us, r); }
    hide *;
    DetourMembers(s, us);
    DetourRefused(q, ps, s, us);
    DetourLeft(q, ps, s, us);
    DetourAnswered(q, ps, s, us);
  }

  // ---- Main results ------------------------------------------------------------------------------

  /** Every mount point of `t` below the path is an allowed one. */
  ghost predicate Allows(allowed: string -> bool, t: Table, path: string) {
    forall r :: r in t && IsBelow(r.mountPoint, path) ==> allowed(r.mountPoint)
  }

  ghost predicate Local(t: Table, q: Query) {
    Resolve(Restrict(t, Frontier(t, q)), q) == Resolve(t, q)
  }

  /** The exact condition for subtree queries. Let any set of mount points be allowed below a path: the
      query is local on all tables that keep to it if and only if the path does not normalise to two
      slashes and a component, and every allowed point below it normalises to a place above or below it. */
  lemma SubtreeLocalityIff(path: string, allowed: string -> bool)
    ensures (Tidy(path) && forall s :: IsBelow(s, path) && allowed(s) ==> Comparable(path, s))
      <==> forall t: Table {:trigger UniqueIds(t)} :: UniqueIds(t) && Allows(allowed, t, path) ==> Local(t, Query(VisibleSubtree, path))
  {
    hide Resolve, Frontier, Restrict, UniqueIds, IsBelow, Comparable, Tidy;
    var q := Query(VisibleSubtree, path);
    if !Tidy(path) {
      var t := UntidyWitness(q);
      assert UniqueIds(t) && Allows(allowed, t, path) && !Local(t, q);
    } else if s :| IsBelow(s, path) && allowed(s) && !Comparable(path, s) {
      var t := DetourBreaksLocality(path, s);
      assert UniqueIds(t) && Allows(allowed, t, path) && !Local(t, q);
    } else {
      forall t: Table | UniqueIds(t) && Allows(allowed, t, path) ensures Local(t, q) { Locality(t, q); }
    }
  }

  /** In particular the subtree of `/` is local on every table, whatever its mount points. */
  lemma RootAlwaysLocal(t: Table)
    requires UniqueIds(t)
    ensures Local(t, Query(VisibleSubtree, "/"))
  {
    hide Resolve, Frontier, Restrict;
    ComponentsOfRender([]);
    NormalizeRender([]);
    Locality(t, Query(VisibleSubtree, "/"));
  }
}
