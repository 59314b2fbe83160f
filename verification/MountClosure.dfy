/** The dependency worklist as a least fixed point: under any pop order it stops, and stops at the
    same set. */
module MountClosure {
  import opened Outcomes
  import opened MountTable

  /** The state of the worklist loop. */
  datatype Work = Work(closed: seq<MountRecord>, pending: seq<MountRecord>)

  /** One iteration that pops position `k` instead of the last one. */
  function PopAt(t: Table, w: Work, k: nat): Work
    requires k < |w.pending|
  {
    var added := Fresh(w.closed, Neighbours(t, w.pending[k]));
    Work(w.closed + added, w.pending[..k] + w.pending[k + 1..] + added)
  }

  predicate Pops(t: Table, w: Work, next: Work) {
    exists k {:trigger PopAt(t, w, k)} :: 0 <= k < |w.pending| && next == PopAt(t, w, k)
  }

  predicate Run(t: Table, ws: seq<Work>) {
    && |ws| > 0
    && forall i :: 0 <= i < |ws| - 1 ==> Pops(t, ws[i], ws[i + 1])
  }

  /** `n` is the parent of `r`, or its sibling or child at the same point. */
  ghost predicate Beside(r: MountRecord, n: MountRecord) {
    || n.mountId == r.parentId
    || (n.parentId == r.parentId && n.mountPoint == r.mountPoint)
    || (n.parentId == r.mountId && n.mountPoint == r.mountPoint)
  }

  /** Closed under parent, same-point sibling and same-point child. */
  ghost predicate ClosedUnder(t: Table, s: set<MountRecord>) {
    forall r, n {:trigger Beside(r, n)} :: r in s && n in t && Beside(r, n) ==> n in s
  }

  /** What the loop body looks at. */
  lemma NeighboursIff(t: Table, r: MountRecord, n: MountRecord)
    requires UniqueIds(t)
    ensures n in Neighbours(t, r) <==> n in t && Beside(r, n)
  {
    if n in t && n.mountId == r.parentId { LookupFinds(t, n); }
  }

  function Elements(rs: seq<MountRecord>): set<MountRecord> {
    set r | r in rs
  }

  ghost predicate IsLeastClosure(t: Table, seeds: set<MountRecord>, s: set<MountRecord>) {
    && seeds <= s && ClosedUnder(t, s)
    && forall other :: seeds <= other && ClosedUnder(t, other) ==> s <= other
  }

  /** What every iteration keeps. */
  ghost predicate Progress(t: Table, seeds: set<MountRecord>, w: Work) {
    && (forall r :: r in w.closed ==> r in t)
    && (forall r :: r in w.pending ==> r in w.closed)
    && seeds <= Elements(w.closed)
    && (forall r, n :: r in w.closed && r !in w.pending && n in Neighbours(t, r) ==> n in w.closed)
    && (forall other :: seeds <= other && ClosedUnder(t, other) ==> Elements(w.closed) <= other)
  }

  lemma PopSplit(p: seq<MountRecord>, k: nat, r: MountRecord)
    requires k < |p|
    ensures r in p <==> r == p[k] || r in p[..k] + p[k + 1..]
  {
    assert p == p[..k] + [p[k]] + p[k + 1..];
  }

  lemma PopClosesRecord(t: Table, w: Work, k: nat, n: MountRecord)
    requires UniqueIds(t) && k < |w.pending| && n in Neighbours(t, w.pending[k])
    requires forall r :: r in w.closed ==> r in t
    ensures n in PopAt(t, w, k).closed
  {
    var candidates := Neighbours(t, w.pending[k]);
    var next := PopAt(t, w, k).closed;
    var m :| m in next && m.mountId == n.mountId;
    assert m in w.closed || m in candidates;
    NeighboursInTable(t, w.pending[k]);
    SameId(t, m, n);
  }

  lemma PopMembers(t: Table, seeds: set<MountRecord>, w: Work, k: nat)
    requires Progress(t, seeds, w) && k < |w.pending|
    ensures var next := PopAt(t, w, k);
      && (forall r :: r in next.closed ==> r in t)
      && (forall r :: r in next.pending ==> r in next.closed)
      && (forall r :: r in w.closed ==> r in next.closed)
  {
    NeighboursInTable(t, w.pending[k]);
    forall r | r in PopAt(t, w, k).pending ensures r in PopAt(t, w, k).closed { PopSplit(w.pending, k, r); }
  }

  lemma PopStaysLeast(t: Table, seeds: set<MountRecord>, w: Work, k: nat, other: set<MountRecord>)
    requires UniqueIds(t) && Progress(t, seeds, w) && k < |w.pending| && seeds <= other && ClosedUnder(t, other)
    ensures Elements(PopAt(t, w, k).closed) <= other
  {
    var record := w.pending[k];
    assert record in w.pending && record in Elements(w.closed) && Elements(w.closed) <= other;
    forall r | r in PopAt(t, w, k).closed ensures r in other {
      if r in w.closed { assert r in Elements(w.closed); } else { NeighboursIff(t, record, r); }
    }
  }

  lemma PopCloses(t: Table, seeds: set<MountRecord>, w: Work, k: nat, r: MountRecord, n: MountRecord)
    requires UniqueIds(t) && Progress(t, seeds, w) && k < |w.pending|
    requires r in PopAt(t, w, k).closed && r !in PopAt(t, w, k).pending && n in Neighbours(t, r)
    ensures n in PopAt(t, w, k).closed
  {
    PopSplit(w.pending, k, r);
    if r == w.pending[k] { PopClosesRecord(t, w, k, n); }
  }

  lemma PopKeeps(t: Table, seeds: set<MountRecord>, w: Work, k: nat)
    requires UniqueIds(t) && Progress(t, seeds, w) && k < |w.pending|
    ensures Progress(t, seeds, PopAt(t, w, k))
  {
    hide Fresh, Neighbours, PopAt;
    var next := PopAt(t, w, k);
    PopMembers(t, seeds, w, k);
    forall r, n | r in next.closed && r !in next.pending && n in Neighbours(t, r) ensures n in next.closed {
      PopCloses(t, seeds, w, k, r, n);
    }
    forall other | seeds <= other && ClosedUnder(t, other) ensures Elements(next.closed) <= other {
      PopStaysLeast(t, seeds, w, k, other);
    }
  }

  lemma StartProgress(t: Table, seeds: seq<MountRecord>)
    requires forall r :: r in seeds ==> r in t
    ensures Progress(t, Elements(seeds), Work(seeds, seeds))
  {}

  lemma DoneIsLeast(t: Table, seeds: set<MountRecord>, w: Work)
    requires UniqueIds(t) && Progress(t, seeds, w) && w.pending == []
    ensures IsLeastClosure(t, seeds, Elements(w.closed))
  {
    hide Beside, Neighbours;
    forall r, n | r in Elements(w.closed) && n in t && Beside(r, n) ensures n in Elements(w.closed) { NeighboursIff(t, r, n); }
  }

  lemma LeastUnique(t: Table, seeds: set<MountRecord>, a: set<MountRecord>, b: set<MountRecord>)
    requires IsLeastClosure(t, seeds, a) && IsLeastClosure(t, seeds, b)
    ensures a == b
  {}

  lemma {:induction false} RunProgress(t: Table, seeds: set<MountRecord>, ws: seq<Work>, i: nat)
    requires UniqueIds(t) && Run(t, ws) && i < |ws| && Progress(t, seeds, ws[0])
    ensures Progress(t, seeds, ws[i])
  {
    if i > 0 {
      RunProgress(t, seeds, ws, i - 1);
      assert Pops(t, ws[i - 1], ws[i - 1 + 1]);
      var k :| 0 <= k < |ws[i - 1].pending| && ws[i] == PopAt(t, ws[i - 1], k);
      PopKeeps(t, seeds, ws[i - 1], k);
    }
  }

  /** The code pops the last record. */
  lemma ClosureStep(t: Table, w: Work)
    requires w.pending != []
    ensures var next := PopAt(t, w, |w.pending| - 1);
      Closure(t, w.closed, w.pending) == Closure(t, next.closed, next.pending)
  {
    var k := |w.pending| - 1;
    assert w.pending[..k] + w.pending[k + 1..] == w.pending[..k];
  }

  lemma PopShrinks(t: Table, w: Work, k: nat)
    requires k < |w.pending|
    ensures var next := PopAt(t, w, k);
      || Ids(t) - Ids(next.closed) < Ids(t) - Ids(w.closed)
      || (Ids(t) - Ids(next.closed) == Ids(t) - Ids(w.closed) && |next.pending| < |w.pending|)
  {
    var added := Fresh(w.closed, Neighbours(t, w.pending[k]));
    NeighboursInTable(t, w.pending[k]);
    assert forall r :: r in w.closed ==> r in w.closed + added;
    if added == [] {
      assert w.closed + added == w.closed;
    } else {
      assert added[0] in added && added[0] in w.closed + added;
      assert added[0].mountId in Ids(t) - Ids(w.closed);
    }
  }

  lemma ClosureProgressStep(t: Table, seeds: set<MountRecord>, w: Work)
    requires UniqueIds(t) && Progress(t, seeds, w) && w.pending != []
    ensures var next := PopAt(t, w, |w.pending| - 1);
      && Progress(t, seeds, next)
      && Closure(t, w.closed, w.pending) == Closure(t, next.closed, next.pending)
      && (|| Ids(t) - Ids(next.closed) < Ids(t) - Ids(w.closed)
          || (Ids(t) - Ids(next.closed) == Ids(t) - Ids(w.closed) && |next.pending| < |w.pending|))
  {
    hide *;
    PopKeeps(t, seeds, w, |w.pending| - 1);
    PopShrinks(t, w, |w.pending| - 1);
    ClosureStep(t, w);
  }

  lemma {:induction false} ClosureProgress(t: Table, seeds: set<MountRecord>, w: Work)
    requires UniqueIds(t) && Progress(t, seeds, w)
    ensures Progress(t, seeds, Work(Closure(t, w.closed, w.pending), []))
    decreases Ids(t) - Ids(w.closed), |w.pending|
  {
    hide PopAt, Progress, Ids;
    if w.pending == [] {
      assert w == Work(Closure(t, w.closed, w.pending), []);
    } else {
      ClosureProgressStep(t, seeds, w);
      ClosureProgress(t, seeds, PopAt(t, w, |w.pending| - 1));
    }
  }

  // ---- Termination under every pop order ----------------------------------------------------

  lemma IdsExtend(closed: seq<MountRecord>, c: MountRecord)
    ensures Ids(closed + [c]) == Ids(closed) + {c.mountId}
  {
    assert c in closed + [c];
    forall r | r in closed ensures r.mountId in Ids(closed + [c]) { assert r in closed + [c]; }
  }

  lemma RemoveOne(all: set<int>, known: set<int>, id: int)
    requires id in all && id !in known
    ensures |all - (known + {id})| == |all - known| - 1
  {
    assert all - (known + {id}) == (all - known) - {id};
  }

  lemma FreshStep(closed: seq<MountRecord>, candidates: seq<MountRecord>)
    requires candidates != [] && candidates[0].mountId !in Ids(closed)
    ensures var tail := Fresh(closed + [candidates[0]], candidates[1..]);
      && Fresh(closed, candidates) == [candidates[0]] + tail
      && closed + Fresh(closed, candidates) == closed + [candidates[0]] + tail
  {}

  /** Records still outside the closure, plus those just admitted, account for every id. */
  lemma {:induction false} FreshCount(t: Table, closed: seq<MountRecord>, candidates: seq<MountRecord>)
    requires forall r :: r in candidates ==> r in t
    ensures |Ids(t) - Ids(closed + Fresh(closed, candidates))| + |Fresh(closed, candidates)| == |Ids(t) - Ids(closed)|
    decreases |candidates|
  {
    if candidates == [] {
      assert closed + Fresh(closed, candidates) == closed;
    } else {
      var c, rest := candidates[0], candidates[1..];
      assert c in candidates;
      if c.mountId in Ids(closed) {
        FreshCount(t, closed, rest);
      } else {
        FreshCount(t, closed + [c], rest);
        IdsExtend(closed, c);
        RemoveOne(Ids(t), Ids(closed), c.mountId);
        FreshStep(closed, candidates);
      }
    }
  }

  /** Work left: pending records plus records not yet admitted. */
  function Potential(t: Table, w: Work): nat {
    |Ids(t) - Ids(w.closed)| + |w.pending|
  }

  /** Every iteration, whichever record it pops, does exactly one unit of work. */
  lemma PopCosts(t: Table, w: Work, k: nat)
    requires k < |w.pending|
    ensures Potential(t, PopAt(t, w, k)) == Potential(t, w) - 1
  {
    NeighboursInTable(t, w.pending[k]);
    FreshCount(t, w.closed, Neighbours(t, w.pending[k]));
  }

  lemma StepCosts(t: Table, ws: seq<Work>, i: nat)
    requires Run(t, ws) && i + 1 < |ws|
    ensures Potential(t, ws[i + 1]) == Potential(t, ws[i]) - 1
  {
    assert Pops(t, ws[i], ws[i + 1]);
    var k :| 0 <= k < |ws[i].pending| && ws[i + 1] == PopAt(t, ws[i], k);
    PopCosts(t, ws[i], k);
  }

  /** No worklist run, in any pop order, is longer than the work it starts with. */
  lemma {:induction false} RunBounded(t: Table, ws: seq<Work>, i: nat)
    requires Run(t, ws) && i < |ws|
    ensures i + Potential(t, ws[i]) == Potential(t, ws[0])
  {
    hide *;
    if i > 0 {
      RunBounded(t, ws, i - 1);
      StepCosts(t, ws, i - 1);
    }
  }

  lemma PrependRun(t: Table, w: Work, k: nat, rest: seq<Work>)
    requires k < |w.pending| && Run(t, rest) && rest[0] == PopAt(t, w, k)
    ensures Run(t, [w] + rest)
  {
    var ws := [w] + rest;
    forall i | 0 <= i < |ws| - 1 ensures Pops(t, ws[i], ws[i + 1]) {
      if i == 0 { assert ws[1] == PopAt(t, ws[0], k); } else { assert Pops(t, rest[i - 1], rest[i]); }
    }
  }

  /** Whatever record a strategy picks next, its run empties the worklist. */
  lemma {:induction false} StrategyFinishes(t: Table, w: Work, pick: Work -> nat) returns (ws: seq<Work>)
    requires forall v: Work :: v.pending != [] ==> pick(v) < |v.pending|
    ensures Run(t, ws) && ws[0] == w && ws[|ws| - 1].pending == []
    ensures forall i :: 0 <= i < |ws| - 1 ==>
      ws[i].pending != [] && ws[i + 1] == PopAt(t, ws[i], pick(ws[i]))
    decreases Potential(t, w)
  {
    hide PopAt, Potential;
    if w.pending == [] {
      ws := [w];
    } else {
      PopCosts(t, w, pick(w));
      var rest := StrategyFinishes(t, PopAt(t, w, pick(w)), pick);
      PrependRun(t, w, pick(w), rest);
      ws := [w] + rest;
      assert forall i :: 0 < i < |ws| - 1 ==> ws[i] == rest[i - 1] && ws[i + 1] == rest[i];
    }
  }

  // ---- Main results --------------------------------------------------------------------------

  /** `_dependency_closure_v2` returns the least set holding the seeds and closed under present
      parent, same-point sibling and same-point child. */
  lemma ClosureIsLeast(t: Table, seeds: seq<MountRecord>)
    requires UniqueIds(t) && forall r :: r in seeds ==> r in t
    ensures IsLeastClosure(t, Elements(seeds), Elements(Closure(t, seeds, seeds)))
    ensures forall r :: r in Closure(t, seeds, seeds) ==> r in t
  {
    StartProgress(t, seeds);
    ClosureProgress(t, Elements(seeds), Work(seeds, seeds));
    DoneIsLeast(t, Elements(seeds), Work(Closure(t, seeds, seeds), []));
  }

  /** Neither the order of the seeds nor the order of popping changes the resulting set. */
  lemma ClosureOrderIndependent(t: Table, seeds: seq<MountRecord>, order: seq<MountRecord>, ws: seq<Work>)
    requires UniqueIds(t) && forall r :: r in seeds ==> r in t
    requires Elements(order) == Elements(seeds)
    requires Run(t, ws) && ws[0] == Work(order, order) && ws[|ws| - 1].pending == []
    ensures Elements(ws[|ws| - 1].closed) == Elements(Closure(t, seeds, seeds))
  {
    forall r | r in order ensures r in t { assert r in Elements(order); }
    StartProgress(t, order);
    RunProgress(t, Elements(seeds), ws, |ws| - 1);
    DoneIsLeast(t, Elements(seeds), ws[|ws| - 1]);
    ClosureIsLeast(t, seeds);
    LeastUnique(t, Elements(seeds), Elements(ws[|ws| - 1].closed), Elements(Closure(t, seeds, seeds)));
  }
}
