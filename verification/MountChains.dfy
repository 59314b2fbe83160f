/** What `validate_relevant_chain_v2` accepts, stated without its loop or its `seen` set. */
module MountChains {
  import opened Outcomes
  import opened Paths
  import opened MountTable

  /** `n` is another mount of the table, the one `r` names as its parent. */
  ghost predicate IsParent(t: Table, r: MountRecord, n: MountRecord) {
    n in t && n.mountId == r.parentId && r.parentId != r.mountId
  }

  /** The table has no other mount that `r` names as its parent. */
  ghost predicate Parentless(t: Table, r: MountRecord) {
    r.parentId == r.mountId || forall n :: n in t ==> n.mountId != r.parentId
  }

  /** A finite path of parents to a parentless or self-parent record at `/`, each record lying
      within its parent. */
  ghost predicate Certificate(t: Table, p: seq<MountRecord>) {
    && |p| > 0
    && (forall i :: 0 <= i < |p| - 1 ==> IsParent(t, p[i], p[i + 1]) && Within(p[i].mountPoint, p[i + 1].mountPoint))
    && Parentless(t, p[|p| - 1]) && p[|p| - 1].mountPoint == "/"
  }

  /** The loop's tests and lookups, in those terms. */
  lemma TerminalIff(t: Table, r: MountRecord)
    ensures Terminal(t, r) <==> Parentless(t, r)
    ensures !Terminal(t, r) ==> IsParent(t, r, Parent(t, r))
    ensures UniqueIds(t) ==> forall n :: IsParent(t, r, n) ==> !Terminal(t, r) && Parent(t, r) == n
  {
    forall n | UniqueIds(t) && IsParent(t, r, n) ensures !Terminal(t, r) && Parent(t, r) == n { LookupFinds(t, n); }
  }

  lemma CertificateTail(t: Table, p: seq<MountRecord>)
    requires Certificate(t, p) && |p| > 1
    ensures Certificate(t, p[1..]) && IsParent(t, p[0], p[1]) && Within(p[0].mountPoint, p[1].mountPoint)
  {
    var q := p[1..];
    assert forall i :: 0 <= i < |q| ==> q[i] == p[i + 1];
    assert forall i :: 0 <= i < |q| - 1 ==> IsParent(t, q[i], q[i + 1]);
  }

  /** Parents are a function, so a record has at most one certificate. */
  lemma {:induction false} CertificateUnique(t: Table, p: seq<MountRecord>, q: seq<MountRecord>)
    requires UniqueIds(t) && Certificate(t, p) && Certificate(t, q) && p[0] == q[0]
    ensures p == q
  {
    TerminalIff(t, p[0]);
    if |p| > 1 { CertificateTail(t, p); }
    if |q| > 1 { CertificateTail(t, q); }
    if |p| > 1 && |q| > 1 {
      CertificateUnique(t, p[1..], q[1..]);
      assert p == [p[0]] + p[1..] && q == [q[0]] + q[1..];
    }
  }

  lemma {:induction false} CertificateSuffix(t: Table, p: seq<MountRecord>, i: nat)
    requires Certificate(t, p) && i < |p|
    ensures Certificate(t, p[i..])
  {
    if i == 0 {
      assert p[0..] == p;
    } else {
      CertificateTail(t, p);
      CertificateSuffix(t, p[1..], i - 1);
      assert p[1..][i - 1..] == p[i..];
    }
  }

  lemma CertificateInTable(t: Table, p: seq<MountRecord>, i: nat)
    requires Certificate(t, p) && p[0] in t && i < |p|
    ensures p[i] in t
  {
    if i > 0 {
      assert IsParent(t, p[i - 1], p[i - 1 + 1]);
    }
  }

  /** A certificate never meets a mount twice: that would be a cycle, and a cycle never ends. */
  lemma CertificateDistinct(t: Table, p: seq<MountRecord>, i: nat, j: nat)
    requires UniqueIds(t) && Certificate(t, p) && p[0] in t && i < j < |p|
    ensures p[i].mountId != p[j].mountId
  {
    if p[i].mountId == p[j].mountId {
      CertificateInTable(t, p, i);
      CertificateInTable(t, p, j);
      SameId(t, p[i], p[j]);
      CertificateSuffix(t, p, i);
      CertificateSuffix(t, p, j);
      CertificateUnique(t, p[i..], p[j..]);
    }
  }

  lemma {:induction false} AcceptedHasCertificate(t: Table, r: MountRecord, seen: set<int>) returns (p: seq<MountRecord>)
    requires ChainAccepted(t, r, seen)
    ensures Certificate(t, p) && p[0] == r
    decreases Ids(t) - seen
  {
    TerminalIff(t, r);
    if Terminal(t, r) {
      p := [r];
    } else {
      var parent := Parent(t, r);
      var rest := AcceptedHasCertificate(t, parent, seen + {parent.mountId});
      p := [r] + rest;
      assert forall i :: 0 <= i < |rest| ==> p[i + 1] == rest[i];
      forall i | 0 <= i < |p| - 1
        ensures IsParent(t, p[i], p[i + 1]) && Within(p[i].mountPoint, p[i + 1].mountPoint)
      {
        if i > 0 { assert p[i] == rest[i - 1]; }
      }
    }
  }

  lemma {:induction false} CertificateAccepted(t: Table, p: seq<MountRecord>, seen: set<int>)
    requires UniqueIds(t) && Certificate(t, p)
    requires forall i :: 1 <= i < |p| ==> p[i].mountId !in seen
    requires forall i, j :: 0 <= i < j < |p| ==> p[i].mountId != p[j].mountId
    ensures ChainAccepted(t, p[0], seen)
    decreases |p|
  {
    TerminalIff(t, p[0]);
    if |p| > 1 {
      CertificateTail(t, p);
      CertificateAccepted(t, p[1..], seen + {p[1].mountId});
    }
  }

  /** Validation terminates on every table and accepts exactly the certified records. */
  lemma ValidChainIff(t: Table, r: MountRecord)
    requires UniqueIds(t) && r in t
    ensures ValidChain(t, r) <==> exists p :: Certificate(t, p) && p[0] == r
  {
    if ValidChain(t, r) {
      var p := AcceptedHasCertificate(t, r, {r.mountId});
    }
    if p: seq<MountRecord> :| Certificate(t, p) && p[0] == r {
      forall i, j | 0 <= i < j < |p| ensures p[i].mountId != p[j].mountId {
        CertificateDistinct(t, p, i, j);
      }
      CertificateAccepted(t, p, {r.mountId});
    }
  }

  /** Every mount on an accepted chain sits at an ancestor of the first one's point. */
  lemma {:induction false} ChainAncestors(t: Table, p: seq<MountRecord>, i: nat)
    requires Certificate(t, p) && i < |p|
    ensures Within(p[0].mountPoint, p[i].mountPoint)
  {
    if i > 0 {
      ChainAncestors(t, p, i - 1);
      assert IsParent(t, p[i - 1], p[i - 1 + 1]) && Within(p[i - 1].mountPoint, p[i].mountPoint);
      WithinTransitive(p[0].mountPoint, p[i - 1].mountPoint, p[i].mountPoint);
    }
  }
}
