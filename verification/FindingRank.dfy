/** Merging, ordering and capping of deterministic findings, and what that leaves of the verdict. */
module FindingRank {
  import opened Outcomes

  const MAX_FINDINGS := 5

  /** `meta` stands for the evidence metadata, which a merge resets. */
  datatype Finding = Finding(
    severity: string, file: string, evidence: string, risk: string, recommendation: string, ruleId: string,
    relatedFiles: seq<string>, meta: Option<string>)

  datatype Key = Key(ruleId: string, severity: string, recommendation: string)

  function SeverityRank(severity: string): nat {
    if severity == "P0" then 0 else if severity == "P1" then 1 else if severity == "P2" then 2
    else if severity == "P3" then 3 else 9
  }

  /** `_finding_key` */
  function KeyOf(f: Finding): Key {
    Key(f.ruleId, f.severity, f.recommendation)
  }

  /** `_merge_related_files` */
  function MergeRelated(existing: seq<string>, extra: string): seq<string> {
    if extra in existing then existing else existing + [extra]
  }

  function Merge(current: Finding, f: Finding): Finding {
    if f.file == current.file then current
    else current.(relatedFiles := MergeRelated(current.relatedFiles, f.file), meta := None)
  }

  /** The dictionary in insertion order. */
  function Absorb(grouped: seq<Finding>, f: Finding): seq<Finding> {
    if grouped == [] then [f]
    else if KeyOf(grouped[0]) == KeyOf(f) then [Merge(grouped[0], f)] + grouped[1..]
    else [grouped[0]] + Absorb(grouped[1..], f)
  }

  function Group(findings: seq<Finding>): seq<Finding> {
    if findings == [] then [] else Absorb(Group(findings[..|findings| - 1]), findings[|findings| - 1])
  }

  // ---- Order -----------------------------------------------------------------------------------------

  /** String order, character by character. */
  predicate StringLeq(a: string, b: string) {
    a == "" || (b != "" && (a[0] < b[0] || (a[0] == b[0] && StringLeq(a[1..], b[1..]))))
  }

  /** The sort key: severity, file, rule. */
  predicate Leq(a: Finding, b: Finding) {
    var ra, rb := SeverityRank(a.severity), SeverityRank(b.severity);
    ra < rb || (ra == rb &&
      if a.file != b.file then StringLeq(a.file, b.file) else StringLeq(a.ruleId, b.ruleId))
  }

  /** The texts agree up to some place where the first one ends or has the smaller character. */
  ghost predicate TextUpTo(a: string, b: string) {
    exists k: nat :: k <= |a| && k <= |b| && a[..k] == b[..k] && (k == |a| || (k < |b| && a[k] < b[k]))
  }

  lemma {:induction false} StringLeqIff(a: string, b: string)
    ensures StringLeq(a, b) <==> TextUpTo(a, b)
    decreases |a|
  {
    if a != "" && b != "" && a[0] == b[0] {
      StringLeqIff(a[1..], b[1..]);
      if TextUpTo(a[1..], b[1..]) {
        var k: nat :| k <= |a[1..]| && k <= |b[1..]| && a[1..][..k] == b[1..][..k]
          && (k == |a[1..]| || (k < |b[1..]| && a[1..][k] < b[1..][k]));
        assert a[..k + 1] == [a[0]] + a[1..][..k] && b[..k + 1] == [b[0]] + b[1..][..k];
      }
      if k: nat :| 0 < k <= |a| && k <= |b| && a[..k] == b[..k] && (k == |a| || (k < |b| && a[k] < b[k])) {
        assert a[1..][..k - 1] == a[..k][1..] && b[1..][..k - 1] == b[..k][1..];
      }
    } else {
      assert a[..0] == b[..0];
      if k: nat :| 0 < k <= |a| && k <= |b| && a[..k] == b[..k] { assert a[0] == a[..k][0] && b[0] == b[..k][0]; }
    }
  }

  /** P0 before P1 before P2 before P3 before any other severity. */
  ghost predicate MoreSevere(a: string, b: string) {
    || (a == "P0" && b != "P0")
    || (a == "P1" && b != "P0" && b != "P1")
    || (a == "P2" && b != "P0" && b != "P1" && b != "P2")
    || (a == "P3" && b != "P0" && b != "P1" && b != "P2" && b != "P3")
  }

  /** `a` sorts no later than `b`: by severity, then by file, then by rule. */
  ghost predicate NoLater(a: Finding, b: Finding) {
    || MoreSevere(a.severity, b.severity)
    || (!MoreSevere(b.severity, a.severity) && if a.file == b.file then TextUpTo(a.ruleId, b.ruleId) else TextUpTo(a.file, b.file))
  }

  lemma LeqIff(a: Finding, b: Finding)
    ensures Leq(a, b) <==> NoLater(a, b)
  {
    hide TextUpTo, StringLeq;
    StringLeqIff(a.file, b.file);
    StringLeqIff(a.ruleId, b.ruleId);
  }

  lemma {:induction false} StringTotal(a: string, b: string)
    ensures StringLeq(a, b) || StringLeq(b, a)
    ensures StringLeq(a, b) && StringLeq(b, a) ==> a == b
    decreases |a|
  {
    if a != "" && b != "" && a[0] == b[0] {
      StringTotal(a[1..], b[1..]);
      assert a == [a[0]] + a[1..] && b == [b[0]] + b[1..];
    }
  }

  lemma {:induction false} StringTransitive(a: string, b: string, c: string)
    requires StringLeq(a, b) && StringLeq(b, c)
    ensures StringLeq(a, c)
    decreases |a|
  {
    if a != "" && a[0] == b[0] == c[0] { StringTransitive(a[1..], b[1..], c[1..]); }
  }

  lemma LeqTotal(a: Finding, b: Finding)
    ensures Leq(a, b) || Leq(b, a)
  {
    StringTotal(a.file, b.file);
    StringTotal(a.ruleId, b.ruleId);
  }

  lemma LeqTransitive(a: Finding, b: Finding, c: Finding)
    requires Leq(a, b) && Leq(b, c)
    ensures Leq(a, c)
  {
    if SeverityRank(a.severity) == SeverityRank(b.severity) == SeverityRank(c.severity) {
      if a.file == b.file == c.file {
        StringTransitive(a.ruleId, b.ruleId, c.ruleId);
      } else if a.file != b.file && b.file != c.file {
        StringTransitive(a.file, b.file, c.file);
        StringTotal(a.file, b.file);
      }
    }
  }

  /** Stable: after every element not greater. */
  function Insert(s: seq<Finding>, x: Finding): seq<Finding> {
    if s == [] then [x]
    else if Leq(s[0], x) then [s[0]] + Insert(s[1..], x)
    else [x] + s
  }

  /** `sorted`: any stable sort gives this list. */
  function Sort(s: seq<Finding>): seq<Finding> {
    if s == [] then [] else Insert(Sort(s[..|s| - 1]), s[|s| - 1])
  }

  predicate Sorted(s: seq<Finding>) {
    forall i, j :: 0 <= i < j < |s| ==> Leq(s[i], s[j])
  }

  lemma {:induction false} InsertMembers(s: seq<Finding>, x: Finding)
    ensures |Insert(s, x)| == |s| + 1
    ensures multiset(Insert(s, x)) == multiset(s) + multiset{x}
  {
    if s != [] {
      InsertMembers(s[1..], x);
      assert s == [s[0]] + s[1..];
    }
  }

  lemma {:induction false} InsertSorted(s: seq<Finding>, x: Finding)
    requires Sorted(s)
    ensures Sorted(Insert(s, x))
  {
    hide Leq;
    if s != [] {
      var rest := s[1..];
      assert Sorted(rest);
      if Leq(s[0], x) {
        InsertSorted(rest, x);
        var r := Insert(rest, x);
        InsertMembers(rest, x);
        forall j | 0 <= j < |r| ensures Leq(s[0], r[j]) {
          assert r[j] in multiset(r);
          if r[j] in rest { var k :| 0 <= k < |rest| && rest[k] == r[j]; assert s[k + 1] == r[j]; }
        }
        assert Insert(s, x) == [s[0]] + r;
      } else {
        LeqTotal(s[0], x);
        forall j | 0 <= j < |s| ensures Leq(x, s[j]) { if j > 0 { LeqTransitive(x, s[0], s[j]); } }
        assert Insert(s, x) == [x] + s;
      }
    }
  }

  lemma {:induction false} SortSorts(s: seq<Finding>)
    ensures Sorted(Sort(s)) && multiset(Sort(s)) == multiset(s) && |Sort(s)| == |s|
  {
    if s != [] {
      var front := s[..|s| - 1];
      SortSorts(front);
      InsertSorted(Sort(front), s[|s| - 1]);
      InsertMembers(Sort(front), s[|s| - 1]);
      assert s == front + [s[|s| - 1]];
    }
  }

  lemma {:induction false} InsertLast(s: seq<Finding>, x: Finding)
    requires forall y :: y in s ==> Leq(y, x)
    ensures Insert(s, x) == s + [x]
  {
    if s != [] {
      assert s[0] in s;
      InsertLast(s[1..], x);
      assert s + [x] == [s[0]] + (s[1..] + [x]);
    }
  }

  lemma {:induction false} SortFixesSorted(s: seq<Finding>)
    requires Sorted(s)
    ensures Sort(s) == s
  {
    if s != [] {
      var front, x := s[..|s| - 1], s[|s| - 1];
      SortFixesSorted(front);
      forall y | y in front ensures Leq(y, x) { var k :| 0 <= k < |front| && front[k] == y; assert s[k] == y; }
      InsertLast(front, x);
      assert s == front + [x];
    }
  }

  /** The two sort alike. */
  ghost predicate Tied(a: Finding, b: Finding) {
    NoLater(a, b) && NoLater(b, a)
  }

  /** The elements of `s` that sort like `z`, in order. */
  ghost function AlikeIn(s: seq<Finding>, z: Finding): seq<Finding> {
    Filter(s, (y: Finding) => Tied(z, y))
  }

  lemma FilterOne(x: Finding, p: Finding -> bool)
    ensures Filter([x], p) == if p(x) then [x] else []
  {
    assert [x][1..] == [];
  }

  /** Nothing after an element that sorts after `x` is tied with what `x` is tied with. */
  lemma AfterUntied(s: seq<Finding>, x: Finding, y: Finding, z: Finding)
    requires Sorted(s) && s != [] && !Leq(s[0], x) && y in s && Tied(z, x)
    ensures !Tied(z, y)
  {
    hide Leq, NoLater;
    LeqIff(z, x);
    LeqIff(x, z);
    LeqIff(y, z);
    LeqIff(z, y);
    var k :| 0 <= k < |s| && s[k] == y;
    if k > 0 { assert Leq(s[0], s[k]); }
    if Leq(y, z) {
      LeqTransitive(y, z, x);
      if k > 0 { LeqTransitive(s[0], y, x); }
    }
  }

  lemma {:induction false} InsertStable(s: seq<Finding>, x: Finding, z: Finding)
    requires Sorted(s)
    ensures AlikeIn(Insert(s, x), z) == AlikeIn(s + [x], z)
  {
    hide Leq, Tied, Filter;
    var tied := (y: Finding) => Tied(z, y);
    FilterAppend(s, [x], tied);
    FilterOne(x, tied);
    if s != [] {
      var rest := s[1..];
      assert Sorted(rest) && s == [s[0]] + rest;
      if Leq(s[0], x) {
        InsertStable(rest, x, z);
        FilterCons(s[0], Insert(rest, x), tied);
        FilterCons(s[0], rest + [x], tied);
        assert [s[0]] + (rest + [x]) == s + [x];
      } else if Tied(z, x) {
        forall y | y in s ensures !tied(y) { AfterUntied(s, x, y, z); }
        FilterNone(s, tied);
        FilterAppend([x], s, tied);
      } else {
        FilterAppend([x], s, tied);
      }
    } else {
      assert s + [x] == [x];
    }
  }

  /** The sort is stable: elements that sort alike keep their order. */
  lemma {:induction false} SortStable(s: seq<Finding>, z: Finding)
    ensures AlikeIn(Sort(s), z) == AlikeIn(s, z)
  {
    hide Tied;
    if s != [] {
      var front, x := s[..|s| - 1], s[|s| - 1];
      assert s == front + [x];
      SortStable(front, z);
      SortSorts(front);
      InsertStable(Sort(front), x, z);
      FilterAppend(Sort(front), [x], (y: Finding) => Tied(z, y));
      FilterAppend(front, [x], (y: Finding) => Tied(z, y));
    }
  }

  // ---- Ranking and the verdict -----------------------------------------------------------------------

  function Take(s: seq<Finding>): seq<Finding> {
    if |s| <= MAX_FINDINGS then s else s[..MAX_FINDINGS]
  }

  predicate IsHigh(f: Finding) { f.severity == "P1" || f.severity == "P2" }

  function HighPriority(s: seq<Finding>): seq<Finding> {
    Filter(s, (f: Finding) => IsHigh(f))
  }

  /** `rank_findings` */
  function Rank(findings: seq<Finding>): seq<Finding> {
    var ranked := Sort(Group(findings));
    if HighPriority(ranked) != [] then Take(HighPriority(ranked)) else Take(ranked)
  }

  datatype ReviewVerdict = ChangesRequested | NeedsReview | Approved

  /** `review_status`; `llm` is what the model's findings alone would give. */
  function ReviewStatus(findings: seq<Finding>, llm: ReviewVerdict): ReviewVerdict {
    if exists f :: f in findings && (f.severity == "P0" || f.severity == "P1") then ChangesRequested
    else if exists f :: f in findings && f.severity == "P2" then NeedsReview
    else llm
  }

  // ---- Groups ----------------------------------------------------------------------------------------

  predicate DistinctKeys(s: seq<Finding>) {
    forall i, j :: 0 <= i < j < |s| ==> KeyOf(s[i]) != KeyOf(s[j])
  }

  function Keys(s: seq<Finding>): set<Key> {
    set f | f in s :: KeyOf(f)
  }

  lemma KeysCons(head: Finding, rest: seq<Finding>)
    ensures Keys([head] + rest) == {KeyOf(head)} + Keys(rest)
  {
    var s := [head] + rest;
    assert head in s;
    forall key | key in Keys(rest) ensures key in Keys(s) {
      var f :| f in rest && KeyOf(f) == key;
      assert f in s;
    }
  }

  lemma DistinctCons(head: Finding, rest: seq<Finding>)
    ensures DistinctKeys([head] + rest) <==> DistinctKeys(rest) && KeyOf(head) !in Keys(rest)
  {
    var s := [head] + rest;
    if DistinctKeys(s) {
      forall f | f in rest ensures KeyOf(f) != KeyOf(head) {
        var k :| 0 <= k < |rest| && rest[k] == f;
        assert s[k + 1] == f && KeyOf(s[0]) != KeyOf(s[k + 1]);
      }
      forall i, j | 0 <= i < j < |rest| ensures KeyOf(rest[i]) != KeyOf(rest[j]) {
        assert KeyOf(s[i + 1]) != KeyOf(s[j + 1]);
      }
    }
    if DistinctKeys(rest) && KeyOf(head) !in Keys(rest) {
      forall i, j | 0 <= i < j < |s| ensures KeyOf(s[i]) != KeyOf(s[j]) {
        assert s[j] == rest[j - 1] && KeyOf(rest[j - 1]) in Keys(rest);
      }
    }
  }

  lemma KeysSplit(s: seq<Finding>, head: Finding, rest: seq<Finding>)
    requires s == [head] + rest
    ensures Keys(s) == {KeyOf(head)} + Keys(rest)
    ensures DistinctKeys(s) <==> DistinctKeys(rest) && KeyOf(head) !in Keys(rest)
  {
    KeysCons(head, rest);
    DistinctCons(head, rest);
  }

  lemma {:induction false} AbsorbKeys(grouped: seq<Finding>, f: Finding)
    requires DistinctKeys(grouped)
    ensures DistinctKeys(Absorb(grouped, f)) && Keys(Absorb(grouped, f)) == Keys(grouped) + {KeyOf(f)}
  {
    if grouped == [] {
      KeysSplit([f], f, []);
    } else {
      var head, rest := grouped[0], grouped[1..];
      KeysSplit(grouped, head, rest);
      if KeyOf(head) == KeyOf(f) {
        KeysSplit(Absorb(grouped, f), Merge(head, f), rest);
      } else {
        AbsorbKeys(rest, f);
        KeysSplit(Absorb(grouped, f), head, Absorb(rest, f));
      }
    }
  }

  lemma {:induction false} GroupKeys(findings: seq<Finding>)
    ensures DistinctKeys(Group(findings)) && Keys(Group(findings)) == Keys(findings)
  {
    if findings != [] {
      var front, f := findings[..|findings| - 1], findings[|findings| - 1];
      GroupKeys(front);
      AbsorbKeys(Group(front), f);
      assert findings == front + [f] && f in findings;
      assert forall x :: x in findings <==> x in front || x == f;
    }
  }

  /** A group's own file followed by its related files. */
  function Files(g: Finding): seq<string> {
    [g.file] + g.relatedFiles
  }

  predicate NoDuplicates(s: seq<string>) {
    forall i, j :: 0 <= i < j < |s| ==> s[i] != s[j]
  }

  ghost predicate SameKey(a: Finding, b: Finding) {
    a.ruleId == b.ruleId && a.severity == b.severity && a.recommendation == b.recommendation
  }

  /** The findings of one key, in order. */
  function WithKey(findings: seq<Finding>, key: Key): seq<Finding> {
    Filter(findings, (f: Finding) => f.ruleId == key.ruleId && f.severity == key.severity && f.recommendation == key.recommendation)
  }

  /** `g` is the first finding with its rule, severity and recommendation, except that its related files also
      list the files of the later ones - whose own related files are lost -, and that its metadata is gone
      when there was any such file. It repeats a file only if that first finding did. */
  ghost predicate ListsFiles(g: Finding, findings: seq<Finding>) {
    var same := WithKey(findings, Key(g.ruleId, g.severity, g.recommendation));
    && same != [] && g == same[0].(relatedFiles := g.relatedFiles, meta := g.meta)
    && g.meta == (if forall f :: f in same ==> f.file == same[0].file then same[0].meta else None)
    && same[0].relatedFiles <= g.relatedFiles
    && (NoDuplicates(Files(same[0])) ==> NoDuplicates(Files(g)))
    && forall file :: file in Files(g) <==> file in same[0].relatedFiles || exists f :: f in same && f.file == file
  }

  lemma WithKeyGrows(findings: seq<Finding>, f: Finding, key: Key)
    ensures WithKey(findings + [f], key) == WithKey(findings, key) + if KeyOf(f) == key then [f] else []
  {
    FilterAppend(findings, [f], (x: Finding) => x.ruleId == key.ruleId && x.severity == key.severity && x.recommendation == key.recommendation);
    assert [f][1..] == [];
  }

  lemma MergeFiles(current: Finding, f: Finding, file: string)
    ensures file in Files(Merge(current, f)) <==> file in Files(current) || file == f.file
    ensures NoDuplicates(Files(current)) ==> NoDuplicates(Files(Merge(current, f)))
  {
    var merged := Merge(current, f);
    assert Files(merged) == Files(current) || Files(merged) == Files(current) + [f.file];
    if Files(merged) != Files(current) { assert f.file !in Files(current); }
  }

  lemma MergeKey(current: Finding, f: Finding)
    ensures KeyOf(Merge(current, f)) == KeyOf(current)
    ensures var merged := Merge(current, f);
      merged == current.(relatedFiles := merged.relatedFiles, meta := if f.file == current.file then current.meta else None)
    ensures current.relatedFiles <= Merge(current, f).relatedFiles
  {}

  lemma MergeLists(current: Finding, f: Finding, findings: seq<Finding>)
    requires ListsFiles(current, findings) && KeyOf(current) == KeyOf(f)
    ensures ListsFiles(Merge(current, f), findings + [f])
  {
    hide Merge, Files, NoDuplicates, WithKey;
    MergeKey(current, f);
    WithKeyGrows(findings, f, KeyOf(current));
    var before, after := WithKey(findings, KeyOf(current)), WithKey(findings + [f], KeyOf(current));
    assert after == before + [f] && after[0] == before[0];
    assert f in after && forall x :: x in after <==> x in before || x == f;
    MergeFiles(current, f, f.file);
    forall file ensures file in Files(Merge(current, f)) <==> file in after[0].relatedFiles || exists x :: x in after && x.file == file {
      MergeFiles(current, f, file);
    }
  }

  lemma OtherLists(g: Finding, f: Finding, findings: seq<Finding>)
    requires ListsFiles(g, findings) && KeyOf(g) != KeyOf(f)
    ensures ListsFiles(g, findings + [f])
  {
    WithKeyGrows(findings, f, KeyOf(g));
    assert WithKey(findings, KeyOf(g)) + [] == WithKey(findings, KeyOf(g));
  }

  lemma NewLists(f: Finding, findings: seq<Finding>)
    requires KeyOf(f) !in Keys(findings)
    ensures ListsFiles(f, findings + [f])
  {
    WithKeyGrows(findings, f, KeyOf(f));
    forall x | x in findings ensures KeyOf(x) != KeyOf(f) { assert KeyOf(x) in Keys(findings); }
    var key := KeyOf(f);
    FilterNone(findings, (x: Finding) => x.ruleId == key.ruleId && x.severity == key.severity && x.recommendation == key.recommendation);
    var same := WithKey(findings + [f], KeyOf(f));
    assert same == [f] && f in same;
  }

  lemma {:induction false} AbsorbLists(grouped: seq<Finding>, f: Finding, findings: seq<Finding>)
    requires DistinctKeys(grouped)
    requires forall g :: g in grouped ==> ListsFiles(g, findings)
    requires KeyOf(f) !in Keys(grouped) ==> KeyOf(f) !in Keys(findings)
    ensures forall g :: g in Absorb(grouped, f) ==> ListsFiles(g, findings + [f])
  {
    hide ListsFiles, Merge;
    if grouped == [] {
      NewLists(f, findings);
    } else {
      var head, rest := grouped[0], grouped[1..];
      KeysSplit(grouped, head, rest);
      assert head in grouped;
      assert forall g :: g in grouped <==> g == head || g in rest;
      if KeyOf(head) == KeyOf(f) {
        MergeLists(head, f, findings);
        forall g | g in rest ensures ListsFiles(g, findings + [f]) {
          assert KeyOf(g) in Keys(rest);
          OtherLists(g, f, findings);
        }
      } else {
        OtherLists(head, f, findings);
        AbsorbLists(rest, f, findings);
      }
    }
  }

  lemma {:induction false} AllLists(findings: seq<Finding>)
    ensures forall g :: g in Group(findings) ==> ListsFiles(g, findings)
  {
    hide ListsFiles;
    if findings != [] {
      var front, f := findings[..|findings| - 1], findings[|findings| - 1];
      assert findings == front + [f];
      AllLists(front);
      GroupKeys(front);
      AbsorbLists(Group(front), f, front);
    }
  }

  /** Before the cap, each group's file plus related files lists the files reported with its rule, severity
      and recommendation, and whatever related files the first of those findings carried. From scanners,
      whose findings carry none, that is a duplicate-free list of exactly those files. */
  lemma GroupLists(findings: seq<Finding>, g: Finding)
    requires g in Group(findings)
    ensures ListsFiles(g, findings)
    ensures (forall f :: f in findings ==> f.relatedFiles == []) ==>
      && NoDuplicates(Files(g))
      && forall file :: file in Files(g) <==> exists f :: f in findings && SameKey(f, g) && f.file == file
  {
    AllLists(findings);
    var same := WithKey(findings, KeyOf(g));
    assert same[0] in same;
    forall f ensures f in same <==> f in findings && SameKey(f, g) {}
  }

  /** Some finding of `a`'s key was reported before any of `b`'s. */
  ghost predicate ReportedBefore(findings: seq<Finding>, a: Finding, b: Finding) {
    exists p: nat :: p < |findings| && SameKey(findings[p], a) && forall q :: 0 <= q <= p ==> !SameKey(findings[q], b)
  }

  lemma {:induction false} AbsorbShape(grouped: seq<Finding>, f: Finding)
    requires DistinctKeys(grouped)
    ensures KeyOf(f) !in Keys(grouped) ==> Absorb(grouped, f) == grouped + [f]
    ensures KeyOf(f) in Keys(grouped) ==>
      |Absorb(grouped, f)| == |grouped| && forall i :: 0 <= i < |grouped| ==> KeyOf(Absorb(grouped, f)[i]) == KeyOf(grouped[i])
  {
    hide Merge;
    if grouped != [] {
      var head, rest := grouped[0], grouped[1..];
      KeysSplit(grouped, head, rest);
      assert grouped == [head] + rest;
      MergeKey(head, f);
      if KeyOf(head) != KeyOf(f) {
        AbsorbShape(rest, f);
        assert grouped + [f] == [head] + (rest + [f]);
      }
    }
  }

  lemma ReportedEarlier(findings: seq<Finding>, f: Finding, a: Finding, b: Finding, a': Finding, b': Finding)
    requires ReportedBefore(findings, a, b) && SameKey(a, a') && SameKey(b, b')
    ensures ReportedBefore(findings + [f], a', b')
  {
    var p: nat :| p < |findings| && SameKey(findings[p], a) && forall q :: 0 <= q <= p ==> !SameKey(findings[q], b);
    var all := findings + [f];
    assert SameKey(all[p], a');
    forall q | 0 <= q <= p ensures !SameKey(all[q], b') { assert all[q] == findings[q]; }
  }

  lemma ReportedLast(findings: seq<Finding>, a: Finding, f: Finding)
    requires KeyOf(a) in Keys(findings) && KeyOf(f) !in Keys(findings)
    ensures ReportedBefore(findings + [f], a, f)
  {
    var x :| x in findings && KeyOf(x) == KeyOf(a);
    var p :| 0 <= p < |findings| && findings[p] == x;
    var all := findings + [f];
    forall q | 0 <= q <= p ensures !SameKey(all[q], f) { assert all[q] == findings[q] && KeyOf(findings[q]) in Keys(findings); }
    assert SameKey(all[p], a);
  }

  /** There is one group per rule, severity and recommendation, in the order they were first reported. */
  lemma {:induction false} GroupOrdered(findings: seq<Finding>)
    ensures forall i, j :: 0 <= i < j < |Group(findings)| ==>
      !SameKey(Group(findings)[i], Group(findings)[j]) && ReportedBefore(findings, Group(findings)[i], Group(findings)[j])
    ensures forall f :: f in findings ==> exists g :: g in Group(findings) && SameKey(f, g)
  {
    hide ReportedBefore, DistinctKeys;
    if findings != [] {
      var front, f := findings[..|findings| - 1], findings[|findings| - 1];
      var before, after := Group(front), Group(findings);
      assert findings == front + [f];
      GroupOrdered(front);
      GroupKeys(front);
      AbsorbShape(before, f);
      forall i, j | 0 <= i < j < |after| ensures !SameKey(after[i], after[j]) && ReportedBefore(findings, after[i], after[j]) {
        if j < |before| {
          ReportedEarlier(front, f, before[i], before[j], after[i], after[j]);
        } else {
          assert KeyOf(before[i]) in Keys(before);
          ReportedLast(front, before[i], f);
        }
      }
    }
    GroupKeys(findings);
    forall f | f in findings ensures exists g :: g in Group(findings) && SameKey(f, g) {
      assert KeyOf(f) in Keys(findings);
      var g :| g in Group(findings) && KeyOf(g) == KeyOf(f);
    }
  }

  // ---- Main results ------------------------------------------------------------------------------------

  function Severities(s: seq<Finding>): set<string> {
    set f | f in s :: f.severity
  }

  /** The verdict depends on the severities present, nothing else. */
  lemma StatusBySeverities(s: seq<Finding>, llm: ReviewVerdict)
    ensures ReviewStatus(s, llm) ==
      if "P0" in Severities(s) || "P1" in Severities(s) then ChangesRequested
      else if "P2" in Severities(s) then NeedsReview else llm
  {}

  lemma KeysSeverities(s: seq<Finding>, other: seq<Finding>)
    requires Keys(s) <= Keys(other)
    ensures Severities(s) <= Severities(other)
  {
    forall v | v in Severities(s) ensures v in Severities(other) {
      var f :| f in s && f.severity == v;
      assert KeyOf(f) in Keys(s);
      var g :| g in other && KeyOf(g) == KeyOf(f);
    }
  }

  lemma RankedSeverities(findings: seq<Finding>)
    ensures Severities(Sort(Group(findings))) == Severities(findings)
  {
    GroupKeys(findings);
    KeysSeverities(Group(findings), findings);
    KeysSeverities(findings, Group(findings));
    SortSorts(Group(findings));
    var a, b := Sort(Group(findings)), Group(findings);
    forall g ensures g in a <==> g in b { assert g in multiset(a) <==> g in multiset(b); }
  }

  lemma {:induction false} FilterEverything(s: seq<Finding>, p: Finding -> bool)
    requires forall f :: f in s ==> p(f)
    ensures Filter(s, p) == s
  {
    if s != [] {
      assert s[0] in s;
      FilterEverything(s[1..], p);
      assert s == [s[0]] + s[1..];
    }
  }

  lemma {:induction false} FilterSorted(s: seq<Finding>, p: Finding -> bool)
    requires Sorted(s)
    ensures Sorted(Filter(s, p))
  {
    hide Leq;
    if s != [] {
      var rest := s[1..];
      assert Sorted(rest);
      FilterSorted(rest, p);
      var r := Filter(rest, p);
      forall j | 0 <= j < |r| ensures Leq(s[0], r[j]) {
        assert r[j] in rest;
        var k :| 0 <= k < |rest| && rest[k] == r[j];
        assert s[k + 1] == r[j];
      }
    }
  }

  lemma HighestFirst(s: seq<Finding>, severity: string)
    requires Sorted(s) && severity in Severities(s)
    ensures s != [] && SeverityRank(s[0].severity) <= SeverityRank(severity)
  {
    var f :| f in s && f.severity == severity;
    var i :| 0 <= i < |s| && s[i] == f;
    if i > 0 { assert Leq(s[0], s[i]); }
  }

  lemma TakeSeverities(s: seq<Finding>)
    requires s != []
    ensures Severities(Take(s)) <= Severities(s) && s[0].severity in Severities(Take(s))
  {
    assert forall g :: g in Take(s) ==> g in s;
    assert Take(s)[0] == s[0] && s[0] in Take(s);
  }

  lemma TakeNothing(s: seq<Finding>)
    requires s == []
    ensures Take(s) == s
  {}

  /** The cap on a sorted list keeps its verdict. */
  lemma TakeKeepsStatus(s: seq<Finding>, llm: ReviewVerdict)
    requires Sorted(s)
    ensures ReviewStatus(Take(s), llm) == ReviewStatus(s, llm)
  {
    hide Sorted, Take, Severities, ReviewStatus;
    StatusBySeverities(s, llm);
    StatusBySeverities(Take(s), llm);
    if s != [] {
      TakeSeverities(s);
      if "P0" in Severities(s) { HighestFirst(s, "P0"); }
      if "P1" in Severities(s) { HighestFirst(s, "P1"); }
      if "P2" in Severities(s) { HighestFirst(s, "P2"); }
    } else {
      TakeNothing(s);
    }
  }

  lemma HighSeverities(s: seq<Finding>)
    ensures Severities(HighPriority(s)) == Severities(s) * {"P1", "P2"}
    ensures HighPriority(s) == [] <==> "P1" !in Severities(s) && "P2" !in Severities(s)
  {
    forall v | v in Severities(s) * {"P1", "P2"} ensures v in Severities(HighPriority(s)) {
      var f :| f in s && f.severity == v;
      assert f in HighPriority(s);
    }
    if HighPriority(s) != [] { assert HighPriority(s)[0] in HighPriority(s); }
  }

  lemma HighSorted(s: seq<Finding>)
    requires Sorted(s)
    ensures Sorted(HighPriority(s))
  {
    FilterSorted(s, (f: Finding) => IsHigh(f));
  }

  /** Exactly when merging and capping keep the verdict, over all severities: unless a P0 is reported with
      a P2 and without a P1, for then the filter drops the P0 and the review only asks for attention. */
  lemma VerdictKeptIff(findings: seq<Finding>, llm: ReviewVerdict)
    ensures ReviewStatus(Rank(findings), llm) == ReviewStatus(findings, llm)
      <==> !("P0" in Severities(findings) && "P2" in Severities(findings) && "P1" !in Severities(findings))
  {
    hide Group, Sort, Severities, ReviewStatus, HighPriority, Take, Sorted;
    var ranked := Sort(Group(findings));
    var high := HighPriority(ranked);
    SortSorts(Group(findings));
    RankedSeverities(findings);
    HighSeverities(ranked);
    HighSorted(ranked);
    TakeKeepsStatus(high, llm);
    TakeKeepsStatus(ranked, llm);
    StatusBySeverities(findings, llm);
    StatusBySeverities(ranked, llm);
    StatusBySeverities(high, llm);
  }

  /** Merging and capping leave the verdict of scanner findings unchanged. */
  lemma VerdictKept(findings: seq<Finding>, llm: ReviewVerdict)
    requires forall f :: f in findings ==> IsHigh(f)
    ensures ReviewStatus(Rank(findings), llm) == ReviewStatus(findings, llm)
  {
    VerdictKeptIff(findings, llm);
  }

  /** P1 or P2 if either is reported, anything otherwise. */
  ghost predicate Eligible(findings: seq<Finding>, g: Finding) {
    (exists f :: f in findings && (f.severity == "P1" || f.severity == "P2")) ==> g.severity == "P1" || g.severity == "P2"
  }

  ghost function EligibleGroups(findings: seq<Finding>): seq<Finding> {
    Filter(Group(findings), (g: Finding) => Eligible(findings, g))
  }

  /** What the cap is applied to. */
  function Ranked(findings: seq<Finding>): seq<Finding> {
    var ranked := Sort(Group(findings));
    if HighPriority(ranked) != [] then HighPriority(ranked) else ranked
  }

  lemma EligibleIff(findings: seq<Finding>)
    ensures forall g :: g in Group(findings) ==>
      (Eligible(findings, g) <==> HighPriority(Sort(Group(findings))) == [] || IsHigh(g))
  {
    hide Group, Sort, Sorted;
    RankedSeverities(findings);
    HighSeverities(Sort(Group(findings)));
    assert (exists f :: f in findings && (f.severity == "P1" || f.severity == "P2"))
      <==> "P1" in Severities(findings) || "P2" in Severities(findings);
  }

  lemma FilterSwap(s: seq<Finding>, p: Finding -> bool, q: Finding -> bool)
    ensures Filter(Filter(s, p), q) == Filter(Filter(s, q), p)
  {
    var both := (x: Finding) => p(x) && q(x);
    FilterTwice(s, p, q, both);
    FilterTwice(s, q, p, both);
  }

  lemma RankedStable(findings: seq<Finding>, z: Finding)
    ensures AlikeIn(Ranked(findings), z) == AlikeIn(EligibleGroups(findings), z)
  {
    hide Group, Sort, Tied, Eligible, IsHigh;
    var groups, ranked := Group(findings), Sort(Group(findings));
    var tied := (y: Finding) => Tied(z, y);
    EligibleIff(findings);
    SortStable(groups, z);
    if HighPriority(ranked) != [] {
      var high := (y: Finding) => IsHigh(y);
      FilterSwap(ranked, high, tied);
      FilterSwap(groups, high, tied);
      FilterSame(groups, (y: Finding) => Eligible(findings, y), high);
    } else {
      FilterEverything(groups, (y: Finding) => Eligible(findings, y));
    }
  }

  /** The ranking, exactly: the first five of the eligible groups in their sort order, and those that sort
      alike in the order of the groups. */
  lemma RankExact(findings: seq<Finding>) returns (ordered: seq<Finding>)
    ensures Rank(findings) == if |ordered| <= 5 then ordered else ordered[..5]
    ensures forall i, j :: 0 <= i < j < |ordered| ==> NoLater(ordered[i], ordered[j])
    ensures forall z :: AlikeIn(ordered, z) == AlikeIn(EligibleGroups(findings), z)
  {
    hide Group, Sort, Leq, NoLater, AlikeIn, EligibleGroups, Eligible, IsHigh, HighPriority;
    ordered := Ranked(findings);
    SortSorts(Group(findings));
    HighSorted(Sort(Group(findings)));
    forall i, j | 0 <= i < j < |ordered| ensures NoLater(ordered[i], ordered[j]) { LeqIff(ordered[i], ordered[j]); }
    forall z ensures AlikeIn(ordered, z) == AlikeIn(EligibleGroups(findings), z) { RankedStable(findings, z); }
  }

  lemma TiedSelf(g: Finding)
    ensures Tied(g, g)
  {
    hide Leq;
    LeqTotal(g, g);
    LeqIff(g, g);
  }

  /** What a dropped group says, whatever the severities: either it is neither P1 nor P2 and some P1 or P2
      was reported, or five are kept and each sorts no later than the missing one. */
  lemma CapKeepsFirst(findings: seq<Finding>, g: Finding)
    requires g in Group(findings) && g !in Rank(findings)
    ensures || !Eligible(findings, g)
      || (|Rank(findings)| == 5 && forall r :: r in Rank(findings) ==> NoLater(r, g))
  {
    hide Group, Rank, Eligible, NoLater, Tied;
    var ordered := RankExact(findings);
    if Eligible(findings, g) {
      TiedSelf(g);
      assert g in AlikeIn(EligibleGroups(findings), g);
      assert g in AlikeIn(ordered, g);
      var k :| 0 <= k < |ordered| && ordered[k] == g;
      forall r | r in Rank(findings) ensures NoLater(r, g) {
        var i :| 0 <= i < |Rank(findings)| && Rank(findings)[i] == r;
        assert ordered[i] == r;
      }
    }
  }

  lemma {:induction false} AbsorbNew(grouped: seq<Finding>, f: Finding)
    requires forall g :: g in grouped ==> KeyOf(g) != KeyOf(f)
    ensures Absorb(grouped, f) == grouped + [f]
  {
    if grouped != [] {
      assert grouped[0] in grouped;
      AbsorbNew(grouped[1..], f);
      assert grouped + [f] == [grouped[0]] + (grouped[1..] + [f]);
    }
  }

  lemma {:induction false} GroupFixesDistinct(s: seq<Finding>)
    requires DistinctKeys(s)
    ensures Group(s) == s
  {
    if s != [] {
      var front, f := s[..|s| - 1], s[|s| - 1];
      GroupFixesDistinct(front);
      forall g | g in front ensures KeyOf(g) != KeyOf(f) { var k :| 0 <= k < |front| && front[k] == g; assert s[k] == g; }
      AbsorbNew(front, f);
      assert s == front + [f];
    }
  }

  lemma OneCopy(s: seq<Finding>, a: nat)
    requires DistinctKeys(s) && a < |s|
    ensures multiset(s)[s[a]] == 1
  {
    assert s == s[..a] + [s[a]] + s[a + 1..];
    forall k | 0 <= k < a ensures s[..a][k] != s[a] { assert KeyOf(s[k]) != KeyOf(s[a]); }
    var after := s[a + 1..];
    forall k | 0 <= k < |after| ensures after[k] != s[a] { assert after[k] == s[a + 1 + k] && KeyOf(s[a]) != KeyOf(s[a + 1 + k]); }
    assert s[a] !in s[..a] && s[a] !in s[a + 1..];
  }

  lemma DistinctAfterSort(s: seq<Finding>)
    requires DistinctKeys(s)
    ensures DistinctKeys(Sort(s))
  {
    SortSorts(s);
    var r := Sort(s);
    forall i, j | 0 <= i < j < |r| ensures KeyOf(r[i]) != KeyOf(r[j]) {
      if KeyOf(r[i]) == KeyOf(r[j]) {
        assert r[i] in multiset(s) && r[j] in multiset(s);
        var a :| 0 <= a < |s| && s[a] == r[i];
        var b :| 0 <= b < |s| && s[b] == r[j];
        assert a == b;
        TwoCopies(r, i, j);
        OneCopy(s, a);
      }
    }
  }

  lemma DistinctFilter(s: seq<Finding>, p: Finding -> bool)
    requires DistinctKeys(s)
    ensures DistinctKeys(Filter(s, p)) && Keys(Filter(s, p)) <= Keys(s)
  {
    if s != [] {
      KeysSplit(s, s[0], s[1..]);
      DistinctFilter(s[1..], p);
      if p(s[0]) { KeysSplit([s[0]] + Filter(s[1..], p), s[0], Filter(s[1..], p)); }
    }
  }

  lemma DistinctTake(s: seq<Finding>)
    requires DistinctKeys(s) && Sorted(s)
    ensures DistinctKeys(Take(s)) && Sorted(Take(s)) && |Take(s)| <= MAX_FINDINGS && forall f :: f in Take(s) ==> f in s
  {}

  /** A sorted, merged list within the cap is left alone when it is all high or not high at all. */
  lemma RankedFixed(top: seq<Finding>)
    requires Sorted(top) && DistinctKeys(top) && |top| <= MAX_FINDINGS
    requires (forall f :: f in top ==> IsHigh(f)) || (forall f :: f in top ==> !IsHigh(f))
    ensures Rank(top) == top
  {
    GroupFixesDistinct(top);
    SortFixesSorted(top);
    if forall f :: f in top ==> IsHigh(f) {
      FilterEverything(top, (f: Finding) => IsHigh(f));
    } else {
      FilterNone(top, (f: Finding) => IsHigh(f));
    }
  }

  /** Ranking a ranked list changes nothing, whatever the severities. */
  lemma RankIdempotent(findings: seq<Finding>)
    ensures Rank(Rank(findings)) == Rank(findings)
  {
    hide Group, Sort, Take, Sorted, DistinctKeys, IsHigh;
    GroupKeys(findings);
    SortSorts(Group(findings));
    DistinctAfterSort(Group(findings));
    var ranked := Sort(Group(findings));
    HighSorted(ranked);
    DistinctFilter(ranked, (f: Finding) => IsHigh(f));
    DistinctTake(ranked);
    DistinctTake(HighPriority(ranked));
    forall f | f in ranked && IsHigh(f) ensures f in HighPriority(ranked) {}
    RankedFixed(Rank(findings));
  }

  /** `rank_findings` as its loop runs. */
  method RankFindings(findings: seq<Finding>) returns (ranked: seq<Finding>)
    ensures ranked == Rank(findings)
  {
    var grouped := [];
    for i := 0 to |findings|
      invariant grouped == Group(findings[..i])
    {
      assert findings[..i + 1][..i] == findings[..i] && findings[..i + 1][i] == findings[i];
      grouped := Absorb(grouped, findings[i]);
    }
    assert findings[..|findings|] == findings;
    var sorted := Sort(grouped);
    var high := HighPriority(sorted);
    ranked := if high != [] then Take(high) else Take(sorted);
  }
}
