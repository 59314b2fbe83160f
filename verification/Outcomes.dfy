/** Results of operations that may refuse, and the list comprehension they are built from. */
module Outcomes {

  /** The topology code has one refusal: the shared "topology unknown" reason. */
  datatype Outcome<+T> = Resolved(value: T) | Refused {
    predicate IsFailure() { Refused? }
    function PropagateFailure<U>(): Outcome<U> requires Refused? { Refused }
    function Extract(): T requires Resolved? { value }
  }

  datatype Option<+T> = None | Some(value: T)

  /** `[x for x in s if p(x)]` */
  function Filter<T(!new)>(s: seq<T>, p: T -> bool): (r: seq<T>)
    ensures forall x :: x in r <==> x in s && p(x)
    ensures |r| <= |s|
  {
    if s == [] then []
    else if p(s[0]) then [s[0]] + Filter(s[1..], p)
    else Filter(s[1..], p)
  }

  lemma {:induction false} FilterAppend<T(!new)>(a: seq<T>, b: seq<T>, p: T -> bool)
    ensures Filter(a + b, p) == Filter(a, p) + Filter(b, p)
  {
    if a == [] {
      assert a + b == b;
    } else {
      assert (a + b)[1..] == a[1..] + b;
      FilterAppend(a[1..], b, p);
    }
  }

  lemma FilterCons<T(!new)>(x: T, s: seq<T>, p: T -> bool)
    ensures Filter([x] + s, p) == if p(x) then [x] + Filter(s, p) else Filter(s, p)
  {
    assert ([x] + s)[1..] == s;
  }

  /** One more element at the end. */
  lemma FilterGrow<T(!new)>(s: seq<T>, i: nat, p: T -> bool)
    requires i < |s|
    ensures Filter(s[..i + 1], p) == Filter(s[..i], p) + if p(s[i]) then [s[i]] else []
    ensures forall x :: x in s[..i + 1] <==> x in s[..i] || x == s[i]
  {
    assert s[..i + 1] == s[..i] + [s[i]] && [s[i]] == [s[i]] + [];
    FilterAppend(s[..i], [s[i]], p);
    FilterCons(s[i], [], p);
  }

  /** Filtering twice is filtering once by the conjunction. */
  lemma {:induction false} FilterTwice<T(!new)>(s: seq<T>, p: T -> bool, q: T -> bool, both: T -> bool)
    requires forall x :: x in s ==> (both(x) <==> p(x) && q(x))
    ensures Filter(Filter(s, p), q) == Filter(s, both)
  {
    if s != [] {
      assert s[0] in s;
      FilterTwice(s[1..], p, q, both);
      if p(s[0]) {
        assert ([s[0]] + Filter(s[1..], p))[1..] == Filter(s[1..], p);
      }
    }
  }

  lemma {:induction false} FilterSame<T(!new)>(s: seq<T>, p: T -> bool, q: T -> bool)
    requires forall x :: x in s ==> (p(x) <==> q(x))
    ensures Filter(s, p) == Filter(s, q)
  {
    if s != [] {
      assert s[0] in s;
      FilterSame(s[1..], p, q);
    }
  }

  lemma FilterNone<T(!new)>(s: seq<T>, p: T -> bool)
    requires forall x :: x in s ==> !p(x)
    ensures Filter(s, p) == []
  {
    if Filter(s, p) != [] { assert Filter(s, p)[0] in Filter(s, p); }
  }

  lemma FilterPair<T(!new)>(a: T, b: T, p: T -> bool)
    ensures Filter([a, b], p) == (if p(a) then [a] else []) + (if p(b) then [b] else [])
  {
    assert [a, b][1..] == [b] && [b][1..] == [];
    assert Filter([], p) == [];
    assert Filter([b], p) == if p(b) then [b] else [];
  }

  lemma FilterFour<T(!new)>(s: seq<T>, p: T -> bool)
    requires |s| == 4
    ensures Filter(s, p) == (if p(s[0]) then [s[0]] else []) + (if p(s[1]) then [s[1]] else [])
      + ((if p(s[2]) then [s[2]] else []) + (if p(s[3]) then [s[3]] else []))
  {
    assert s == [s[0], s[1]] + [s[2], s[3]];
    FilterAppend([s[0], s[1]], [s[2], s[3]], p);
    FilterPair(s[0], s[1], p);
    FilterPair(s[2], s[3], p);
  }

  /** A filter keeps exactly one element when exactly one position satisfies it. */
  lemma {:induction false} FilterSole<T(!new)>(s: seq<T>, p: T -> bool) returns (i: nat)
    requires |Filter(s, p)| == 1
    ensures i < |s| && p(s[i]) && Filter(s, p) == [s[i]]
    ensures forall j :: 0 <= j < |s| && p(s[j]) ==> j == i
  {
    if p(s[0]) {
      i := 0;
      assert Filter(s, p) == [s[0]] + Filter(s[1..], p);
      assert |Filter(s[1..], p)| == 0;
      forall j | 0 < j < |s| ensures !p(s[j]) { assert s[j] == s[1..][j - 1] && s[j] in s[1..]; }
    } else {
      var k := FilterSole(s[1..], p);
      i := k + 1;
      forall j | 0 <= j < |s| && p(s[j]) ensures j == i { assert s[j] == s[1..][j - 1]; }
    }
  }

  /** A filter keeps more than one element exactly when two positions satisfy it. */
  lemma {:induction false} FilterMany<T(!new)>(s: seq<T>, p: T -> bool) returns (j: nat, k: nat)
    requires |Filter(s, p)| > 1
    ensures j < k < |s| && p(s[j]) && p(s[k])
  {
    if p(s[0]) {
      var rest := Filter(s[1..], p);
      assert Filter(s, p) == [s[0]] + rest;
      assert rest[0] in rest;
      var n :| 0 <= n < |s[1..]| && s[1..][n] == rest[0];
      j, k := 0, n + 1;
    } else {
      j, k := FilterMany(s[1..], p);
      j, k := j + 1, k + 1;
    }
  }

  lemma {:induction false} ManyFilter<T(!new)>(s: seq<T>, p: T -> bool, j: nat, k: nat)
    requires j < k < |s| && p(s[j]) && p(s[k])
    ensures |Filter(s, p)| > 1
  {
    var rest := s[1..];
    assert rest[k - 1] == s[k];
    if j == 0 {
      assert s[k] in rest && s[k] in Filter(rest, p);
    } else {
      assert rest[j - 1] == s[j];
      ManyFilter(rest, p, j - 1, k - 1);
    }
  }

  lemma {:induction false} SoleFilter<T(!new)>(s: seq<T>, p: T -> bool, i: nat)
    requires i < |s| && p(s[i])
    requires forall j :: 0 <= j < |s| && p(s[j]) ==> j == i
    ensures Filter(s, p) == [s[i]]
  {
    if i == 0 {
      forall o | o in s[1..] ensures !p(o) {
        var k :| 0 <= k < |s[1..]| && s[1..][k] == o;
        assert s[k + 1] == o;
      }
      FilterNone(s[1..], p);
    } else {
      assert s[1..][i - 1] == s[i];
      forall j | 0 <= j < |s[1..]| && p(s[1..][j]) ensures j == i - 1 { assert s[j + 1] == s[1..][j]; }
      SoleFilter(s[1..], p, i - 1);
    }
  }

  lemma {:induction false} FilterCounts<T(!new)>(s: seq<T>, p: T -> bool, x: T)
    ensures multiset(Filter(s, p))[x] == if p(x) then multiset(s)[x] else 0
  {
    if s != [] {
      assert s == [s[0]] + s[1..];
      FilterCounts(s[1..], p, x);
    }
  }

  /** Filtering a reordered list reorders the result. */
  lemma FilterReordered<T(!new)>(a: seq<T>, b: seq<T>, p: T -> bool)
    requires multiset(a) == multiset(b)
    ensures multiset(Filter(a, p)) == multiset(Filter(b, p)) && |Filter(a, p)| == |Filter(b, p)|
    ensures |Filter(a, p)| <= 1 ==> Filter(a, p) == Filter(b, p)
  {
    var fa, fb := Filter(a, p), Filter(b, p);
    forall x ensures multiset(fa)[x] == multiset(fb)[x] {
      FilterCounts(a, p, x);
      FilterCounts(b, p, x);
    }
    assert multiset(fa) == multiset(fb);
    assert |fa| == |multiset(fa)| && |fb| == |multiset(fb)|;
    if |fa| == 1 {
      assert fa[0] in multiset(fb);
    }
  }

  lemma OneElement<T>(s: seq<T>, b: T)
    requires b in s && forall x :: x in s ==> x == b
    requires forall i, j :: 0 <= i < j < |s| ==> s[i] != s[j]
    ensures s == [b]
  {
    assert s[0] in s && s[|s| - 1] in s;
  }

  lemma TwoCopies<T>(s: seq<T>, i: nat, j: nat)
    requires i < j < |s| && s[i] == s[j]
    ensures multiset(s)[s[i]] >= 2
  {
    assert s == s[..j] + [s[j]] + s[j + 1..];
    assert s[..j][i] == s[i];
  }
}
