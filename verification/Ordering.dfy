/** Deterministic orders the engine relies on: sorted node tuples, tuple comparison and string comparison. */
module Ordering {

  /** A strictly increasing sequence: sorted and free of duplicates. */
  ghost predicate Increasing(s: seq<int>) {
    forall i, j :: 0 <= i < j < |s| ==> s[i] < s[j]
  }

  ghost predicate Distinct<T>(s: seq<T>) {
    forall i, j :: 0 <= i < j < |s| ==> s[i] != s[j]
  }

  function Elements<T(==)>(s: seq<T>): set<T> {
    set x | x in s
  }

  lemma Pick<T>(s: set<T>) returns (x: T)
    requires s != {}
    ensures x in s
  {
    x :| x in s;
  }

  lemma PickMissing<T>(all: set<T>, part: set<T>) returns (x: T)
    requires part <= all && part != all
    ensures x in all && x !in part
  {
    x :| x in all && x !in part;
  }

  lemma KeysWithin<K, V>(m: map<K, V>, m': map<K, V>)
    requires forall k :: k in m ==> k in m'
    ensures m.Keys <= m'.Keys
  {
  }

  lemma SubsetSize<T>(a: set<T>, b: set<T>)
    requires a <= b
    ensures |a| <= |b|
  {
    assert b == a + (b - a);
  }

  /** A measure for traversals: marking one more element leaves fewer unmarked. */
  lemma FewerLeft<T>(all: set<T>, marked: set<T>, marked': set<T>, x: T)
    requires marked <= marked' && x in all && x !in marked && x in marked'
    ensures |all - marked'| < |all - marked|
  {
    SubsetSize((all - marked') + {x}, all - marked);
  }

  lemma MinimumExists(s: set<int>)
    requires s != {}
    ensures exists m :: m in s && forall y :: y in s ==> m <= y
  {
    var x := Pick(s);
    if s != {x} {
      MinimumExists(s - {x});
      var m :| m in s - {x} && forall y :: y in s - {x} ==> m <= y;
      var least := if x < m then x else m;
      assert least in s;
      assert forall y :: y in s ==> y == x || y in s - {x};
    }
  }

  ghost predicate SortedListing(r: seq<int>, s: set<int>) {
    Increasing(r) && (forall x :: x in r <==> x in s) && |r| == |s|
  }

  lemma ListLeastFirst(m: int, rest: seq<int>, s: set<int>)
    requires m in s && (forall y :: y in s ==> m <= y) && SortedListing(rest, s - {m})
    ensures SortedListing([m] + rest, s)
  {
    assert forall i :: 0 <= i < |rest| ==> rest[i] in rest;
    assert forall x :: x in [m] + rest <==> x == m || x in rest;
  }

  /** The members of a set in increasing order, as Python's `sorted` returns them. */
  function SortedNodes(s: set<int>): (r: seq<int>)
    ensures SortedListing(r, s)
  {
    if s == {} then [] else
      MinimumExists(s);
      var m :| m in s && forall y :: y in s ==> m <= y;
      ListLeastFirst(m, SortedNodes(s - {m}), s);
      [m] + SortedNodes(s - {m})
  }

  /** Sorting is canonical: the elements determine the sorted sequence. */
  lemma {:induction false} IncreasingUnique(a: seq<int>, b: seq<int>)
    requires Increasing(a) && Increasing(b)
    requires forall x :: x in a <==> x in b
    ensures a == b
  {
    assert b != [] ==> b[0] in b;
    if a != [] {
      assert a[0] in a && b != [] && a[0] in b;
      assert b[0] in b && b[0] in a;
      assert a[0] == b[0];
      forall x ensures x in a[1..] <==> x in b[1..] {
        assert x in a <==> x == a[0] || x in a[1..];
        assert x in b <==> x == b[0] || x in b[1..];
      }
      IncreasingUnique(a[1..], b[1..]);
      assert a == [a[0]] + a[1..] && b == [b[0]] + b[1..];
    }
  }

  /** A duplicate-free sequence drawn from a finite set is no longer than the set. */
  lemma {:induction false} DistinctBound<T>(s: seq<T>, all: set<T>)
    requires Distinct(s)
    requires forall i :: 0 <= i < |s| ==> s[i] in all
    ensures |s| <= |all|
    decreases |s|
  {
    if s != [] {
      var k := |s| - 1;
      var rest := all - {s[k]};
      assert forall i :: 0 <= i < k ==> s[..k][i] in rest;
      DistinctBound(s[..k], rest);
    }
  }

  lemma {:induction false} DistinctCount<T>(s: seq<T>)
    requires Distinct(s)
    ensures |Elements(s)| == |s|
  {
    if s != [] {
      var k := |s| - 1;
      DistinctCount(s[..k]);
      assert Elements(s) == Elements(s[..k]) + {s[k]};
      assert s[k] !in s[..k];
    }
  }

  lemma {:induction false} ElementsBound<T>(s: seq<T>)
    ensures |Elements(s)| <= |s|
  {
    if s != [] {
      ElementsBound(s[1..]);
      assert Elements(s) == {s[0]} + Elements(s[1..]);
    }
  }

  /** `len(values) == len(set(values))` */
  lemma DistinctIffCount<T>(s: seq<T>)
    ensures |Elements(s)| == |s| <==> Distinct(s)
  {
    if Distinct(s) {
      DistinctCount(s);
    } else {
      var i, j :| 0 <= i < j < |s| && s[i] == s[j];
      var rest := s[..j] + s[j + 1..];
      forall x | x in s ensures x in rest {
        var k :| 0 <= k < |s| && s[k] == x;
        assert k < j ==> rest[k] == x;
        assert k > j ==> rest[k - 1] == x;
        assert k == j ==> rest[i] == x;
      }
      assert Elements(s) == Elements(rest);
      ElementsBound(rest);
    }
  }

  // ----- Tuples of node keys -----

  predicate FirstDifferenceLess(p: seq<int>, q: seq<int>, i: nat) {
    i < |p| && i < |q| && p[..i] == q[..i] && p[i] < q[i]
  }

  /** Python's tuple comparison, for two tuples that differ before either one ends. */
  predicate LexLess(p: seq<int>, q: seq<int>) {
    exists i :: 0 <= i < |p| && FirstDifferenceLess(p, q, i)
  }

  /** `_path_key(p) < _path_key(q)`: shorter first, then lexicographic. */
  predicate PathLess(p: seq<int>, q: seq<int>) {
    |p| < |q| || (|p| == |q| && LexLess(p, q))
  }

  ghost predicate PathAtMost(p: seq<int>, q: seq<int>) {
    p == q || PathLess(p, q)
  }

  lemma LexTotal(p: seq<int>, q: seq<int>)
    requires |p| == |q|
    ensures p == q || LexLess(p, q) || LexLess(q, p)
  {
    var i := 0;
    while i < |p| && p[i] == q[i]
      invariant 0 <= i <= |p|
      invariant p[..i] == q[..i]
    {
      i := i + 1;
    }
    if i == |p| {
      assert p == p[..i] && q == q[..i];
    } else {
      assert FirstDifferenceLess(p, q, i) || FirstDifferenceLess(q, p, i);
    }
  }

  lemma LexAsymmetric(p: seq<int>, q: seq<int>)
    requires LexLess(p, q)
    ensures !LexLess(q, p) && p != q
  {
    var i :| 0 <= i < |p| && FirstDifferenceLess(p, q, i);
    if j :| 0 <= j < |q| && FirstDifferenceLess(q, p, j) {
      assert false;
    }
  }

  lemma LexTransitive(p: seq<int>, q: seq<int>, r: seq<int>)
    requires LexLess(p, q) && LexLess(q, r)
    ensures LexLess(p, r)
  {
    var i :| 0 <= i < |p| && FirstDifferenceLess(p, q, i);
    var j :| 0 <= j < |q| && FirstDifferenceLess(q, r, j);
    var k := if i < j then i else j;
    assert p[..k] == p[..i][..k] == q[..i][..k] == q[..k];
    assert q[..k] == q[..j][..k] == r[..j][..k] == r[..k];
    if i < j {
      assert q[..j][i] == r[..j][i];
    } else if j < i {
      assert p[..i][j] == q[..i][j];
    }
    assert FirstDifferenceLess(p, r, k);
  }

  lemma PathAsymmetric(p: seq<int>, q: seq<int>)
    requires PathLess(p, q)
    ensures !PathAtMost(q, p)
  {
    if |p| == |q| { LexAsymmetric(p, q); }
  }

  lemma PathTransitive(p: seq<int>, q: seq<int>, r: seq<int>)
    requires PathAtMost(p, q) && PathAtMost(q, r)
    ensures PathAtMost(p, r)
    ensures PathLess(p, q) || PathLess(q, r) ==> PathLess(p, r)
  {
    if |p| == |q| == |r| && LexLess(p, q) && LexLess(q, r) { LexTransitive(p, q, r); }
  }

  /** Extending two paths by one node each keeps their order, whatever the new nodes are. */
  lemma PathExtend(p: seq<int>, q: seq<int>, a: int, b: int)
    requires PathLess(p, q)
    ensures PathLess(p + [a], q + [b])
  {
    if |p| == |q| {
      var i :| 0 <= i < |p| && FirstDifferenceLess(p, q, i);
      assert (p + [a])[..i] == p[..i] && (q + [b])[..i] == q[..i];
      assert FirstDifferenceLess(p + [a], q + [b], i);
    }
  }

  lemma PathExtendSame(p: seq<int>, a: int, b: int)
    requires a < b
    ensures PathLess(p + [a], p + [b])
  {
    assert (p + [a])[..|p|] == (p + [b])[..|p|];
    assert FirstDifferenceLess(p + [a], p + [b], |p|);
  }

  // ----- Strings -----

  /** Python's code-point order on strings. */
  predicate StrLess(a: string, b: string) {
    b != [] && (a == [] || a[0] < b[0] || (a[0] == b[0] && StrLess(a[1..], b[1..])))
  }

  lemma StrTotal(a: string, b: string)
    ensures a == b || StrLess(a, b) || StrLess(b, a)
  {
    if a != [] && b != [] && a[0] == b[0] {
      StrTotal(a[1..], b[1..]);
      assert a == [a[0]] + a[1..] && b == [b[0]] + b[1..];
    }
  }

  lemma StrAsymmetric(a: string, b: string)
    requires StrLess(a, b)
    ensures a != b && !StrLess(b, a)
  {
  }

  lemma StrTransitive(a: string, b: string, c: string)
    requires StrLess(a, b) && StrLess(b, c)
    ensures StrLess(a, c)
  {
  }

  /** The order of strings: the first difference decides, and a proper prefix comes first. */
  ghost predicate DiffersUp(a: string, b: string, k: int) {
    0 <= k <= |a| && k < |b| && a[..k] == b[..k] && (k < |a| ==> a[k] < b[k])
  }

  lemma SamePrefix(a: string, b: string, k: nat)
    requires k <= |a| && k <= |b| && a[..k] == b[..k]
    ensures k > 0 ==> a[0] == b[0]
  {
    if k > 0 { assert a[0] == a[..k][0] && b[0] == b[..k][0]; }
  }

  lemma {:induction false} StrLessMeaning(a: string, b: string)
    ensures StrLess(a, b) <==> exists k :: DiffersUp(a, b, k)
  {
    if a != [] && b != [] && a[0] == b[0] {
      StrLessMeaning(a[1..], b[1..]);
      assert a == [a[0]] + a[1..] && b == [b[0]] + b[1..];
      if k :| DiffersUp(a, b, k) {
        assert k > 0 && a[1..][..k - 1] == a[..k][1..] == b[..k][1..] == b[1..][..k - 1];
        assert DiffersUp(a[1..], b[1..], k - 1);
      }
      if k :| DiffersUp(a[1..], b[1..], k) {
        assert a[..k + 1] == [a[0]] + a[1..][..k] && b[..k + 1] == [b[0]] + b[1..][..k];
        assert DiffersUp(a, b, k + 1);
      }
    } else if b != [] {
      if StrLess(a, b) { assert DiffersUp(a, b, 0); }
      forall k | DiffersUp(a, b, k) ensures k == 0 { SamePrefix(a, b, k); }
    }
  }

  ghost predicate StrIncreasing(s: seq<string>) {
    forall i, j :: 0 <= i < j < |s| ==> StrLess(s[i], s[j])
  }

  predicate StrLeast(s: set<string>, m: string) {
    m in s && forall y :: y in s && y != m ==> StrLess(m, y)
  }

  lemma {:induction false} StrLeastExists(s: set<string>)
    requires s != {}
    ensures exists m :: StrLeast(s, m)
  {
    var x := Pick(s);
    if s == {x} {
      assert StrLeast(s, x);
    } else {
      StrLeastExists(s - {x});
      var m :| StrLeast(s - {x}, m);
      StrTotal(x, m);
      var least := if StrLess(x, m) then x else m;
      forall y | y in s && y != least ensures StrLess(least, y) {
        if y != x && y != m && StrLess(x, m) { StrTransitive(x, m, y); }
      }
      assert StrLeast(s, least);
    }
  }

  lemma StrLeastUnique(s: set<string>)
    ensures forall a, b :: StrLeast(s, a) && StrLeast(s, b) ==> a == b
  {
    forall a, b | StrLeast(s, a) && StrLeast(s, b) ensures a == b {
      if a != b { StrAsymmetric(a, b); }
    }
  }

  lemma StrListLeastFirst(m: string, rest: seq<string>, s: set<string>)
    requires StrLeast(s, m) && StrIncreasing(rest) && forall x :: x in rest <==> x in s - {m}
    ensures StrIncreasing([m] + rest) && forall x :: x in [m] + rest <==> x in s
  {
    assert forall i :: 0 <= i < |rest| ==> rest[i] in rest;
    assert forall x :: x in [m] + rest <==> x == m || x in rest;
  }

  /** The members of a set of strings in increasing order. */
  function SortedStrings(s: set<string>): (r: seq<string>)
    ensures StrIncreasing(r) && forall x :: x in r <==> x in s
  {
    if s == {} then [] else
      StrLeastExists(s);
      StrLeastUnique(s);
      var m :| m in s && StrLeast(s, m);
      StrListLeastFirst(m, SortedStrings(s - {m}), s);
      [m] + SortedStrings(s - {m})
  }

  /** The characters `str.strip` removes. */
  predicate IsSpace(c: char) {
    var n := c as int;
    9 <= n <= 13 || 28 <= n <= 32 || n == 0x85 || n == 0xA0 || n == 0x1680 || 0x2000 <= n <= 0x200A ||
    n == 0x2028 || n == 0x2029 || n == 0x202F || n == 0x205F || n == 0x3000
  }

  /** `not value.strip()` */
  predicate Blank(s: string) {
    forall i :: 0 <= i < |s| ==> IsSpace(s[i])
  }
}
