/** The median pandas' `Series.median()` returns for the non-missing values of
    a column: sort them, take the middle value, or the mean of the two middle
    values when the count is even. */
module Medians {

  predicate Sorted(s: seq<real>)
  {
    forall i, j :: 0 <= i < j < |s| ==> s[i] <= s[j]
  }

  function Insert(x: real, s: seq<real>): (r: seq<real>)
    requires Sorted(s)
    ensures |r| == |s| + 1 && Sorted(r)
    ensures multiset(r) == multiset(s) + multiset{x}
    ensures forall y :: y in r ==> y == x || y in s
  {
    if s == [] then [x]
    else if x <= s[0] then
      SortedCons(x, s);
      [x] + s
    else
      assert s == [s[0]] + s[1..];
      var rest := Insert(x, s[1..]);
      assert forall j :: 0 <= j < |rest| ==> s[0] <= rest[j] by {
        forall j | 0 <= j < |rest| ensures s[0] <= rest[j] {
          assert rest[j] in rest;
          if rest[j] != x {
            assert rest[j] in s[1..];
          }
        }
      }
      SortedCons(s[0], rest);
      assert forall y :: y in [s[0]] + rest ==> y == s[0] || y in rest;
      [s[0]] + rest
  }

  /** A value at most every element of sorted values can go in front. */
  lemma SortedCons(a: real, rest: seq<real>)
    requires Sorted(rest) && forall j :: 0 <= j < |rest| ==> a <= rest[j]
    ensures Sorted([a] + rest)
  {
    var r := [a] + rest;
    forall i, j | 0 <= i < j < |r| ensures r[i] <= r[j] {
      assert r[j] == rest[j - 1];
      if i > 0 {
        assert r[i] == rest[i - 1];
      }
    }
  }

  /** The values in ascending order. */
  function Sort(s: seq<real>): (r: seq<real>)
    ensures |r| == |s| && Sorted(r) && multiset(r) == multiset(s)
  {
    if s == [] then []
    else
      assert s == [s[0]] + s[1..];
      Insert(s[0], Sort(s[1..]))
  }

  function Median(s: seq<real>): real
    requires |s| > 0
  {
    Middle(Sort(s))
  }

  /** The middle of sorted values: the middle one, or the mean of the two
      middle ones when their count is even. */
  function Middle(r: seq<real>): real
    requires |r| > 0
  {
    var n := |r|;
    if n % 2 == 1 then r[n / 2] else (r[n / 2 - 1] + r[n / 2]) / 2.0
  }

  // ---------------------------------------------------------------------
  // Counting the values on either side of a threshold

  /** `x <= m` when `below`, `x >= m` otherwise. */
  predicate Side(x: real, m: real, below: bool)
  {
    if below then x <= m else x >= m
  }

  /** How many of the values lie on the given side of `m`. */
  function Count(s: seq<real>, m: real, below: bool): (r: nat)
    ensures r <= |s|
  {
    if s == [] then 0
    else (if Side(s[0], m, below) then 1 else 0) + Count(s[1..], m, below)
  }

  lemma {:induction false} CountConcat(a: seq<real>, b: seq<real>, m: real, below: bool)
    ensures Count(a + b, m, below) == Count(a, m, below) + Count(b, m, below)
  {
    if a != [] {
      assert (a + b)[0] == a[0] && (a + b)[1..] == a[1..] + b;
      CountConcat(a[1..], b, m, below);
    } else {
      assert a + b == b;
    }
  }

  /** Reordering the values does not change how many lie on a side. */
  lemma {:induction false} CountPermutation(s: seq<real>, r: seq<real>, m: real, below: bool)
    requires multiset(s) == multiset(r)
    ensures Count(s, m, below) == Count(r, m, below)
    decreases |s|
  {
    if s == [] {
      assert |multiset(r)| == 0;
    } else {
      var x := s[0];
      assert s == [x] + s[1..];
      assert multiset(s) == multiset{x} + multiset(s[1..]);
      assert x in multiset(r);
      var j :| 0 <= j < |r| && r[j] == x;
      var rest := r[..j] + r[j + 1..];
      MultisetRemoveAt(r, j);
      CountRemoveAt(r, j, m, below);
      CountPermutation(s[1..], rest, m, below);
    }
  }

  /** Taking out the element at j takes one copy of it out of the multiset. */
  lemma MultisetRemoveAt(r: seq<real>, j: nat)
    requires j < |r|
    ensures multiset(r[..j] + r[j + 1..]) == multiset(r) - multiset{r[j]}
  {
    assert r == r[..j] + [r[j]] + r[j + 1..];
    assert multiset(r) == multiset(r[..j]) + multiset{r[j]} + multiset(r[j + 1..]);
  }

  /** Taking out the element at j takes it out of the count when it is on the side. */
  lemma CountRemoveAt(r: seq<real>, j: nat, m: real, below: bool)
    requires j < |r|
    ensures Count(r, m, below) == Count(r[..j] + r[j + 1..], m, below) + (if Side(r[j], m, below) then 1 else 0)
  {
    assert r == r[..j] + [r[j]] + r[j + 1..];
    assert [r[j]][1..] == [];
    CountConcat(r[..j] + [r[j]], r[j + 1..], m, below);
    CountConcat(r[..j], [r[j]], m, below);
    CountConcat(r[..j], r[j + 1..], m, below);
  }

  /** When every value lies on the side, all of them are counted. */
  lemma {:induction false} CountAll(s: seq<real>, m: real, below: bool)
    requires forall i :: 0 <= i < |s| ==> Side(s[i], m, below)
    ensures Count(s, m, below) == |s|
  {
    if s != [] {
      CountAll(s[1..], m, below);
    }
  }

  /** In sorted values, an element at most `m` has all its predecessors at most `m`. */
  lemma SortedCountBelow(r: seq<real>, k: nat, m: real)
    requires Sorted(r) && k < |r| && r[k] <= m
    ensures Count(r, m, true) >= k + 1
  {
    assert r == r[..k + 1] + r[k + 1..];
    CountConcat(r[..k + 1], r[k + 1..], m, true);
    CountAll(r[..k + 1], m, true);
  }

  /** In sorted values, an element at least `m` has all its successors at least `m`. */
  lemma SortedCountAbove(r: seq<real>, k: nat, m: real)
    requires Sorted(r) && k < |r| && r[k] >= m
    ensures Count(r, m, false) >= |r| - k
  {
    assert r == r[..k] + r[k..];
    CountConcat(r[..k], r[k..], m, false);
    CountAll(r[k..], m, false);
  }

  /** The defining property of a median: at least half of the values are at
      most the median, and at least half are at least the median. */
  lemma MedianSplitsInHalf(s: seq<real>)
    requires |s| > 0
    ensures 2 * Count(s, Median(s), true) >= |s|
    ensures 2 * Count(s, Median(s), false) >= |s|
  {
    var r := Sort(s);
    var n := |r|;
    var m := Median(s);
    CountPermutation(s, r, m, true);
    CountPermutation(s, r, m, false);
    if n % 2 == 1 {
      assert m == r[n / 2];
      SortedCountBelow(r, n / 2, m);
      SortedCountAbove(r, n / 2, m);
    } else {
      var lo, hi := r[n / 2 - 1], r[n / 2];
      assert m == (lo + hi) / 2.0;
      assert lo <= hi;
      assert lo <= m <= hi;
      SortedCountBelow(r, n / 2 - 1, m);
      SortedCountAbove(r, n / 2, m);
    }
  }

  /** The median lies between the smallest and the largest value. */
  lemma MedianWithinRange(s: seq<real>)
    requires |s| > 0
    ensures exists i :: 0 <= i < |s| && s[i] <= Median(s)
    ensures exists j :: 0 <= j < |s| && s[j] >= Median(s)
  {
    MedianSplitsInHalf(s);
    CountWitness(s, Median(s), true);
    CountWitness(s, Median(s), false);
  }

  lemma {:induction false} CountWitness(s: seq<real>, m: real, below: bool)
    requires Count(s, m, below) > 0
    ensures exists i :: 0 <= i < |s| && Side(s[i], m, below)
  {
    if !Side(s[0], m, below) {
      CountWitness(s[1..], m, below);
      var i :| 0 <= i < |s[1..]| && Side(s[1..][i], m, below);
      assert Side(s[i + 1], m, below);
    }
  }

  /** Sorted values are determined by their multiset. */
  lemma {:induction false} SortedUnique(a: seq<real>, b: seq<real>)
    requires Sorted(a) && Sorted(b) && multiset(a) == multiset(b)
    ensures a == b
    decreases |a|
  {
    assert |a| == |multiset(a)| == |multiset(b)| == |b|;
    if a != [] {
      SortedHeadLeast(a, b[0]);
      SortedHeadLeast(b, a[0]);
      SortedTail(a);
      SortedTail(b);
      SortedUnique(a[1..], b[1..]);
      SameHeadAndTail(a, b);
    }
  }

  lemma SameHeadAndTail(a: seq<real>, b: seq<real>)
    requires a != [] && b != [] && a[0] == b[0] && a[1..] == b[1..]
    ensures a == b
  {
    assert a == [a[0]] + a[1..] && b == [b[0]] + b[1..];
  }

  /** The first of sorted values is at most any of them. */
  lemma SortedHeadLeast(a: seq<real>, x: real)
    requires Sorted(a) && x in multiset(a)
    ensures a[0] <= x
  {
    var i :| 0 <= i < |a| && a[i] == x;
  }

  /** Dropping the first of sorted values keeps them sorted and removes one copy of it. */
  lemma SortedTail(a: seq<real>)
    requires Sorted(a) && a != []
    ensures Sorted(a[1..]) && multiset(a[1..]) == multiset(a) - multiset{a[0]}
  {
    assert a == [a[0]] + a[1..];
  }

  /** The median depends only on which values occur and how often, not on
      their order. */
  lemma MedianPermutation(a: seq<real>, b: seq<real>)
    requires |a| > 0 && multiset(a) == multiset(b)
    ensures |b| > 0 && Median(a) == Median(b)
  {
    assert |a| == |multiset(a)| == |multiset(b)| == |b|;
    var ra, rb := Sort(a), Sort(b);
    SortedUnique(ra, rb);
    assert ra == rb;
  }

  /** The median of 1 and 3 is 2. */
  lemma MedianExample()
    ensures Median([1.0, 3.0]) == 2.0
  {
    assert [1.0, 3.0][1..] == [3.0];
    assert Sort([3.0]) == Insert(3.0, []) == [3.0];
    assert Sort([1.0, 3.0]) == Insert(1.0, [3.0]) == [1.0, 3.0];
  }
}
