/** The in-place comparison sorts `selectionSort` and `bubbleSort`, on a
    sequence value standing for the vector: each method returns the flag the
    source returns and the vector's final contents. */
module Sorting {
  import opened Seqs

  /** `std::swap` of two cells. */
  function Swap(s: seq<int>, i: int, j: int): (r: seq<int>)
    requires 0 <= i < |s| && 0 <= j < |s|
    ensures |r| == |s| && r[i] == s[j] && r[j] == s[i]
    ensures forall k :: 0 <= k < |s| && k != i && k != j ==> r[k] == s[k]
    ensures multiset(r) == multiset(s)
  {
    s[i := s[j]][j := s[i]]
  }

  /** Cells `[lo, hi)` are in ascending order. */
  ghost predicate SortedBetween(s: seq<int>, lo: int, hi: int) {
    forall a, b :: lo <= a < b < hi && 0 <= a && b < |s| ==> s[a] <= s[b]
  }

  /** No cell before `m` is larger than a cell from `m` on. */
  ghost predicate Partitioned(s: seq<int>, m: int) {
    forall a, b :: 0 <= a < m <= b < |s| ==> s[a] <= s[b]
  }

  /** Two ascending sequences holding the same values are equal: a sort has
      only one correct answer, so the sorts here all agree. */
  lemma {:induction false} SortedUnique(a: seq<int>, b: seq<int>)
    requires Sorted(a) && Sorted(b) && multiset(a) == multiset(b)
    ensures a == b
    decreases |a|
  {
    assert |a| == |multiset(a)| == |b|;
    if |a| > 0 {
      SameLeast(a, b);
      Behead(a);
      Behead(b);
      SortedUnique(a[1..], b[1..]);
      assert a == [a[0]] + a[1..] && b == [b[0]] + b[1..];
    }
  }

  /** Ascending sequences with the same values start with the same value,
      their least. */
  lemma SameLeast(a: seq<int>, b: seq<int>)
    requires Sorted(a) && Sorted(b) && multiset(a) == multiset(b) && |a| > 0 && |b| > 0
    ensures a[0] == b[0]
  {
    assert a[0] in multiset(b) && b[0] in multiset(a);
    var i :| 0 <= i < |b| && b[i] == a[0];
    var j :| 0 <= j < |a| && a[j] == b[0];
    assert a[0] <= a[j] && b[0] <= b[i];
  }

  /** Dropping the first value of an ascending sequence. */
  lemma Behead(a: seq<int>)
    requires Sorted(a) && |a| > 0
    ensures Sorted(a[1..]) && multiset(a[1..]) == multiset(a) - multiset{a[0]}
  {
    assert a == [a[0]] + a[1..];
    assert multiset(a) == multiset{a[0]} + multiset(a[1..]);
  }

  /** On repeat-free values the same holds with only the values compared as
      sets: `a`, ascending and holding the values of `v`, is the ascending
      repeat-free `b` with those same values. */
  lemma SortedOnValues(a: seq<int>, v: seq<int>, b: seq<int>)
    requires Sorted(a) && multiset(a) == multiset(v)
    requires Increasing(b) && |v| == |b| && forall x :: x in v <==> x in b
    ensures a == b
  {
    assert |a| == |multiset(a)| == |v|;
    forall x
      ensures x in a <==> x in b
    {
      assert x in a <==> x in multiset(a);
      assert x in v <==> x in multiset(v);
    }
    assert Elems(a) == Elems(b);
    IncreasingSorted(b);
    DistinctCard(b);
    CardDistinct(a);
    StrictUnique(a, b);
  }

  /** Each cell is smaller than the next. */
  predicate Increasing(s: seq<int>) {
    forall i :: 0 <= i < |s| - 1 ==> s[i] < s[i + 1]
  }

  /** A strictly ascending sequence is ascending and repeats no value. */
  lemma {:induction false} IncreasingSorted(s: seq<int>)
    requires Increasing(s)
    ensures Sorted(s) && Distinct(s) && forall a, b :: 0 <= a < b < |s| ==> s[a] < s[b]
  {
    if |s| > 1 {
      IncreasingSorted(s[1..]);
      forall a, b | 0 <= a < b < |s|
        ensures s[a] < s[b]
      {
        if 0 < a {
          assert s[a] == s[1..][a - 1] && s[b] == s[1..][b - 1];
        } else if 1 < b {
          assert s[1] == s[1..][0] && s[b] == s[1..][b - 1];
        }
      }
    }
  }

  /** Two strictly ascending sequences with the same values are equal. */
  lemma {:induction false} StrictUnique(a: seq<int>, b: seq<int>)
    requires Sorted(a) && Sorted(b) && Distinct(a) && Distinct(b)
    requires forall x :: x in a <==> x in b
    ensures a == b
    decreases |a|
  {
    assert |a| == 0 <==> |b| == 0 by {
      if |a| > 0 {
        assert a[0] in a;
      }
      if |b| > 0 {
        assert b[0] in b;
      }
    }
    if |a| > 0 {
      assert a[0] in b && b[0] in a;
      var i :| 0 <= i < |b| && b[i] == a[0];
      var j :| 0 <= j < |a| && a[j] == b[0];
      assert a[0] <= a[j] && b[0] <= b[i];
      forall x
        ensures x in a[1..] <==> x in b[1..]
      {
        TailValues(a, x);
        TailValues(b, x);
      }
      StrictUnique(a[1..], b[1..]);
      assert a == [a[0]] + a[1..] && b == [b[0]] + b[1..];
    }
  }

  /** The tail of a repeat-free sequence holds its values other than the
      first. */
  lemma TailValues(a: seq<int>, x: int)
    requires Distinct(a) && |a| > 0
    ensures x in a[1..] <==> x in a && x != a[0]
  {
    assert a == [a[0]] + a[1..];
    if x in a[1..] {
      var k :| 0 <= k < |a[1..]| && a[1..][k] == x;
      assert a[k + 1] == x;
    }
  }

  // ---------------------------------------------------------------------
  // selectionSort

  /** The inner loop of `selectionSort`: the first largest cell of
      `[0, i]`. */
  method Largest(v: seq<int>, i: int) returns (largest: int)
    requires 0 <= i < |v|
    ensures 0 <= largest <= i
    ensures forall k :: 0 <= k <= i ==> v[k] <= v[largest]
    ensures forall k :: 0 <= k < largest ==> v[k] < v[largest]
  {
    largest := 0;
    var j := 1;
    while j <= i
      invariant 1 <= j <= i + 1 && 0 <= largest < j
      invariant forall k :: 0 <= k < j ==> v[k] <= v[largest]
      invariant forall k :: 0 <= k < largest ==> v[k] < v[largest]
    {
      if v[j] > v[largest] {
        largest := j;
      }
      j := j + 1;
    }
  }

  /** `selectionSort`: false and no change on an empty vector; otherwise
      true, with the vector sorted. */
  method SelectionSort(v: seq<int>) returns (ok: bool, r: seq<int>)
    ensures ok <==> |v| > 0
    ensures !ok ==> r == v
    ensures Sorted(r) && multiset(r) == multiset(v)
  {
    if |v| < 1 {
      return false, v;
    }
    r := v;
    var i := |r| - 1;
    while i > 0
      invariant 0 <= i < |r| && multiset(r) == multiset(v)
      invariant SortedBetween(r, i + 1, |r|) && Partitioned(r, i + 1)
    {
      var largest := Largest(r, i);
      r := Swap(r, largest, i);
      i := i - 1;
    }
    ok := true;
  }

  // ---------------------------------------------------------------------
  // bubbleSort

  /** A sorted tail after `m`, preceded by a largest cell at `m`, gives a
      sorted tail from `m`. */
  lemma GrowTail(s: seq<int>, m: int)
    requires 0 <= m < |s| && SortedBetween(s, m + 1, |s|) && Partitioned(s, m + 1)
    requires forall k :: 0 <= k <= m ==> s[k] <= s[m]
    ensures SortedBetween(s, m, |s|) && Partitioned(s, m)
  {
  }

  /** A sorted head up to `m` and a sorted tail after it, split by
      `Partitioned`, make the whole sequence sorted. */
  lemma JoinSorted(s: seq<int>, m: int)
    requires 0 <= m <= |s| && SortedBetween(s, 0, m) && SortedBetween(s, m, |s|) && Partitioned(s, m)
    ensures Sorted(s)
  {
  }

  /** One pass of `bubbleSort` over `[0, e]`: adjacent cells out of order are
      swapped, and `swapped` reports whether any were. The largest cell of
      `[0, e]` ends at `e`; with no swap, `[0, e]` was already sorted. */
  method BubblePass(v: seq<int>, e: int) returns (r: seq<int>, swapped: bool)
    requires 0 <= e < |v| && SortedBetween(v, e + 1, |v|) && Partitioned(v, e + 1)
    ensures |r| == |v| && multiset(r) == multiset(v)
    ensures SortedBetween(r, e, |r|) && Partitioned(r, e)
    ensures !swapped ==> Sorted(r)
  {
    r := v;
    swapped := false;
    var i := 0;
    while i < e
      invariant 0 <= i <= e && |r| == |v| && multiset(r) == multiset(v)
      invariant forall k :: e < k < |v| ==> r[k] == v[k]
      invariant Partitioned(r, e + 1)
      invariant forall k :: 0 <= k <= i ==> r[k] <= r[i]
      invariant !swapped ==> SortedBetween(r, 0, i + 1)
    {
      var next := i + 1;
      if r[i] > r[next] {
        r := Swap(r, i, next);
        swapped := true;
      }
      i := i + 1;
    }
    assert SortedBetween(r, e + 1, |r|);
    GrowTail(r, e);
    if !swapped {
      JoinSorted(r, e + 1);
    }
  }

  /** `bubbleSort`: false and no change on an empty vector; otherwise true,
      with the vector sorted. Passes stop early once one swaps nothing. */
  method BubbleSort(v: seq<int>) returns (ok: bool, r: seq<int>)
    ensures ok <==> |v| > 0
    ensures !ok ==> r == v
    ensures Sorted(r) && multiset(r) == multiset(v)
  {
    if |v| < 1 {
      return false, v;
    }
    r := v;
    var sorted := false;
    var pass := 1;
    while !sorted && pass < |r|
      invariant 1 <= pass <= |r| && |r| == |v| && multiset(r) == multiset(v)
      invariant SortedBetween(r, |r| - pass + 1, |r|) && Partitioned(r, |r| - pass + 1)
      invariant sorted ==> Sorted(r)
      decreases |r| - pass, if sorted then 0 else 1
    {
      var r', swapped := BubblePass(r, |r| - pass);
      r := r';
      sorted := !swapped;
      pass := pass + 1;
    }
    if !sorted {
      JoinSorted(r, 1);
    }
    ok := true;
  }
}
