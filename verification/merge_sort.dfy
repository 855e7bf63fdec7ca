/** `mergeSort`, its recursive helper and `merge`, on a sequence value
    standing for the vector. Ranges are inclusive, `[first, last]`, as in the
    source. */
module MergeSort {
  import opened Seqs
  import opened Sorting

  /** Both runs `merge` combines are ascending. */
  ghost predicate Runs(v: seq<int>, first: int, mid: int, last: int) {
    SortedBetween(v, first, mid + 1) && SortedBetween(v, mid + 1, last + 1)
  }

  /** What the merge loops keep: the temporary's filled part `out` holds
      exactly the cells consumed from both runs, and, when the runs are
      ascending, it is ascending and no larger than either run's next cell. */
  ghost predicate Merging(v: seq<int>, first: int, mid: int, last: int, f1: int, f2: int, out: seq<int>) {
    0 <= first <= f1 <= mid + 1 <= f2 <= last + 1 <= |v| &&
    multiset(out) == multiset(v[first..f1]) + multiset(v[mid + 1..f2]) &&
    (Runs(v, first, mid, last) ==>
       Sorted(out) &&
       (|out| > 0 && f1 <= mid ==> out[|out| - 1] <= v[f1]) &&
       (|out| > 0 && f2 <= last ==> out[|out| - 1] <= v[f2]))
  }

  /** `r` is `v` except, perhaps, in `[first, last]`. */
  ghost predicate SameOutside(r: seq<int>, v: seq<int>, first: int, last: int) {
    |r| == |v| && forall k :: 0 <= k < |v| && (k < first || last < k) ==> r[k] == v[k]
  }

  /** `v` with `[first, last]` overwritten by `out`: the copy-back loop of
      `merge`. */
  function Splice(v: seq<int>, first: int, last: int, out: seq<int>): (r: seq<int>)
    requires 0 <= first <= last + 1 <= |v| && |out| == last + 1 - first
    ensures SameOutside(r, v, first, last) && r[first..last + 1] == out
  {
    v[..first] + out + v[last + 1..]
  }

  /** Appending a value no smaller than the last keeps a sequence ascending. */
  lemma SortedAppend(s: seq<int>, x: int)
    requires Sorted(s) && (|s| > 0 ==> s[|s| - 1] <= x)
    ensures Sorted(s + [x])
  {
  }

  /** The values of `s[i..k]` are those of `s[i..j]` and `s[j..k]`. */
  lemma SplitMultiset(s: seq<int>, i: int, j: int, k: int)
    requires 0 <= i <= j <= k <= |s|
    ensures multiset(s[i..k]) == multiset(s[i..j]) + multiset(s[j..k])
  {
    assert s[i..k] == s[i..j] + s[j..k];
  }

  /** Taking the first run's next cell, when it is no larger than the second
      run's. */
  lemma TakeFirst(v: seq<int>, first: int, mid: int, last: int, f1: int, f2: int, out: seq<int>)
    requires Merging(v, first, mid, last, f1, f2, out) && f1 <= mid
    requires f2 <= last ==> v[f1] <= v[f2]
    ensures Merging(v, first, mid, last, f1 + 1, f2, out + [v[f1]])
  {
    assert v[first..f1 + 1] == v[first..f1] + [v[f1]];
    if Runs(v, first, mid, last) {
      SortedAppend(out, v[f1]);
    }
  }

  /** Taking the second run's next cell, when it is smaller than the first
      run's. */
  lemma TakeSecond(v: seq<int>, first: int, mid: int, last: int, f1: int, f2: int, out: seq<int>)
    requires Merging(v, first, mid, last, f1, f2, out) && f2 <= last
    requires f1 <= mid ==> v[f2] < v[f1]
    ensures Merging(v, first, mid, last, f1, f2 + 1, out + [v[f2]])
  {
    assert v[mid + 1..f2 + 1] == v[mid + 1..f2] + [v[f2]];
    if Runs(v, first, mid, last) {
      SortedAppend(out, v[f2]);
    }
  }

  /** The first loop of `merge`: take the smaller next cell of the two runs
      (the first run's on a tie) until one run is used up. */
  method MergeLoop(v: seq<int>, first: int, mid: int, last: int) returns (f1: int, f2: int, out: seq<int>)
    requires 0 <= first <= mid <= last < |v|
    ensures Merging(v, first, mid, last, f1, f2, out) && (f1 == mid + 1 || f2 == last + 1)
  {
    f1, f2, out := first, mid + 1, [];
    while f1 <= mid && f2 <= last
      invariant Merging(v, first, mid, last, f1, f2, out)
      decreases last + mid - f1 - f2
    {
      if v[f1] <= v[f2] {
        TakeFirst(v, first, mid, last, f1, f2, out);
        out, f1 := out + [v[f1]], f1 + 1;
      } else {
        TakeSecond(v, first, mid, last, f1, f2, out);
        out, f2 := out + [v[f2]], f2 + 1;
      }
    }
  }

  /** The second loop of `merge`: copy what is left of the first run. */
  method DrainFirst(v: seq<int>, first: int, mid: int, last: int, f1: int, f2: int, out: seq<int>) returns (out': seq<int>)
    requires Merging(v, first, mid, last, f1, f2, out) && (f1 == mid + 1 || f2 == last + 1)
    ensures Merging(v, first, mid, last, mid + 1, f2, out')
  {
    var first1 := f1;
    out' := out;
    while first1 <= mid
      invariant Merging(v, first, mid, last, first1, f2, out') && (first1 <= mid ==> f2 == last + 1)
      decreases mid - first1
    {
      TakeFirst(v, first, mid, last, first1, f2, out');
      out', first1 := out' + [v[first1]], first1 + 1;
    }
  }

  /** The third loop of `merge`: copy what is left of the second run. */
  method DrainSecond(v: seq<int>, first: int, mid: int, last: int, f2: int, out: seq<int>) returns (out': seq<int>)
    requires Merging(v, first, mid, last, mid + 1, f2, out)
    ensures Merging(v, first, mid, last, mid + 1, last + 1, out')
  {
    var first2 := f2;
    out' := out;
    while first2 <= last
      invariant Merging(v, first, mid, last, mid + 1, first2, out')
      decreases last - first2
    {
      TakeSecond(v, first, mid, last, mid + 1, first2, out');
      out', first2 := out' + [v[first2]], first2 + 1;
    }
  }

  /** `merge`: the runs `[first, mid]` and `[mid + 1, last]` merged into a
      temporary (ties go to the first run) and copied back; nothing outside
      `[first, last]` changes. */
  method Merge(v: seq<int>, first: int, mid: int, last: int) returns (r: seq<int>)
    requires 0 <= first <= mid <= last < |v|
    ensures SameOutside(r, v, first, last)
    ensures multiset(r[first..last + 1]) == multiset(v[first..last + 1])
    ensures Runs(v, first, mid, last) ==> SortedBetween(r, first, last + 1)
  {
    var f1, f2, part := MergeLoop(v, first, mid, last);
    var rest := DrainFirst(v, first, mid, last, f1, f2, part);
    var out := DrainSecond(v, first, mid, last, f2, rest);
    MergedAll(v, first, mid, last, out);
    r := Splice(v, first, last, out);
    if Runs(v, first, mid, last) {
      SortedPlaced(r, out, first, last);
    }
  }

  /** Once both runs are used up, the temporary holds exactly the range's
      values, ascending when the runs were. */
  lemma MergedAll(v: seq<int>, first: int, mid: int, last: int, out: seq<int>)
    requires Merging(v, first, mid, last, mid + 1, last + 1, out)
    ensures |out| == last + 1 - first && multiset(out) == multiset(v[first..last + 1])
    ensures Runs(v, first, mid, last) ==> Sorted(out)
  {
    SplitMultiset(v, first, mid + 1, last + 1);
    assert |out| == |multiset(out)| == |multiset(v[first..last + 1])|;
  }

  /** An ascending sequence copied into `[first, last]` makes that range
      ascending. */
  lemma SortedPlaced(r: seq<int>, out: seq<int>, first: int, last: int)
    requires 0 <= first <= last + 1 <= |r| && r[first..last + 1] == out && Sorted(out)
    ensures SortedBetween(r, first, last + 1)
  {
    forall a, b | first <= a < b < last + 1
      ensures r[a] <= r[b]
    {
      assert r[a] == out[a - first] && r[b] == out[b - first];
    }
  }

  /** `mergeSortHelper`: sorts `[first, last]`, reporting whether it held
      more than one cell; nothing outside the range changes. */
  method MergeSortHelper(v: seq<int>, first: int, last: int) returns (ok: bool, r: seq<int>)
    requires 0 <= first <= last + 1 <= |v|
    ensures ok <==> first < last
    ensures SameOutside(r, v, first, last)
    ensures multiset(r[first..last + 1]) == multiset(v[first..last + 1])
    ensures SortedBetween(r, first, last + 1)
    decreases last - first
  {
    if first < last {
      var mid := (first + last) / 2;
      var _, r1 := MergeSortHelper(v, first, mid);
      var _, r2 := MergeSortHelper(r1, mid + 1, last);
      RightKeepsLeft(v, r1, r2, first, mid, last);
      r := Merge(r2, first, mid, last);
      ok := true;
    } else {
      ok, r := false, v;
    }
  }

  /** After both recursive calls: the left run is still the sorted left run,
      the right run is sorted, and the range holds the original values. */
  lemma RightKeepsLeft(v: seq<int>, r1: seq<int>, r2: seq<int>, first: int, mid: int, last: int)
    requires 0 <= first <= mid < last < |v|
    requires SameOutside(r1, v, first, mid) && SortedBetween(r1, first, mid + 1)
    requires multiset(r1[first..mid + 1]) == multiset(v[first..mid + 1])
    requires SameOutside(r2, r1, mid + 1, last) && SortedBetween(r2, mid + 1, last + 1)
    requires multiset(r2[mid + 1..last + 1]) == multiset(r1[mid + 1..last + 1])
    ensures Runs(r2, first, mid, last) && SameOutside(r2, v, first, last)
    ensures multiset(r2[first..last + 1]) == multiset(v[first..last + 1])
  {
    SameSlice(r2, r1, first, mid + 1);
    SameSlice(r1, v, mid + 1, last + 1);
    SplitMultiset(r2, first, mid + 1, last + 1);
    SplitMultiset(v, first, mid + 1, last + 1);
  }

  /** Sequences agreeing cell by cell on `[lo, hi)` have equal slices there. */
  lemma SameSlice(a: seq<int>, b: seq<int>, lo: int, hi: int)
    requires 0 <= lo <= hi <= |a| == |b| && forall k :: lo <= k < hi ==> a[k] == b[k]
    ensures a[lo..hi] == b[lo..hi]
  {
  }

  /** `mergeSort`: false and no change on an empty vector; otherwise the
      vector sorted, with the helper's flag, which is false for a single
      cell. */
  method MergeSort(v: seq<int>) returns (ok: bool, r: seq<int>)
    ensures ok <==> |v| > 1
    ensures |v| == 0 ==> r == v
    ensures Sorted(r) && multiset(r) == multiset(v)
  {
    if |v| < 1 {
      return false, v;
    }
    ok, r := MergeSortHelper(v, 0, |v| - 1);
    assert r[0..|v|] == r && v[0..|v|] == v;
    assert SortedBetween(r, 0, |r|);
  }
}
