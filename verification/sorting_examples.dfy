/** The sorts run on the vectors of the repository's unit tests: as a sort has
    one correct answer (`SortedOnValues`), each result is the listed one. */
module SortingExamples {
  import opened Seqs
  import opened Sorting
  import opened MergeSort

  method SelectionSample() returns (ok: bool, r: seq<int>)
    ensures ok && r == [11, 12, 22, 25, 64]
  {
    var v := [64, 25, 12, 22, 11];
    ok, r := SelectionSort(v);
    SortedOnValues(r, v, [11, 12, 22, 25, 64]);
  }

  method BubbleSample() returns (ok: bool, r: seq<int>)
    ensures ok && r == [11, 12, 22, 25, 34, 64, 90]
  {
    var v := [64, 34, 25, 12, 22, 11, 90];
    ok, r := BubbleSort(v);
    SortedOnValues(r, v, [11, 12, 22, 25, 34, 64, 90]);
  }

  method MergeSample() returns (ok: bool, r: seq<int>)
    ensures ok && r == [3, 9, 10, 27, 38, 43, 82]
  {
    var v := [38, 27, 43, 3, 9, 82, 10];
    ok, r := MergeSort.MergeSort(v);
    SortedOnValues(r, v, [3, 9, 10, 27, 38, 43, 82]);
  }

  /** A single cell: the selection and bubble sorts report true, merge sort
      false, and the cell stays. */
  method SingleSample() returns (s: bool, b: bool, m: bool, rs: seq<int>, rb: seq<int>, rm: seq<int>)
    ensures s && b && !m && rs == rb == rm == [5]
  {
    s, rs := SelectionSort([5]);
    b, rb := BubbleSort([5]);
    m, rm := MergeSort.MergeSort([5]);
    SortedOnValues(rs, [5], [5]);
    SortedOnValues(rb, [5], [5]);
    SortedOnValues(rm, [5], [5]);
  }
}
