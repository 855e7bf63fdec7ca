/** The row and column operations on the 3 x 3 matrix of the repository's
    unit tests; each whole result is pinned down, not only the cells the
    tests look at. */
module MatrixExamples {
  import opened Matrix

  /** A three-cell row is fixed by its cells. */
  lemma Row(r: seq<int>, x: int, y: int, z: int)
    requires |r| == 3 && r[0] == x && r[1] == y && r[2] == z
    ensures r == [x, y, z]
  {
  }

  method SwapRowSample() returns (res: seq<seq<int>>)
    ensures res == [[4, 5, 6], [1, 2, 3], [7, 8, 9]]
  {
    var mat := [[1, 2, 3], [4, 5, 6], [7, 8, 9]];
    res := SwapMatrixRow(mat, 0, 1);
    Row(res[0], 4, 5, 6);
    assert res[1] == [1, 2, 3] && res[2] == mat[2];
  }

  method SwapColumnSample() returns (res: seq<seq<int>>)
    ensures res == [[3, 2, 1], [6, 5, 4], [9, 8, 7]]
  {
    var mat := [[1, 2, 3], [4, 5, 6], [7, 8, 9]];
    res := SwapMatrixColumn(mat, 0, 2);
    Row(res[0], 3, 2, 1);
    Row(res[1], 6, 5, 4);
    Row(res[2], 9, 8, 7);
  }

  method ReverseRowSample() returns (res: seq<seq<int>>)
    ensures res == [[1, 2, 3], [6, 5, 4], [7, 8, 9]]
  {
    var mat := [[1, 2, 3], [4, 5, 6], [7, 8, 9]];
    res := ReverseMatrixRow(mat, 1);
    Row(res[1], 6, 5, 4);
    assert res[0] == mat[0] && res[2] == mat[2];
  }

  method ReverseColumnSample() returns (res: seq<seq<int>>)
    ensures res == [[1, 8, 3], [4, 5, 6], [7, 2, 9]]
  {
    var mat := [[1, 2, 3], [4, 5, 6], [7, 8, 9]];
    res := ReverseMatrixColumn(mat, 1);
    Row(res[0], 1, 8, 3);
    Row(res[1], 4, 5, 6);
    Row(res[2], 7, 2, 9);
  }
}
