/** Matrices as sequences of rows: clockwise rotation, and swapping or reversing
    one row or one column in place. */
module Matrix {
  import opened Seqs

  /** Every row has at least `w` entries. */
  predicate RowsAtLeast<T>(mat: seq<seq<T>>, w: nat) {
    forall i :: 0 <= i < |mat| ==> |mat[i]| >= w
  }

  /** Every row has exactly `w` entries. */
  predicate RowsExactly<T>(mat: seq<seq<T>>, w: nat) {
    forall i :: 0 <= i < |mat| ==> |mat[i]| == w
  }

  /** Every row has an entry at column `c`. */
  predicate HasColumn(mat: seq<seq<int>>, c: int) {
    0 <= c && forall i :: 0 <= i < |mat| ==> c < |mat[i]|
  }

  // ---------------------------------------------------------------------
  // Rotation

  /** The clockwise rotation of the `N x M` matrix read from the first `M`
      entries of each row: row `j` of the result is column `j` read bottom-up. */
  function Rotated(mat: seq<seq<char>>): seq<seq<char>>
    requires |mat| > 0 && RowsAtLeast(mat, |mat[0]|)
  {
    var n, m := |mat|, |mat[0]|;
    seq(m, j requires 0 <= j < m => seq(n, c requires 0 <= c < n => mat[n - 1 - c][j]))
  }

  /** `algo::rotateMatrixClockwise`. */
  method RotateMatrixClockwise(mat: seq<seq<char>>) returns (out: seq<seq<char>>)
    requires |mat| > 0 && RowsAtLeast(mat, |mat[0]|)
    ensures |out| == |mat[0]| && RowsExactly(out, |mat|)
    ensures forall i, j :: 0 <= i < |mat| && 0 <= j < |mat[0]| ==> out[j][|mat| - 1 - i] == mat[i][j]
    ensures out == Rotated(mat)
  {
    var n, m := |mat|, |mat[0]|;
    out := seq(m, _ => seq(n, _ => '\0'));
    for i := 0 to n
      invariant |out| == m && RowsExactly(out, n)
      invariant forall i', j :: 0 <= i' < i && 0 <= j < m ==> out[j][n - 1 - i'] == mat[i'][j]
    {
      for j := 0 to m
        invariant |out| == m && RowsExactly(out, n)
        invariant forall i', j' :: 0 <= i' < i && 0 <= j' < m ==> out[j'][n - 1 - i'] == mat[i'][j']
        invariant forall j' :: 0 <= j' < j ==> out[j'][n - 1 - i] == mat[i][j']
      {
        out := out[j := out[j][n - 1 - i := mat[i][j]]];
      }
    }
    forall j | 0 <= j < m
      ensures out[j] == Rotated(mat)[j]
    {
      forall c | 0 <= c < n
        ensures out[j][c] == mat[n - 1 - c][j]
      {
        assert out[j][n - 1 - (n - 1 - c)] == mat[n - 1 - c][j];
      }
    }
  }

  /** Four quarter turns of a rectangular matrix give it back. */
  lemma RotateFourTimes(mat: seq<seq<char>>)
    requires |mat| > 0 && |mat[0]| > 0 && RowsExactly(mat, |mat[0]|)
    ensures Rotated(Rotated(Rotated(Rotated(mat)))) == mat
  {
    var n, m := |mat|, |mat[0]|;
    var r1 := Rotated(mat);
    var r2 := Rotated(r1);
    var r3 := Rotated(r2);
    var r4 := Rotated(r3);
    assert forall a, b :: 0 <= a < n && 0 <= b < m ==> r2[a][b] == mat[n - 1 - a][m - 1 - b];
    assert forall a, b :: 0 <= a < m && 0 <= b < n ==> r3[a][b] == mat[b][m - 1 - a];
    assert |r4| == n;
    forall a | 0 <= a < n
      ensures r4[a] == mat[a]
    {
      assert forall b :: 0 <= b < m ==> r4[a][b] == r3[m - 1 - b][a];
    }
  }

  /** The example of the test suite: a 3 x 3 digit grid turned clockwise. */
  lemma RotateDigits()
    ensures Rotated(["123", "456", "789"]) == ["741", "852", "963"]
  {
    var r := Rotated(["123", "456", "789"]);
    assert r[0] == "741" && r[1] == "852" && r[2] == "963";
  }

  // ---------------------------------------------------------------------
  // Rows

  /** Row `r1` takes the first `M` entries of row `r2` (keeping its own tail), and
      row `r2` becomes a copy of the first `M` entries of row `r1`, where `M` is
      the length of row 0. */
  function SwappedRows(mat: seq<seq<int>>, r1: int, r2: int): seq<seq<int>>
    requires |mat| > 0 && 0 <= r1 < |mat| && 0 <= r2 < |mat|
    requires |mat[r1]| >= |mat[0]| && |mat[r2]| >= |mat[0]|
  {
    var m := |mat[0]|;
    mat[r1 := mat[r2][..m] + mat[r1][m..]][r2 := mat[r1][..m]]
  }

  /** `algo::swapMatrixRow`. */
  method SwapMatrixRow(mat: seq<seq<int>>, r1: int, r2: int) returns (res: seq<seq<int>>)
    requires |mat| > 0 && 0 <= r1 < |mat| && 0 <= r2 < |mat|
    requires |mat[r1]| >= |mat[0]| && |mat[r2]| >= |mat[0]|
    ensures |res| == |mat|
    ensures res[r2] == mat[r1][..|mat[0]|]
    ensures r1 != r2 ==>
      |res[r1]| == |mat[r1]| &&
      (forall k :: 0 <= k < |mat[0]| ==> res[r1][k] == mat[r2][k]) &&
      (forall k :: |mat[0]| <= k < |mat[r1]| ==> res[r1][k] == mat[r1][k])
    ensures forall r :: 0 <= r < |mat| && r != r1 && r != r2 ==> res[r] == mat[r]
    ensures res == SwappedRows(mat, r1, r2)
  {
    var m := |mat[0]|;
    var tmp := seq(m, _ => 0);
    for i := 0 to m
      invariant |tmp| == m
      invariant forall k :: 0 <= k < i ==> tmp[k] == mat[r1][k]
    {
      tmp := tmp[i := mat[r1][i]];
    }
    res := mat;
    for i := 0 to m
      invariant |res| == |mat| && |res[r1]| == |mat[r1]|
      invariant forall k :: 0 <= k < i ==> res[r1][k] == mat[r2][k]
      invariant forall k :: i <= k < |mat[r1]| ==> res[r1][k] == mat[r1][k]
      invariant forall r :: 0 <= r < |mat| && r != r1 ==> res[r] == mat[r]
    {
      res := res[r1 := res[r1][i := res[r2][i]]];
    }
    assert tmp == mat[r1][..m];
    res := res[r2 := tmp];
    if r1 != r2 {
      assert res[r1] == mat[r2][..m] + mat[r1][m..];
    }
  }

  /** On a rectangular matrix the row operation is a plain swap, and doing it
      twice restores the matrix. */
  lemma SwapRowsTwice(mat: seq<seq<int>>, r1: int, r2: int)
    requires |mat| > 0 && 0 <= r1 < |mat| && 0 <= r2 < |mat|
    requires RowsExactly(mat, |mat[0]|)
    ensures SwappedRows(mat, r1, r2) == mat[r1 := mat[r2]][r2 := mat[r1]]
    ensures SwappedRows(SwappedRows(mat, r1, r2), r1, r2) == mat
  {
    var m := |mat[0]|;
    assert mat[r1][..m] == mat[r1] && mat[r2][..m] == mat[r2];
    assert mat[r2][..m] + mat[r1][m..] == mat[r2];
    var once := SwappedRows(mat, r1, r2);
    assert RowsExactly(once, m) && |once[0]| == m;
    assert once[r1][..m] == once[r1] && once[r2][..m] == once[r2];
    assert once[r2][..m] + once[r1][m..] == once[r2];
  }

  /** Row `row` becomes its first `M` entries reversed. */
  function ReversedRow(mat: seq<seq<int>>, row: int): seq<seq<int>>
    requires |mat| > 0 && 0 <= row < |mat| && |mat[row]| >= |mat[0]|
  {
    mat[row := Reverse(mat[row][..|mat[0]|])]
  }

  /** `algo::reverseMatrixRow`. */
  method ReverseMatrixRow(mat: seq<seq<int>>, row: int) returns (res: seq<seq<int>>)
    requires |mat| > 0 && 0 <= row < |mat| && |mat[row]| >= |mat[0]|
    ensures |res| == |mat| && |res[row]| == |mat[0]|
    ensures forall k :: 0 <= k < |mat[0]| ==> res[row][k] == mat[row][|mat[0]| - 1 - k]
    ensures forall r :: 0 <= r < |mat| && r != row ==> res[r] == mat[r]
    ensures res == ReversedRow(mat, row)
  {
    var m := |mat[0]|;
    var tmp := seq(m, _ => 0);
    for i := 0 to m
      invariant |tmp| == m
      invariant forall k :: 0 <= k < i ==> tmp[k] == mat[row][k]
    {
      tmp := tmp[i := mat[row][i]];
    }
    assert tmp == mat[row][..m];
    tmp := Reverse(tmp);
    res := mat[row := tmp];
  }

  /** Reversing a row of a rectangular matrix twice restores it. */
  lemma ReverseRowTwice(mat: seq<seq<int>>, row: int)
    requires |mat| > 0 && 0 <= row < |mat| && RowsExactly(mat, |mat[0]|)
    ensures ReversedRow(ReversedRow(mat, row), row) == mat
  {
    var m := |mat[0]|;
    var once := ReversedRow(mat, row);
    assert |once[0]| == m;
    assert mat[row][..m] == mat[row];
    assert once[row][..m] == once[row];
    ReverseReverse(mat[row]);
  }

  // ---------------------------------------------------------------------
  // Columns

  /** Columns `c1` and `c2` trade places in every row. */
  function SwappedColumns(mat: seq<seq<int>>, c1: int, c2: int): seq<seq<int>>
    requires HasColumn(mat, c1) && HasColumn(mat, c2)
  {
    seq(|mat|, i requires 0 <= i < |mat| => mat[i][c1 := mat[i][c2]][c2 := mat[i][c1]])
  }

  /** `algo::swapMatrixColumn`. */
  method SwapMatrixColumn(mat: seq<seq<int>>, c1: int, c2: int) returns (res: seq<seq<int>>)
    requires HasColumn(mat, c1) && HasColumn(mat, c2)
    ensures |res| == |mat|
    ensures forall i :: 0 <= i < |mat| ==>
      |res[i]| == |mat[i]| &&
      res[i][c1] == mat[i][c2] && res[i][c2] == mat[i][c1] &&
      (forall k :: 0 <= k < |mat[i]| && k != c1 && k != c2 ==> res[i][k] == mat[i][k])
    ensures res == SwappedColumns(mat, c1, c2)
  {
    var n := |mat|;
    var tmp := seq(n, _ => 0);
    for i := 0 to n
      invariant |tmp| == n
      invariant forall k :: 0 <= k < i ==> tmp[k] == mat[k][c1]
    {
      tmp := tmp[i := mat[i][c1]];
    }
    res := mat;
    for i := 0 to n
      invariant |res| == n
      invariant forall k :: 0 <= k < i ==> res[k] == mat[k][c1 := mat[k][c2]]
      invariant forall k :: i <= k < n ==> res[k] == mat[k]
    {
      res := res[i := res[i][c1 := res[i][c2]]];
    }
    for i := 0 to n
      invariant |res| == n
      invariant forall k :: 0 <= k < i ==> res[k] == mat[k][c1 := mat[k][c2]][c2 := mat[k][c1]]
      invariant forall k :: i <= k < n ==> res[k] == mat[k][c1 := mat[k][c2]]
    {
      res := res[i := res[i][c2 := tmp[i]]];
    }
  }

  /** Swapping the same two columns twice restores the matrix. */
  lemma SwapColumnsTwice(mat: seq<seq<int>>, c1: int, c2: int)
    requires HasColumn(mat, c1) && HasColumn(mat, c2)
    ensures SwappedColumns(SwappedColumns(mat, c1, c2), c1, c2) == mat
  {
    var once := SwappedColumns(mat, c1, c2);
    var twice := SwappedColumns(once, c1, c2);
    forall i | 0 <= i < |mat|
      ensures twice[i] == mat[i]
    {
      assert |twice[i]| == |mat[i]|;
      forall k | 0 <= k < |mat[i]|
        ensures twice[i][k] == mat[i][k]
      {
      }
    }
  }

  /** Column `col` read bottom-up. */
  function ReversedColumn(mat: seq<seq<int>>, col: int): seq<seq<int>>
    requires HasColumn(mat, col)
  {
    seq(|mat|, i requires 0 <= i < |mat| => mat[i][col := mat[|mat| - 1 - i][col]])
  }

  /** `algo::reverseMatrixColumn`. */
  method ReverseMatrixColumn(mat: seq<seq<int>>, col: int) returns (res: seq<seq<int>>)
    requires HasColumn(mat, col)
    ensures |res| == |mat|
    ensures forall i :: 0 <= i < |mat| ==>
      |res[i]| == |mat[i]| &&
      res[i][col] == mat[|mat| - 1 - i][col] &&
      (forall k :: 0 <= k < |mat[i]| && k != col ==> res[i][k] == mat[i][k])
    ensures res == ReversedColumn(mat, col)
  {
    var n := |mat|;
    var tmp := seq(n, _ => 0);
    for i := 0 to n
      invariant |tmp| == n
      invariant forall k :: 0 <= k < i ==> tmp[k] == mat[k][col]
    {
      tmp := tmp[i := mat[i][col]];
    }
    tmp := Reverse(tmp);
    assert forall k :: 0 <= k < n ==> tmp[k] == mat[n - 1 - k][col];
    res := mat;
    for i := 0 to n
      invariant |res| == n
      invariant forall k :: 0 <= k < i ==> res[k] == mat[k][col := mat[n - 1 - k][col]]
      invariant forall k :: i <= k < n ==> res[k] == mat[k]
    {
      res := res[i := res[i][col := tmp[i]]];
    }
    forall i | 0 <= i < n
      ensures |res[i]| == |mat[i]| && res[i][col] == mat[n - 1 - i][col]
      ensures forall k :: 0 <= k < |mat[i]| && k != col ==> res[i][k] == mat[i][k]
    {
      assert res[i] == mat[i][col := mat[n - 1 - i][col]];
    }
  }

  /** Reversing the same column twice restores the matrix. */
  lemma ReverseColumnTwice(mat: seq<seq<int>>, col: int)
    requires HasColumn(mat, col)
    ensures ReversedColumn(ReversedColumn(mat, col), col) == mat
  {
    var once := ReversedColumn(mat, col);
    var twice := ReversedColumn(once, col);
    forall i | 0 <= i < |mat|
      ensures twice[i] == mat[i]
    {
      assert once[|mat| - 1 - i][col] == mat[i][col];
    }
  }
}
