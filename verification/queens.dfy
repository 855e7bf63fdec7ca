/** The N-Queens backtracking search of `src/n_queens.cpp`.

    The source keeps the placement in a global `std::vector<int> x`, indexed
    from 1 (slot 0 is never written): `x[r]` is the column of the queen in row
    `r`. Here the buffer is an ordinary `seq<int>` threaded through the search,
    and "print a solution" becomes "append `x[1..n]` to the list of reports". */
module Queens {
  import opened Wrappers
  import opened Seqs

  function Abs(a: int): nat {
    if a < 0 then -a else a
  }

  /** Queens at (row r1, column c1) and (row r2, column c2) share a column or a
      diagonal. */
  predicate Attacks(r1: int, c1: int, r2: int, c2: int) {
    c1 == c2 || Abs(c1 - c2) == Abs(r1 - r2)
  }

  /** The loop of `promising`, from row `j` on: false at the first earlier row
      whose queen shares the candidate's column or diagonal. */
  function PromisingFrom(x: seq<int>, k: int, i: int, j: nat): (b: bool)
    requires 1 <= j && k <= |x|
    ensures b <==> forall r :: j <= r < k ==> !Attacks(r, x[r], k, i)
    decreases k - j
  {
    if j >= k then true
    else if x[j] == i || Abs(x[j] - i) == Abs(j - k) then false
    else PromisingFrom(x, k, i, j + 1)
  }

  /** `promising(k, i)`: may a queen go to row `k`, column `i`, given the queens
      of rows `1..k-1`? Rows `k` and beyond are never read. */
  function Promising(x: seq<int>, k: int, i: int): (b: bool)
    requires k <= |x|
    ensures b <==> forall r :: 1 <= r < k ==> x[r] != i && Abs(x[r] - i) != Abs(r - k)
  {
    PromisingFrom(x, k, i, 1)
  }

  /** Whatever the buffer holds in rows `k` and beyond (a stale value of an
      earlier branch, or the column being tried) does not change the answer. */
  lemma PromisingReadsEarlierRows(x: seq<int>, y: seq<int>, k: int, i: int)
    requires k <= |x| && k <= |y|
    requires forall r :: 1 <= r < k ==> x[r] == y[r]
    ensures Promising(x, k, i) == Promising(y, k, i)
  {
  }

  /** The board mirrored left to right: column `c` becomes `n + 1 - c`. */
  function Mirror(n: int, x: seq<int>): (m: seq<int>)
    ensures |m| == |x|
    ensures forall r :: 1 <= r < |x| ==> m[r] == n + 1 - x[r]
  {
    seq(|x|, r requires 0 <= r < |x| => if r == 0 then x[0] else n + 1 - x[r])
  }

  lemma PromisingMirror(n: int, x: seq<int>, k: int, i: int)
    requires k <= |x|
    ensures Promising(x, k, i) <==> Promising(Mirror(n, x), k, n + 1 - i)
  {
  }

  /** `check()`: true iff no value occurs twice in the buffer. The loop keeps the
      values seen so far in a set, as the source's `unordered_set` does. */
  method Check(x: seq<int>) returns (ok: bool)
    ensures ok <==> Distinct(x)
  {
    var lookup: set<int> := {};
    for idx := 0 to |x|
      invariant lookup == set r | 0 <= r < idx :: x[r]
      invariant Distinct(x[..idx])
    {
      if x[idx] in lookup {
        return false;
      }
      lookup := lookup + {x[idx]};
    }
    assert x[..|x|] == x;
    return true;
  }

  /** A complete answer for `n` queens as the source prints it: entry `r` is the
      column (in `1..n`) of the queen in row `r + 1`, and no two queens attack. */
  predicate IsSolution(n: nat, s: seq<int>) {
    && |s| == n
    && (forall r :: 0 <= r < n ==> 1 <= s[r] <= n)
    && (forall a, b :: 0 <= a < b < n ==> !Attacks(a + 1, s[a], b + 1, s[b]))
  }

  /** Rows `1..k-1` of the buffer hold columns in `1..n`, pairwise non-attacking. */
  predicate Placed(n: nat, x: seq<int>, k: int)
    requires k <= |x|
  {
    && (forall r :: 1 <= r < k ==> 1 <= x[r] <= n)
    && (forall a, b :: 1 <= a < b < k ==> !Attacks(a, x[a], b, x[b]))
  }

  /** `n_queens(k, n)` entered with buffer `x`, from the point where the column
      loop is about to try column `i`. Returns the buffer as the call leaves it
      and the placements it reports, in report order. */
  function Search(n: nat, k: nat, x: seq<int>, i: nat): (r: (seq<int>, seq<seq<int>>))
    requires 1 <= k <= n && |x| == n + 1 && 1 <= i <= n + 1
    ensures |r.0| == n + 1
    decreases n - k, n + 1 - i
  {
    if i > n then (x, [])
    else if Promising(x, k, i) then
      var b := Below(n, k, x[k := i]);
      var c := Search(n, k, b.0, i + 1);
      (c.0, b.1 + c.1)
    else
      Search(n, k, x, i + 1)
  }

  /** Once `x[k] = i` is written: report the buffer if `k == n`, otherwise
      recurse into row `k + 1`. */
  function Below(n: nat, k: nat, y: seq<int>): (r: (seq<int>, seq<seq<int>>))
    requires 1 <= k <= n && |y| == n + 1
    ensures |r.0| == n + 1
    decreases n - k, 0
  {
    if k == n then (y, [y[1..]]) else Search(n, k + 1, y, 1)
  }

  /** `n_queens(1, n)` on a fresh buffer. `x.resize(n + 1)` throws for `n < -1`;
      for `n` of `-1` or `0` the column loop is empty and nothing is reported. */
  function NQueens(n: int): (r: Result<seq<seq<int>>>)
    ensures r.Failure? <==> n < -1
    ensures -1 <= n <= 0 ==> r == Success([])
  {
    if n < -1 then Failure(LengthError)
    else if n < 1 then Success([])
    else Success(Search(n, 1, seq(n + 1, _ => 0), 1).1)
  }

  /** One step of the column loop: past column `n` nothing more is reported. */
  lemma SearchEnd(n: nat, k: nat, x: seq<int>, i: nat)
    requires 1 <= k <= n && |x| == n + 1 && i == n + 1
    ensures Search(n, k, x, i) == (x, [])
  {
  }

  /** One step of the column loop: an attacked column is skipped. */
  lemma SearchSkip(n: nat, k: nat, x: seq<int>, i: nat)
    requires 1 <= k <= n && |x| == n + 1 && 1 <= i <= n && !Promising(x, k, i)
    ensures Search(n, k, x, i) == Search(n, k, x, i + 1)
  {
  }

  /** One step of the column loop: a promising column is placed, the rows
      below are searched, and the loop goes on with the buffer they leave. */
  lemma SearchPlace(n: nat, k: nat, x: seq<int>, i: nat)
    requires 1 <= k <= n && |x| == n + 1 && 1 <= i <= n && Promising(x, k, i)
    ensures Search(n, k, x, i).1
         == Below(n, k, x[k := i]).1 + Search(n, k, Below(n, k, x[k := i]).0, i + 1).1
  {
  }

  /** The recursion below row `k` writes only rows `k + 1` and beyond: the call
      on row `k` hands back rows `0..k-1` as it found them. */
  lemma {:induction false} SearchKeepsRows(n: nat, k: nat, x: seq<int>, i: nat)
    requires 1 <= k <= n && |x| == n + 1 && 1 <= i <= n + 1
    ensures forall r :: 0 <= r < k ==> Search(n, k, x, i).0[r] == x[r]
    decreases n - k, n + 1 - i
  {
    if i <= n && Promising(x, k, i) {
      var b := Below(n, k, x[k := i]);
      BelowKeepsRows(n, k, x[k := i]);
      SearchKeepsRows(n, k, b.0, i + 1);
    } else if i <= n {
      SearchKeepsRows(n, k, x, i + 1);
    }
  }

  /** Rows `0..k` survive the descent from row `k`. */
  lemma {:induction false} BelowKeepsRows(n: nat, k: nat, y: seq<int>)
    requires 1 <= k <= n && |y| == n + 1
    ensures forall r :: 0 <= r <= k ==> Below(n, k, y).0[r] == y[r]
    decreases n - k, 0
  {
    if k < n {
      SearchKeepsRows(n, k + 1, y, 1);
    }
  }

  /** Every report of the descent from row `k` is a full row of columns that
      copies rows `1..k` of the buffer. */
  lemma BelowReports(n: nat, k: nat, y: seq<int>)
    requires 1 <= k <= n && |y| == n + 1
    ensures forall s :: s in Below(n, k, y).1 ==>
      |s| == n && forall r :: 0 <= r < k ==> s[r] == y[r + 1]
    decreases n - k, 0, 0
  {
    if k < n {
      SearchReportsExtensions(n, k + 1, y, 1);
    }
  }

  /** `s` agrees with the buffer on rows `1..k-1` and puts row `k` at column `i` or later. */
  predicate Extends(n: nat, s: seq<int>, x: seq<int>, k: nat, i: int)
    requires 1 <= k <= n && |x| == n + 1
  {
    && |s| == n
    && (forall r :: 0 <= r < k - 1 ==> s[r] == x[r + 1])
    && i <= s[k - 1] <= n
  }

  /** Committing a promising column keeps the placed rows legal. */
  lemma PlaceKeepsPlaced(n: nat, x: seq<int>, k: nat, i: int)
    requires 1 <= k <= n && |x| == n + 1 && 1 <= i <= n
    requires Placed(n, x, k) && Promising(x, k, i)
    ensures Placed(n, x[k := i], k + 1)
  {
    var y := x[k := i];
    forall a, b | 1 <= a < b < k + 1
      ensures !Attacks(a, y[a], b, y[b])
    {
      if b == k {
        assert y[a] == x[a] && y[b] == i;
      } else {
        assert y[a] == x[a] && y[b] == x[b];
      }
    }
  }

  lemma PlacedAgree(n: nat, x: seq<int>, y: seq<int>, k: nat)
    requires 1 <= k <= |x| && k <= |y|
    requires forall r :: 1 <= r < k ==> x[r] == y[r]
    requires Placed(n, x, k)
    ensures Placed(n, y, k)
  {
  }

  lemma PlacedComplete(n: nat, y: seq<int>)
    requires |y| == n + 1 && Placed(n, y, n + 1)
    ensures IsSolution(n, y[1..])
  {
    var s := y[1..];
    forall a, b | 0 <= a < b < n
      ensures !Attacks(a + 1, s[a], b + 1, s[b])
    {
      assert s[a] == y[a + 1] && s[b] == y[b + 1];
    }
  }

  lemma {:induction false} SearchReportsExtensions(n: nat, k: nat, x: seq<int>, i: nat)
    requires 1 <= k <= n && |x| == n + 1 && 1 <= i <= n + 1
    ensures forall s :: s in Search(n, k, x, i).1 ==> Extends(n, s, x, k, i)
    decreases n - k, n + 1 - i, 1
  {
    if i > n {
      SearchEnd(n, k, x, i);
    } else if Promising(x, k, i) {
      ReportsAfterPlacing(n, k, x, i);
    } else {
      SearchReportsExtensions(n, k, x, i + 1);
      SearchSkip(n, k, x, i);
      assert forall s :: s in Search(n, k, x, i).1 ==> Extends(n, s, x, k, i);
    }
  }

  /** The case of `SearchReportsExtensions` where column `i` is placed in row `k`. */
  lemma {:induction false} ReportsAfterPlacing(n: nat, k: nat, x: seq<int>, i: nat)
    requires 1 <= k <= n && |x| == n + 1 && 1 <= i <= n && Promising(x, k, i)
    ensures forall s :: s in Search(n, k, x, i).1 ==> Extends(n, s, x, k, i)
    decreases n - k, n + 1 - i, 0
  {
    var y := x[k := i];
    var b := Below(n, k, y);
    var rest := Search(n, k, b.0, i + 1).1;
    assert forall s :: s in b.1 ==> Extends(n, s, x, k, i) by {
      BelowReports(n, k, y);
      forall s | s in b.1
        ensures Extends(n, s, x, k, i)
      {
        assert s[k - 1] == y[k];
      }
    }
    assert forall s :: s in rest ==> Extends(n, s, x, k, i) by {
      BelowKeepsRows(n, k, y);
      SearchReportsExtensions(n, k, b.0, i + 1);
      forall s | s in rest
        ensures Extends(n, s, x, k, i)
      {
        forall r | 0 <= r < k - 1
          ensures s[r] == x[r + 1]
        {
          assert s[r] == b.0[r + 1] == y[r + 1];
        }
      }
    }
    SearchPlace(n, k, x, i);
    forall s | s in Search(n, k, x, i).1
      ensures Extends(n, s, x, k, i)
    {
      assert s in b.1 || s in rest;
    }
  }

  /** Invariant of the search: entered with rows `1..k-1` legal, it reports only
      complete legal placements. */
  lemma {:induction false} SearchSound(n: nat, k: nat, x: seq<int>, i: nat)
    requires 1 <= k <= n && |x| == n + 1 && 1 <= i <= n + 1
    requires Placed(n, x, k)
    ensures forall s :: s in Search(n, k, x, i).1 ==> IsSolution(n, s)
    decreases n - k, n + 1 - i, 1
  {
    if i > n {
      SearchEnd(n, k, x, i);
      assert forall s :: s in Search(n, k, x, i).1 ==> IsSolution(n, s);
    } else if Promising(x, k, i) {
      SoundAfterPlacing(n, k, x, i);
    } else {
      SearchSound(n, k, x, i + 1);
      SearchSkip(n, k, x, i);
      assert forall s :: s in Search(n, k, x, i).1 ==> IsSolution(n, s);
    }
  }

  /** The case of `SearchSound` where column `i` is placed in row `k`. */
  lemma {:induction false} SoundAfterPlacing(n: nat, k: nat, x: seq<int>, i: nat)
    requires 1 <= k <= n && |x| == n + 1 && 1 <= i <= n && Promising(x, k, i)
    requires Placed(n, x, k)
    ensures forall s :: s in Search(n, k, x, i).1 ==> IsSolution(n, s)
    decreases n - k, n + 1 - i, 0
  {
    var y := x[k := i];
    var b := Below(n, k, y);
    var rest := Search(n, k, b.0, i + 1).1;
    assert forall s :: s in b.1 ==> IsSolution(n, s) by {
      PlaceKeepsPlaced(n, x, k, i);
      if k == n {
        PlacedComplete(n, y);
      } else {
        SearchSound(n, k + 1, y, 1);
      }
    }
    assert forall s :: s in rest ==> IsSolution(n, s) by {
      BelowKeepsRows(n, k, y);
      PlacedAgree(n, x, b.0, k);
      SearchSound(n, k, b.0, i + 1);
    }
    SearchPlace(n, k, x, i);
    forall s | s in Search(n, k, x, i).1
      ensures IsSolution(n, s)
    {
      assert s in b.1 || s in rest;
    }
  }

  /** Completeness: every legal placement extending the buffer's rows `1..k-1`
      with row `k` at column `i` or later is reported. */
  lemma {:induction false} SearchComplete(n: nat, k: nat, x: seq<int>, i: nat, s: seq<int>)
    requires 1 <= k <= n && |x| == n + 1 && 1 <= i <= n + 1
    requires IsSolution(n, s) && Extends(n, s, x, k, i)
    ensures s in Search(n, k, x, i).1
    decreases n - k, n + 1 - i, 1
  {
    if i == s[k - 1] {
      CompleteAtItsColumn(n, k, x, s);
    } else if Promising(x, k, i) {
      var y := x[k := i];
      var b := Below(n, k, y);
      assert s in Search(n, k, b.0, i + 1).1 by {
        BelowKeepsRows(n, k, y);
        SearchComplete(n, k, b.0, i + 1, s);
      }
      SearchPlace(n, k, x, i);
      assert s in Search(n, k, x, i).1;
    } else {
      SearchComplete(n, k, x, i + 1, s);
      SearchSkip(n, k, x, i);
      assert s in Search(n, k, x, i).1;
    }
  }

  /** The case of `SearchComplete` where the loop reaches the column `s` puts in
      row `k`: that column is promising, and the descent reports `s`. */
  lemma {:induction false} CompleteAtItsColumn(n: nat, k: nat, x: seq<int>, s: seq<int>)
    requires 1 <= k <= n && |x| == n + 1
    requires IsSolution(n, s) && Extends(n, s, x, k, s[k - 1])
    ensures s in Search(n, k, x, s[k - 1]).1
    decreases n - k, 0, 0
  {
    var i := s[k - 1];
    var y := x[k := i];
    assert Promising(x, k, i) by {
      forall r | 1 <= r < k
        ensures x[r] != i && Abs(x[r] - i) != Abs(r - k)
      {
        assert x[r] == s[r - 1];
        assert !Attacks(r, s[r - 1], k, s[k - 1]);
      }
    }
    assert s in Below(n, k, y).1 by {
      if k == n {
        forall j | 0 <= j < n
          ensures y[1..][j] == s[j]
        {
          assert j + 1 < k ==> s[j] == x[j + 1];
        }
        assert y[1..] == s;
      } else {
        assert Extends(n, s, y, k + 1, 1);
        SearchComplete(n, k + 1, y, 1, s);
      }
    }
    SearchPlace(n, k, x, i);
  }

  /** `a` precedes `b` in lexicographic order. */
  predicate LexLess(a: seq<int>, b: seq<int>) {
    exists p :: 0 <= p < |a| && p < |b| && a[..p] == b[..p] && a[p] < b[p]
  }

  predicate StrictlyIncreasing(ss: seq<seq<int>>) {
    forall a, b :: 0 <= a < b < |ss| ==> LexLess(ss[a], ss[b])
  }

  /** Every report of the first list precedes every report of the second. */
  lemma ConcatIncreasing(here: seq<seq<int>>, rest: seq<seq<int>>)
    requires StrictlyIncreasing(here) && StrictlyIncreasing(rest)
    requires forall s, t :: s in here && t in rest ==> LexLess(s, t)
    ensures StrictlyIncreasing(here + rest)
  {
    var all := here + rest;
    forall p, q | 0 <= p < q < |all|
      ensures LexLess(all[p], all[q])
    {
      if q < |here| {
        assert all[p] == here[p] && all[q] == here[q];
      } else if |here| <= p {
        assert all[p] == rest[p - |here|] && all[q] == rest[q - |here|];
      } else {
        assert all[p] in here && all[q] in rest;
      }
    }
  }

  /** Two placements that agree on the first `p` entries and differ upward at
      entry `p` are in lexicographic order. */
  lemma LexLessAt(s: seq<int>, t: seq<int>, p: nat)
    requires p < |s| && p < |t| && s[p] < t[p]
    requires forall q :: 0 <= q < p ==> s[q] == t[q]
    ensures LexLess(s, t)
  {
    assert s[..p] == t[..p];
  }

  /** Columns are tried in ascending order at every depth, so the reports come
      out in strictly increasing lexicographic order. */
  lemma {:induction false} SearchOrdered(n: nat, k: nat, x: seq<int>, i: nat)
    requires 1 <= k <= n && |x| == n + 1 && 1 <= i <= n + 1
    ensures StrictlyIncreasing(Search(n, k, x, i).1)
    decreases n - k, n + 1 - i, 1
  {
    if i > n {
      SearchEnd(n, k, x, i);
      assert StrictlyIncreasing(Search(n, k, x, i).1);
    } else if Promising(x, k, i) {
      OrderedAfterPlacing(n, k, x, i);
    } else {
      SearchOrdered(n, k, x, i + 1);
      SearchSkip(n, k, x, i);
      assert StrictlyIncreasing(Search(n, k, x, i).1);
    }
  }

  /** The case of `SearchOrdered` where column `i` is placed in row `k`: the
      reports of the descent all have `i` in row `k`, the later ones a greater
      column there. */
  lemma {:induction false} OrderedAfterPlacing(n: nat, k: nat, x: seq<int>, i: nat)
    requires 1 <= k <= n && |x| == n + 1 && 1 <= i <= n && Promising(x, k, i)
    ensures StrictlyIncreasing(Search(n, k, x, i).1)
    decreases n - k, n + 1 - i, 0
  {
    var y := x[k := i];
    var b := Below(n, k, y);
    var rest := Search(n, k, b.0, i + 1).1;
    assert StrictlyIncreasing(b.1) by {
      if k < n {
        SearchOrdered(n, k + 1, y, 1);
      }
    }
    assert StrictlyIncreasing(rest) by {
      SearchOrdered(n, k, b.0, i + 1);
    }
    assert forall s, t :: s in b.1 && t in rest ==> LexLess(s, t) by {
      BelowReports(n, k, y);
      BelowKeepsRows(n, k, y);
      SearchReportsExtensions(n, k, b.0, i + 1);
      forall s, t | s in b.1 && t in rest
        ensures LexLess(s, t)
      {
        forall q | 0 <= q < k - 1
          ensures s[q] == t[q]
        {
          assert s[q] == y[q + 1] == b.0[q + 1];
        }
        assert s[k - 1] == y[k];
        LexLessAt(s, t, k - 1);
      }
    }
    ConcatIncreasing(b.1, rest);
    SearchPlace(n, k, x, i);
  }

  /** "Finds all possible valid placements": for `n >= 1`, a placement is
      reported exactly when it is a legal complete placement. */
  lemma NQueensReportsExactlyTheSolutions(n: int, s: seq<int>)
    requires n >= 1
    ensures NQueens(n).Success?
    ensures s in NQueens(n).value <==> IsSolution(n, s)
  {
    var x := seq(n + 1, _ => 0);
    SearchSound(n, 1, x, 1);
    if IsSolution(n, s) {
      SearchComplete(n, 1, x, 1, s);
    }
  }

  lemma NQueensOrdered(n: int)
    requires n >= -1
    ensures NQueens(n).Success?
    ensures StrictlyIncreasing(NQueens(n).value)
  {
    if n >= 1 {
      SearchOrdered(n, 1, seq(n + 1, _ => 0), 1);
    }
  }

  /** At every report the buffer is `[0] + s` (slot 0 is never written), and
      `check()` accepts it, so "Algorithm failed." is never printed. */
  lemma ReportsPassCheck(n: int, s: seq<int>)
    requires n >= -1
    requires NQueens(n).Success? && s in NQueens(n).value
    ensures Distinct([0] + s)
  {
    NQueensReportsExactlyTheSolutions(n, s);
    var b := [0] + s;
    forall p, q | 0 <= p < q < |b|
      ensures b[p] != b[q]
    {
      if p > 0 {
        assert !Attacks(p, s[p - 1], q, s[q - 1]);
      }
    }
  }

  /** The search never reads a stale row: the reports depend only on the
      buffer's rows `1..k-1`, whatever an earlier branch (or an earlier call on
      the shared buffer) left in the other rows. */
  lemma {:induction false} SearchIgnoresStaleRows(n: nat, k: nat, x: seq<int>, x': seq<int>, i: nat)
    requires 1 <= k <= n && |x| == n + 1 && |x'| == n + 1 && 1 <= i <= n + 1
    requires forall r :: 1 <= r < k ==> x[r] == x'[r]
    ensures Search(n, k, x, i).1 == Search(n, k, x', i).1
    decreases n - k, n + 1 - i, 1
  {
    if i > n {
      SearchEnd(n, k, x, i);
      SearchEnd(n, k, x', i);
    } else {
      assert Promising(x, k, i) == Promising(x', k, i) by {
        PromisingReadsEarlierRows(x, x', k, i);
      }
      if Promising(x, k, i) {
        StaleRowsAfterPlacing(n, k, x, x', i);
      } else {
        assert Search(n, k, x, i + 1).1 == Search(n, k, x', i + 1).1 by {
          SearchIgnoresStaleRows(n, k, x, x', i + 1);
        }
        SearchSkip(n, k, x, i);
        SearchSkip(n, k, x', i);
      }
    }
  }

  /** The case of `SearchIgnoresStaleRows` where column `i` is placed in row `k`. */
  lemma {:induction false} StaleRowsAfterPlacing(n: nat, k: nat, x: seq<int>, x': seq<int>, i: nat)
    requires 1 <= k <= n && |x| == n + 1 && |x'| == n + 1 && 1 <= i <= n
    requires forall r :: 1 <= r < k ==> x[r] == x'[r]
    requires Promising(x, k, i) && Promising(x', k, i)
    ensures Search(n, k, x, i).1 == Search(n, k, x', i).1
    decreases n - k, n + 1 - i, 0
  {
    var y, y' := x[k := i], x'[k := i];
    var b, b' := Below(n, k, y), Below(n, k, y');
    assert b.1 == b'.1 by {
      BelowIgnoresStaleRows(n, k, y, y');
    }
    assert Search(n, k, b.0, i + 1).1 == Search(n, k, b'.0, i + 1).1 by {
      BelowKeepsRows(n, k, y);
      BelowKeepsRows(n, k, y');
      SearchIgnoresStaleRows(n, k, b.0, b'.0, i + 1);
    }
    SearchPlace(n, k, x, i);
    SearchPlace(n, k, x', i);
  }

  /** Descending from row `k` reads only rows `1..k`. */
  lemma {:induction false} BelowIgnoresStaleRows(n: nat, k: nat, y: seq<int>, y': seq<int>)
    requires 1 <= k <= n && |y| == n + 1 && |y'| == n + 1
    requires forall r :: 1 <= r <= k ==> y[r] == y'[r]
    ensures Below(n, k, y).1 == Below(n, k, y').1
    decreases n - k, 0, 0
  {
    if k < n {
      SearchIgnoresStaleRows(n, k + 1, y, y', 1);
    } else {
      assert y[1..] == y'[1..];
    }
  }

  lemma LexLessIrreflexive(a: seq<int>)
    ensures !LexLess(a, a)
  {
  }

  lemma OneQueen()
    ensures NQueens(1) == Success([[1]])
  {
    var out := NQueens(1).value;
    NQueensReportsExactlyTheSolutions(1, [1]);
    NQueensOrdered(1);
    forall s | s in out
      ensures s == [1]
    {
      NQueensReportsExactlyTheSolutions(1, s);
    }
    LexLessIrreflexive([1]);
    if |out| >= 2 {
      assert false;
    }
    assert out == [[1]];
  }

  /** With no legal placement, nothing is reported. */
  lemma NoSolutionNoReport(n: int)
    requires n >= 1
    requires forall s :: !IsSolution(n, s)
    ensures NQueens(n) == Success([])
  {
    var out := NQueens(n).value;
    if |out| > 0 {
      NQueensReportsExactlyTheSolutions(n, out[0]);
      assert false;
    }
  }

  lemma NoPlacementOfTwoOrThree(n: nat, s: seq<int>)
    requires n == 2 || n == 3
    ensures !IsSolution(n, s)
  {
    if |s| == n && 1 <= s[0] <= n && 1 <= s[1] <= n {
      if n == 2 {
        assert Attacks(1, s[0], 2, s[1]);
      } else if 1 <= s[2] <= 3 {
        assert Attacks(1, s[0], 2, s[1]) || Attacks(2, s[1], 3, s[2]) || Attacks(1, s[0], 3, s[2]);
      }
    }
  }

  /** Two or three queens cannot be placed. */
  lemma NoQueensForTwoOrThree(n: int)
    requires n == 2 || n == 3
    ensures NQueens(n) == Success([])
  {
    forall s
      ensures !IsSolution(n, s)
    {
      NoPlacementOfTwoOrThree(n, s);
    }
    NoSolutionNoReport(n);
  }

  /** The two placements of four queens. */
  lemma FourQueensSolutions(s: seq<int>)
    ensures IsSolution(4, s) <==> s == [2, 4, 1, 3] || s == [3, 1, 4, 2]
  {
    if IsSolution(4, s) {
      assert !Attacks(1, s[0], 2, s[1]);
      assert !Attacks(1, s[0], 3, s[2]);
      assert !Attacks(1, s[0], 4, s[3]);
      assert !Attacks(2, s[1], 3, s[2]);
      assert !Attacks(2, s[1], 4, s[3]);
      assert !Attacks(3, s[2], 4, s[3]);
      assert s == [s[0], s[1], s[2], s[3]];
    }
  }

  lemma IncreasingIsDistinct(out: seq<seq<int>>)
    requires StrictlyIncreasing(out)
    ensures Distinct(out)
  {
    forall p, q | 0 <= p < q < |out|
      ensures out[p] != out[q]
    {
      LexLessIrreflexive(out[p]);
    }
  }

  /** A strictly increasing list holding exactly the values `a`, `b`, with `b`
      not before `a`, is `[a, b]`. */
  lemma IncreasingPair(out: seq<seq<int>>, a: seq<int>, b: seq<int>)
    requires StrictlyIncreasing(out)
    requires a in out && b in out && a != b && !LexLess(b, a)
    requires forall s :: s in out ==> s == a || s == b
    ensures out == [a, b]
  {
    IncreasingIsDistinct(out);
    DistinctCard(out);
    assert Elems(out) <= {a, b};
    SubsetCard(Elems(out), {a, b});
    assert |out| >= 2 by {
      var ia :| 0 <= ia < |out| && out[ia] == a;
      var ib :| 0 <= ib < |out| && out[ib] == b;
      assert ia != ib;
    }
    assert out[0] in out && out[1] in out;
    assert LexLess(out[0], out[1]);
    assert out == [out[0], out[1]];
  }

  /** The concrete run for a 4x4 board: exactly two reports, in this order. */
  lemma FourQueens()
    ensures NQueens(4) == Success([[2, 4, 1, 3], [3, 1, 4, 2]])
  {
    var out := NQueens(4).value;
    var a, b := [2, 4, 1, 3], [3, 1, 4, 2];
    FourQueensSolutions(a);
    FourQueensSolutions(b);
    NQueensReportsExactlyTheSolutions(4, a);
    NQueensReportsExactlyTheSolutions(4, b);
    NQueensOrdered(4);
    forall s | s in out
      ensures s == a || s == b
    {
      NQueensReportsExactlyTheSolutions(4, s);
      FourQueensSolutions(s);
    }
    assert forall p :: 0 < p <= 4 ==> b[..p][0] != a[..p][0];
    IncreasingPair(out, a, b);
  }
}
