/** The Monte Carlo estimate of the N-Queens backtracking tree of
    `src/n_queens.cpp` (Knuth's single random descent).

    The random draw of the source becomes an oracle: at level `l` the source
    picks a uniformly random index into the list of promising columns; here
    the index is `choices[l - 1] % m`, where `m` is that list's length. Every
    draw the source can make is the draw of some oracle (an index already below
    `m` is used as it is), so the model covers every run of the source. */
module QueensEstimate {
  import opened Wrappers
  import opened Queens

  /** Result of one descent: the estimate, the promising-child count of every
      level visited, and the columns committed on the way down. */
  datatype Descent = Descent(nodes: int, counts: seq<nat>, path: seq<int>)

  /** The board the descent has built before level `t + 1`: slot 0 unused, then
      the columns committed in rows `1..t`. */
  function Board(path: seq<int>, t: nat): (b: seq<int>)
    requires t <= |path|
    ensures |b| == t + 1
  {
    [0] + path[..t]
  }

  lemma BoardRows(path: seq<int>, t: nat)
    requires t <= |path|
    ensures forall r :: 1 <= r <= t ==> Board(path, t)[r] == path[r - 1]
  {
  }

  /** The columns among `1..j` that are promising for row `k`, in ascending
      order: the vector `prom_children` once column `j` has been tried. */
  function ColsUpTo(p: seq<int>, k: nat, j: int): seq<int>
    requires k <= |p|
    decreases j
  {
    if j < 1 then []
    else ColsUpTo(p, k, j - 1) + (if Promising(p, k, j) then [j] else [])
  }

  /** `prom_children` holds exactly the promising columns among `1..j`, each
      once, in ascending order. */
  lemma {:induction false} ColsUpToMembers(p: seq<int>, k: nat, j: int)
    requires k <= |p|
    ensures forall v :: v in ColsUpTo(p, k, j) <==> 1 <= v <= j && Promising(p, k, v)
    ensures forall a :: 0 <= a < |ColsUpTo(p, k, j)| ==> 1 <= ColsUpTo(p, k, j)[a] <= j
    ensures forall a, b :: 0 <= a < b < |ColsUpTo(p, k, j)| ==> ColsUpTo(p, k, j)[a] < ColsUpTo(p, k, j)[b]
    decreases j
  {
    if j >= 1 {
      ColsUpToMembers(p, k, j - 1);
    }
  }

  /** The oracle's draw among the promising columns `cols`. */
  function Pick(cols: seq<int>, choice: nat): (c: int)
    requires |cols| > 0
    ensures c in cols
  {
    cols[choice % |cols|]
  }

  /** Product of the counts: the number of nodes the estimate credits to one
      level, given the counts of the levels above it. */
  function Product(c: seq<nat>): nat {
    if |c| == 0 then 1 else Product(c[..|c| - 1]) * c[|c| - 1]
  }

  /** The sum, over the levels visited, of the product of the counts above
      each level. */
  function Weight(c: seq<nat>): nat {
    if |c| == 0 then 0 else Weight(c[..|c| - 1]) + Product(c[..|c| - 1])
  }

  /** Every count is the number of promising columns of its level, given the
      columns committed above it, and every committed column is the one the
      oracle selects among them. Stated level by level from the last one. */
  predicate Follows(n: int, choices: seq<nat>, counts: seq<nat>, path: seq<int>)
    decreases |counts|
  {
    if |counts| == 0 then path == []
    else
      var t := |counts| - 1;
      && t <= |path| <= t + 1
      && Follows(n, choices, counts[..t], path[..t])
      && counts[t] == |ColsUpTo(Board(path, t), t + 1, n)|
      && (|path| == t + 1 ==>
            && 0 < counts[t] && t < |choices|
            && path[t] == Pick(ColsUpTo(Board(path, t), t + 1, n), choices[t]))
  }

  /** `Follows` read off at level `u`. */
  lemma {:induction false} FollowsLevel(n: int, choices: seq<nat>, counts: seq<nat>, path: seq<int>, u: nat)
    requires Follows(n, choices, counts, path) && u < |counts|
    ensures |path| <= |counts| <= |path| + 1 && |path| <= |choices|
    ensures counts[u] == |ColsUpTo(Board(path, u), u + 1, n)|
    ensures u < |path| ==>
      && 0 < counts[u]
      && path[u] == Pick(ColsUpTo(Board(path, u), u + 1, n), choices[u])
    decreases |counts|
  {
    var t := |counts| - 1;
    if u < t {
      var c, q := counts[..t], path[..t];
      FollowsLevel(n, choices, c, q, u);
      assert q[..u] == path[..u];
      assert Board(q, u) == Board(path, u);
      assert c[u] == counts[u];
      if u < |path| {
        assert q[u] == path[u];
      }
    } else if t > 0 {
      FollowsLevel(n, choices, counts[..t], path[..t], 0);
    }
  }

  /** `Follows` read off at every level at once. */
  lemma FollowsLevels(n: int, choices: seq<nat>, counts: seq<nat>, path: seq<int>)
    requires Follows(n, choices, counts, path)
    ensures |path| <= |counts| <= |path| + 1 && |path| <= |choices|
    ensures forall t :: 0 <= t < |counts| ==> counts[t] == |ColsUpTo(Board(path, t), t + 1, n)|
    ensures forall t :: 0 <= t < |path| ==>
      && 0 < counts[t]
      && path[t] == Pick(ColsUpTo(Board(path, t), t + 1, n), choices[t])
  {
    forall t | 0 <= t < |counts|
      ensures counts[t] == |ColsUpTo(Board(path, t), t + 1, n)|
      ensures t < |path| ==>
        && 0 < counts[t]
        && path[t] == Pick(ColsUpTo(Board(path, t), t + 1, n), choices[t])
    {
      FollowsLevel(n, choices, counts, path, t);
    }
  }

  /** The loop ran to level `n` (for `n >= 0`), or stopped at the first level
      whose count is zero. */
  predicate Stopped(n: int, counts: seq<nat>, path: seq<int>)
    requires |path| <= |counts|
  {
    && (n >= 0 ==> |counts| <= n)
    && (|path| == |counts| ==> |counts| == n)
    && (|path| < |counts| ==> counts[|path|] == 0)
  }

  lemma WeightStep(c: seq<nat>, v: nat)
    ensures Weight(c + [v]) == Weight(c) + Product(c)
    ensures Product(c + [v]) == Product(c) * v
  {
    assert (c + [v])[..|c|] == c;
  }

  /** The update of `num_nodes` keeps it at `1 + n * Weight(counts)`. */
  lemma NodesStep(n: int, nodes: int, c: seq<nat>, v: nat)
    requires nodes == 1 + n * Weight(c)
    ensures nodes + Product(c) * n == 1 + n * Weight(c + [v])
  {
    WeightStep(c, v);
    Distribute(n, Weight(c), Product(c));
  }

  lemma Distribute(n: int, w: int, p: int)
    ensures n * (w + p) == n * w + p * n
  {
  }

  /** The update of `mprod` keeps it at the product of the counts so far. */
  lemma ProductStep(c: seq<nat>)
    requires |c| > 0
    ensures Product(c[..|c| - 1]) * c[|c| - 1] == Product(c)
  {
  }

  /** One more level: the count of its promising columns is appended, and,
      when there is one, the column the oracle selects is committed. */
  lemma FollowsStep(n: int, choices: seq<nat>, counts: seq<nat>, path: seq<int>, prom: seq<int>)
    requires Follows(n, choices, counts, path) && |path| == |counts|
    requires prom == ColsUpTo(Board(path, |path|), |path| + 1, n)
    requires |prom| > 0 ==> |path| < |choices|
    ensures |prom| == 0 ==> Follows(n, choices, counts + [|prom|], path)
    ensures |prom| > 0 ==>
      Follows(n, choices, counts + [|prom|], path + [Pick(prom, choices[|path|])])
  {
    var t := |path|;
    var counts' := counts + [|prom|];
    var path' := if |prom| == 0 then path else path + [Pick(prom, choices[|path|])];
    assert counts'[..t] == counts && path'[..t] == path;
    assert Board(path', t) == Board(path, t);
  }

  /** Scanning the columns of level `i`: the inner loop of the source, which
      writes each candidate column into `x[i]` before testing it. The write is
      harmless, as `promising(i, j)` reads rows `1..i-1` only. */
  method ScanLevel(n: int, x: seq<int>, i: nat, p: seq<int>) returns (x': seq<int>, prom: seq<int>)
    requires |x| == n + 1 && 1 <= i && |p| == i && (n >= 1 ==> i <= n)
    requires forall r :: 1 <= r < i && r <= n ==> x[r] == p[r]
    ensures prom == ColsUpTo(p, i, n)
    ensures |x'| == n + 1 && forall r :: 1 <= r < i && r <= n ==> x'[r] == p[r]
  {
    x' := x;
    prom := [];
    var j := 1;
    while j <= n
      invariant 1 <= j <= (if n >= 0 then n + 1 else 1)
      invariant prom == ColsUpTo(p, i, j - 1)
      invariant |x'| == n + 1
      invariant forall r :: 1 <= r < i && r <= n ==> x'[r] == p[r]
    {
      x' := x'[i := j];
      PromisingReadsEarlierRows(x', p, i, j);
      if Promising(x', i, j) {
        prom := prom + [j];
      }
      j := j + 1;
    }
  }

  /** `n_queens_estimate(n)`. The buffer is the source's `x` after
      `x.resize(n + 1)`, which throws for `n < -1`. */
  method NQueensEstimate(n: int, choices: seq<nat>) returns (r: Result<Descent>)
    requires |choices| >= n
    ensures r.Failure? <==> n < -1
    ensures r.Success? ==> Follows(n, choices, r.value.counts, r.value.path)
    ensures r.Success? ==> Stopped(n, r.value.counts, r.value.path)
    ensures r.Success? ==> r.value.nodes == 1 + n * Weight(r.value.counts)
  {
    if n < -1 {
      return Failure(LengthError);
    }
    var x: seq<int> := seq(n + 1, _ => 0);
    var nodes, mprod, i := 1, 1, 0;
    var m: nat := 1;
    var counts: seq<nat> := [];
    var path: seq<int> := [];
    while m != 0 && i != n
      invariant 0 <= i && (n >= 0 ==> i <= n) && (n < 0 ==> i <= 1 && (i == 1 ==> m == 0))
      invariant |counts| == i
      invariant m == (if i == 0 then 1 else counts[i - 1])
      invariant |path| == (if m == 0 then i - 1 else i)
      invariant mprod == (if i == 0 then 1 else Product(counts[..i - 1]))
      invariant nodes == 1 + n * Weight(counts)
      invariant |x| == n + 1
      invariant forall r :: 1 <= r <= |path| ==> x[r] == path[r - 1]
      invariant Follows(n, choices, counts, path)
      decreases if n >= 0 then n - i else 1 - i
    {
      assert mprod * m == Product(counts) by {
        if i > 0 {
          ProductStep(counts);
        }
      }
      mprod := mprod * m;
      NodesStep(n, nodes, counts, 0);
      nodes := nodes + mprod * n;
      i := i + 1;
      var prom;
      BoardRows(path, i - 1);
      x, prom := ScanLevel(n, x, i, Board(path, i - 1));
      m := |prom|;
      FollowsStep(n, choices, counts, path, prom);
      NodesStep(n, 1 + n * Weight(counts), counts, m);
      if m != 0 {
        var chosen := Pick(prom, choices[i - 1]);
        x := x[i := chosen];
        path := path + [chosen];
      }
      counts := counts + [m];
      assert counts[..i - 1] == counts[..|counts| - 1];
    }
    return Success(Descent(nodes, counts, path));
  }

  /** The column committed at every level is one of that level's promising
      columns, so the sampled rows stay pairwise non-attacking. */
  lemma DescentStaysLegal(n: int, choices: seq<nat>, counts: seq<nat>, path: seq<int>)
    requires n >= 0 && Follows(n, choices, counts, path)
    ensures Placed(n, Board(path, |path|), |path| + 1)
  {
    var x := Board(path, |path|);
    BoardRows(path, |path|);
    FollowsLevels(n, choices, counts, path);
    forall b | 1 <= b <= |path|
      ensures 1 <= x[b] <= n
      ensures forall a :: 1 <= a < b ==> !Attacks(a, x[a], b, x[b])
    {
      var p := Board(path, b - 1);
      BoardRows(path, b - 1);
      ColsUpToMembers(p, b, n);
      assert path[b - 1] in ColsUpTo(p, b, n);
      forall a | 1 <= a < b
        ensures !Attacks(a, x[a], b, x[b])
      {
        assert p[a] == x[a];
      }
    }
  }

  /** A descent that commits a column on all `n` levels ends on a complete
      legal placement, one the search reports. */
  lemma FullDescentIsReported(n: int, choices: seq<nat>, counts: seq<nat>, path: seq<int>)
    requires n >= 1 && Follows(n, choices, counts, path) && |path| == n
    ensures IsSolution(n, path)
    ensures NQueens(n).Success? && path in NQueens(n).value
  {
    DescentStaysLegal(n, choices, counts, path);
    PlacedComplete(n, Board(path, n));
    assert Board(path, n)[1..] == path;
    NQueensReportsExactlyTheSolutions(n, path);
  }

  lemma ProductPositive(c: seq<nat>)
    requires forall t :: 0 <= t < |c| ==> c[t] > 0
    ensures Product(c) >= 1
  {
    if |c| > 0 {
      ProductPositive(c[..|c| - 1]);
      assert Product(c) == Product(c[..|c| - 1]) * c[|c| - 1];
    }
  }

  /** Each level visited adds at least one unit of weight: every count above
      it is positive. */
  lemma {:induction false} WeightAtLeastLevels(c: seq<nat>)
    requires forall t :: 0 <= t < |c| - 1 ==> c[t] > 0
    ensures Weight(c) >= |c|
  {
    if |c| > 0 {
      var d := c[..|c| - 1];
      WeightAtLeastLevels(d);
      ProductPositive(d);
    }
  }

  /** The estimate credits at least `n` nodes to each level visited. */
  lemma EstimateAtLeastLevels(n: int, choices: seq<nat>, d: Descent)
    requires n >= 0 && Follows(n, choices, d.counts, d.path) && Stopped(n, d.counts, d.path)
    requires d.nodes == 1 + n * Weight(d.counts)
    ensures d.nodes >= 1 + n * |d.counts|
  {
    FollowsLevels(n, choices, d.counts, d.path);
    WeightAtLeastLevels(d.counts);
    ScaleAtLeast(n, Weight(d.counts), |d.counts|);
  }

  lemma ScaleAtLeast(n: int, a: int, b: int)
    requires n >= 0 && a >= b
    ensures n * a >= n * b
  {
  }

  /** The oracle determines the run: `Follows` and `Stopped` admit one
      descent only. */
  lemma DescentDetermined(n: int, choices: seq<nat>, c1: seq<nat>, p1: seq<int>, c2: seq<nat>, p2: seq<int>)
    requires Follows(n, choices, c1, p1) && Stopped(n, c1, p1)
    requires Follows(n, choices, c2, p2) && Stopped(n, c2, p2)
    ensures c1 == c2 && p1 == p2
  {
    var m := if |p1| <= |p2| then |p1| else |p2|;
    SharedPrefix(n, choices, c1, p1, c2, p2, m);
    assert Board(p1, m) == Board(p2, m);
    GoesOnIff(n, choices, c1, p1, m);
    GoesOnIff(n, choices, c2, p2, m);
    assert p1 == p1[..m] == p2[..m] == p2;
    FollowsLevels(n, choices, c1, p1);
    FollowsLevels(n, choices, c2, p2);
  }

  /** Two descents on the same oracle commit the same columns on the levels
      both reach. */
  lemma SharedPrefix(n: int, choices: seq<nat>, c1: seq<nat>, p1: seq<int>, c2: seq<nat>, p2: seq<int>, m: nat)
    requires Follows(n, choices, c1, p1) && Follows(n, choices, c2, p2)
    requires m <= |p1| && m <= |p2|
    ensures p1[..m] == p2[..m]
  {
    var t := 0;
    while t < m
      invariant 0 <= t <= m
      invariant p1[..t] == p2[..t]
    {
      assert p1[t] == p2[t] by {
        FollowsLevel(n, choices, c1, p1, t);
        FollowsLevel(n, choices, c2, p2, t);
        assert Board(p1, t) == Board(p2, t);
      }
      assert p1[..t + 1] == p1[..t] + [p1[t]];
      assert p2[..t + 1] == p2[..t] + [p2[t]];
      t := t + 1;
    }
  }

  /** Whether a descent goes on past level `m` depends only on the board it
      has built there: it does exactly when `m` is not the last level and the
      level has a promising column. */
  lemma GoesOnIff(n: int, choices: seq<nat>, c: seq<nat>, p: seq<int>, m: nat)
    requires Follows(n, choices, c, p) && Stopped(n, c, p) && m <= |p|
    ensures |p| > m <==> m != n && |ColsUpTo(Board(p, m), m + 1, n)| > 0
  {
    FollowsLevels(n, choices, c, p);
    if |p| == m && |p| < |c| {
      assert c[m] == 0;
    }
  }
}
