/** Adjacency matrices and reachability, the vocabulary of the traversal, sort
    and spanning-tree models. */
module Graph {
  import opened Seqs

  /** An `n`-vertex adjacency matrix as the traversals read it: every row has
      an entry for each of the `n` vertices. */
  predicate IsAdjacency(adj: seq<seq<int>>) {
    forall u :: 0 <= u < |adj| ==> |adj[u]| >= |adj|
  }

  /** A square boolean edge relation. */
  predicate IsDigraph(g: seq<seq<bool>>) {
    forall u :: 0 <= u < |g| ==> |g[u]| == |g|
  }

  /** The edge relation of an adjacency matrix: any nonzero entry is an edge. */
  function Links(adj: seq<seq<int>>): (g: seq<seq<bool>>)
    requires IsAdjacency(adj)
    ensures |g| == |adj| && IsDigraph(g)
    ensures forall u, v :: 0 <= u < |adj| && 0 <= v < |adj| ==> (g[u][v] <==> adj[u][v] != 0)
  {
    seq(|adj|, u requires 0 <= u < |adj| => seq(|adj|, v requires 0 <= v < |adj| => adj[u][v] != 0))
  }

  /** The same relation with every edge into vertex `t` removed. */
  function WithoutEdgesInto(g: seq<seq<bool>>, t: int): (h: seq<seq<bool>>)
    requires IsDigraph(g)
    ensures |h| == |g| && IsDigraph(h)
    ensures forall u, v :: 0 <= u < |g| && 0 <= v < |g| ==> (h[u][v] <==> g[u][v] && v != t)
  {
    seq(|g|, u requires 0 <= u < |g| => seq(|g|, v requires 0 <= v < |g| => g[u][v] && v != t))
  }

  /** A non-empty list of vertices, each joined to the next by an edge. */
  predicate Walk(g: seq<seq<bool>>, p: seq<int>) {
    |p| > 0 && AllBelow(p, |g|) &&
    forall k :: 0 <= k < |p| - 1 ==> p[k + 1] < |g[p[k]]| && g[p[k]][p[k + 1]]
  }

  /** Some walk leads from `u` to `v` (every vertex reaches itself). */
  ghost predicate Reachable(g: seq<seq<bool>>, u: int, v: int) {
    exists p :: Walk(g, p) && p[0] == u && p[|p| - 1] == v
  }

  /** No edge leaves the set `s`. */
  ghost predicate Closed(g: seq<seq<bool>>, s: set<int>)
    requires IsDigraph(g)
  {
    forall a, b :: a in s && 0 <= a < |g| && 0 <= b < |g| && g[a][b] ==> b in s
  }

  /** Some walk of at least one edge leads from a vertex back to itself. */
  ghost predicate HasCycle(g: seq<seq<bool>>) {
    exists p :: Walk(g, p) && |p| > 1 && p[0] == p[|p| - 1]
  }

  lemma ReachableSelf(g: seq<seq<bool>>, u: int)
    requires 0 <= u < |g|
    ensures Reachable(g, u, u)
  {
    assert Walk(g, [u]);
  }

  /** A reachable vertex extends by one edge. */
  lemma ReachableStep(g: seq<seq<bool>>, u: int, w: int, v: int)
    requires IsDigraph(g) && Reachable(g, u, w)
    requires 0 <= w < |g| && 0 <= v < |g| && g[w][v]
    ensures Reachable(g, u, v)
  {
    var p :| Walk(g, p) && p[0] == u && p[|p| - 1] == w;
    var q := p + [v];
    assert q[|q| - 2] == w;
    assert Walk(g, q);
  }

  /** Every walk that starts inside a closed set stays inside it. */
  lemma {:induction false} WalkStaysInside(g: seq<seq<bool>>, s: set<int>, p: seq<int>)
    requires IsDigraph(g) && Closed(g, s)
    requires Walk(g, p) && p[0] in s
    ensures p[|p| - 1] in s
  {
    if |p| > 1 {
      var q := p[..|p| - 1];
      assert Walk(g, q);
      WalkStaysInside(g, s, q);
      assert g[q[|q| - 1]][p[|p| - 1]];
    }
  }

  /** A closed set containing `u` contains everything `u` reaches. */
  lemma ClosedHoldsReachable(g: seq<seq<bool>>, s: set<int>, u: int, v: int)
    requires IsDigraph(g) && Closed(g, s) && u in s
    requires Reachable(g, u, v)
    ensures v in s
  {
    var p :| Walk(g, p) && p[0] == u && p[|p| - 1] == v;
    WalkStaysInside(g, s, p);
  }

  /** Walks compose. */
  lemma ReachableTrans(g: seq<seq<bool>>, u: int, w: int, v: int)
    requires Reachable(g, u, w) && Reachable(g, w, v)
    ensures Reachable(g, u, v)
  {
    var p :| Walk(g, p) && p[0] == u && p[|p| - 1] == w;
    var q :| Walk(g, q) && q[0] == w && q[|q| - 1] == v;
    var r := p + q[1..];
    forall k | 0 <= k < |r| - 1
      ensures r[k + 1] < |g[r[k]]| && g[r[k]][r[k + 1]]
    {
      if k < |p| - 1 {
        assert r[k] == p[k] && r[k + 1] == p[k + 1];
      } else {
        assert r[k] == q[k - |p| + 1] && r[k + 1] == q[k - |p| + 2];
      }
    }
    assert Walk(g, r);
  }

  /** An edge back into a vertex that reaches its source closes a cycle. */
  lemma EdgeBackIsCycle(g: seq<seq<bool>>, w: int, u: int)
    requires IsDigraph(g) && Reachable(g, w, u)
    requires 0 <= u < |g| && 0 <= w < |g| && g[u][w]
    ensures HasCycle(g)
  {
    var p :| Walk(g, p) && p[0] == w && p[|p| - 1] == u;
    var q := p + [w];
    assert q[|q| - 2] == u;
    assert Walk(g, q) && |q| > 1 && q[0] == q[|q| - 1];
  }

  /** Every vertex of `path` has all its successors in `visited`: the
      vertices a traversal has finished with. */
  ghost predicate Explored(g: seq<seq<bool>>, visited: set<int>, path: seq<int>)
    requires IsDigraph(g)
  {
    forall k, x :: 0 <= k < |path| && 0 <= path[k] < |g| && 0 <= x < |g| && g[path[k]][x] ==> x in visited
  }

  /** Finishing `v` once its successors are in `flagged` keeps `Explored`. */
  lemma ExploredStep(g: seq<seq<bool>>, visited: set<int>, path: seq<int>, v: int, flagged: set<int>)
    requires IsDigraph(g) && Explored(g, visited, path) && visited <= flagged
    requires forall x :: 0 <= x < |g| && 0 <= v < |g| && g[v][x] ==> x in flagged
    ensures Explored(g, flagged, path + [v])
  {
    var path' := path + [v];
    forall k, x | 0 <= k < |path'| && 0 <= path'[k] < |g| && 0 <= x < |g| && g[path'[k]][x]
      ensures x in flagged
    {
      if k < |path| {
        assert path'[k] == path[k];
      }
    }
  }

  /** The five-vertex graph of the test suite: 0 -> 1, 0 -> 2, 1 -> 3, 2 -> 4. */
  const Sample: seq<seq<int>> := [[0, 1, 1, 0, 0], [0, 0, 0, 1, 0], [0, 0, 0, 0, 1], [0, 0, 0, 0, 0], [0, 0, 0, 0, 0]]

  lemma SampleIsAdjacency()
    ensures IsAdjacency(Sample)
  {
  }
}
