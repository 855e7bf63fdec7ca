/** `primMst` on the weighted square of the repository's unit test, followed
    turn by turn: vertex 0, then 1 (key 1), then 2 (key 2), then 3, whose key
    the edge from 2 lowered from 3 to 1. */
module PrimExamples {
  import opened Seqs
  import opened Graph
  import opened Prim
  import opened PrimProofs

  /** Edges 0-1 (1), 0-2 (2), 1-3 (3) and 2-3 (1). */
  const Square: seq<seq<int>> := [[0, 1, 2, 0], [1, 0, 0, 3], [2, 0, 0, 1], [0, 3, 1, 0]]

  /** One turn that selects `v` and leaves `st'`, described cell by cell. */
  lemma OneTurn(adj: seq<seq<int>>, st: Tree, v: int, st': Tree)
    requires IsAdjacency(adj) && Shaped(adj, st) && |st.order| < |adj|
    requires 0 <= v < |adj| && v !in st.order && st.key[v] < Inf && Least(st.key, st.order, v, |adj|)
    requires Relaxed(adj, st.(order := st.order + [v], cost := st.cost + st.key[v]), v, st')
    ensures Shaped(adj, st') && Grow(adj, st) == Grow(adj, st')
  {
    Picks(adj, st, v);
    GrowSelects(adj, st, v);
    RelaxIs(adj, st.(order := st.order + [v], cost := st.cost + st.key[v]), v, st');
  }

  /** `st'` is `sel` after the update loop from `v`, cell by cell. */
  ghost predicate Relaxed(adj: seq<seq<int>>, sel: Tree, v: int, st': Tree)
    requires IsAdjacency(adj) && 0 <= v < |adj|
  {
    |sel.key| == |adj| && |sel.parent| == |adj| &&
    |st'.key| == |adj| && |st'.parent| == |adj| && st'.order == sel.order && st'.cost == sel.cost &&
    forall u :: 0 <= u < |adj| ==>
      var hit := adj[v][u] != 0 && u !in sel.order && adj[v][u] < sel.key[u];
      st'.key[u] == (if hit then adj[v][u] else sel.key[u]) && st'.parent[u] == (if hit then v else sel.parent[u])
  }

  /** The search finds the first unselected vertex of least key. */
  lemma Picks(adj: seq<seq<int>>, st: Tree, v: int)
    requires Shaped(adj, st) && |st.order| < |adj|
    requires 0 <= v < |adj| && v !in st.order && Least(st.key, st.order, v, |adj|)
    ensures PickFrom(st.key, st.order, 0, -1) == v
  {
    PickLeast(adj, st);
  }

  /** The update loop leaves the state described cell by cell. */
  lemma RelaxIs(adj: seq<seq<int>>, sel: Tree, v: int, st': Tree)
    requires IsAdjacency(adj) && 0 <= v < |adj| && Relaxed(adj, sel, v, st')
    ensures RelaxFrom(adj, v, 0, sel) == st'
  {
    var r := RelaxFrom(adj, v, 0, sel);
    forall u | 0 <= u < |adj|
      ensures r.key[u] == st'.key[u] && r.parent[u] == st'.parent[u]
    {
      RelaxPointwise(adj, v, 0, sel, u);
    }
    assert r.key == st'.key && r.parent == st'.parent;
  }

  /** The matrix's rows. */
  lemma SquareRows(adj: seq<seq<int>>)
    requires adj == Square
    ensures IsAdjacency(adj) && |adj| == 4
    ensures adj[0] == [0, 1, 2, 0] && adj[1] == [1, 0, 0, 3] && adj[2] == [2, 0, 0, 1] && adj[3] == [0, 3, 1, 0]
  {
  }

  /** The states after each turn. */
  const S0 := Tree([0, Inf, Inf, Inf], [-1, -1, -1, -1], [], 0)
  const S1 := Tree([0, 1, 2, Inf], [-1, 0, 0, -1], [0], 0)
  const S2 := Tree([0, 1, 2, 3], [-1, 0, 0, 1], [0, 1], 1)
  const S3 := Tree([0, 1, 2, 1], [-1, 0, 0, 2], [0, 1, 2], 3)
  const S4 := Tree([0, 1, 2, 1], [-1, 0, 0, 2], [0, 1, 2, 3], 4)

  lemma SquareTurn1(adj: seq<seq<int>>)
    requires adj == Square
    ensures IsAdjacency(adj) && Shaped(adj, S0) && Shaped(adj, S1) && Grow(adj, S0) == Grow(adj, S1)
  {
    SquareRows(adj);
    OneTurn(adj, S0, 0, S1);
  }

  lemma SquareTurn2(adj: seq<seq<int>>)
    requires adj == Square
    ensures IsAdjacency(adj) && Shaped(adj, S1) && Shaped(adj, S2) && Grow(adj, S1) == Grow(adj, S2)
  {
    SquareRows(adj);
    OneTurn(adj, S1, 1, S2);
  }

  lemma SquareTurn3(adj: seq<seq<int>>)
    requires adj == Square
    ensures IsAdjacency(adj) && Shaped(adj, S2) && Shaped(adj, S3) && Grow(adj, S2) == Grow(adj, S3)
  {
    SquareRows(adj);
    OneTurn(adj, S2, 2, S3);
  }

  lemma SquareTurn4(adj: seq<seq<int>>)
    requires adj == Square
    ensures IsAdjacency(adj) && Shaped(adj, S3) && Shaped(adj, S4) && Grow(adj, S3) == Grow(adj, S4)
  {
    SquareRows(adj);
    OneTurn(adj, S3, 3, S4);
  }

  /** The test's expected result: the tree 0-1, 0-2, 2-3 of weight 4. */
  lemma SquareMst(adj: seq<seq<int>>)
    requires adj == Square
    ensures IsAdjacency(adj) && |adj| > 0 && PrimMst(adj) == 4
  {
    SquareRows(adj);
    assert Start(|adj|) == S0;
    SquareTurn1(adj);
    SquareTurn2(adj);
    SquareTurn3(adj);
    SquareTurn4(adj);
    assert Grow(adj, S4) == Complete(S4);
  }
}
