/** What `primMst` computes: on a graph where every vertex is reachable from
    vertex 0 it returns the weight of the spanning tree it builds; otherwise
    it returns -1. */
module PrimProofs {
  import opened Seqs
  import opened Graph
  import opened Prim

  // ---------------------------------------------------------------------
  // The two inner loops

  /** The search returns the first unselected vertex of least key. */
  lemma {:induction false} PickFromLeast(key: seq<int>, order: seq<int>, j: int, v: int)
    requires 0 <= j <= |key| && -1 <= v < |key|
    requires v == -1 ==> forall u :: 0 <= u < j ==> u in order
    requires v != -1 ==> v !in order && v < j && Least(key, order, v, j)
    ensures var r := PickFrom(key, order, j, v);
      r != -1 ==> r !in order && Least(key, order, r, |key|)
    decreases |key| - j
  {
    if j < |key| {
      if j !in order && (v == -1 || key[j] < key[v]) {
        PickFromLeast(key, order, j + 1, j);
      } else {
        PickFromLeast(key, order, j + 1, v);
      }
    }
  }

  /** The vertex a turn selects: unselected, and the first of least key. */
  lemma PickLeast(adj: seq<seq<int>>, st: Tree)
    requires Shaped(adj, st) && |st.order| < |adj|
    ensures var v := PickFrom(st.key, st.order, 0, -1);
      0 <= v < |adj| && v !in st.order && Least(st.key, st.order, v, |adj|)
  {
    PickFinds(adj, st);
    PickFromLeast(st.key, st.order, 0, -1);
  }

  /** The update loop, vertex by vertex: `u` takes the edge from `v` exactly
      when it is unselected, at or after `to`, and the edge is nonzero and
      lighter than its key; otherwise its key and parent stay. */
  lemma {:induction false} RelaxPointwise(adj: seq<seq<int>>, v: int, to: int, st: Tree, u: int)
    requires IsAdjacency(adj) && 0 <= v < |adj| && 0 <= to <= |adj|
    requires |st.key| == |adj| && |st.parent| == |adj| && 0 <= u < |adj|
    ensures var r := RelaxFrom(adj, v, to, st);
      var hit := to <= u && adj[v][u] != 0 && u !in st.order && adj[v][u] < st.key[u];
      r.key[u] == (if hit then adj[v][u] else st.key[u]) &&
      r.parent[u] == (if hit then v else st.parent[u])
    decreases |adj| - to
  {
    if to < |adj| {
      if adj[v][to] != 0 && to !in st.order && adj[v][to] < st.key[to] {
        RelaxPointwise(adj, v, to + 1, st.(key := st.key[to := adj[v][to]], parent := st.parent[to := v]), u);
      } else {
        RelaxPointwise(adj, v, to + 1, st, u);
      }
    }
  }

  // ---------------------------------------------------------------------
  // Sums

  /** The key sum reads only the keys of the listed vertices. */
  lemma {:induction false} SumKeysFrame(key: seq<int>, key': seq<int>, order: seq<int>)
    requires AllBelow(order, |key|) && |key'| == |key|
    requires forall k :: 0 <= k < |order| ==> key'[order[k]] == key[order[k]]
    ensures SumKeys(key', order) == SumKeys(key, order)
    decreases |order|
  {
    if order != [] {
      SumKeysFrame(key, key', order[..|order| - 1]);
    }
  }

  /** Selecting one more vertex adds its key. */
  lemma SumKeysAppend(key: seq<int>, order: seq<int>, v: int)
    requires AllBelow(order, |key|) && 0 <= v < |key|
    ensures SumKeys(key, order + [v]) == SumKeys(key, order) + key[v]
  {
    assert (order + [v])[..|order|] == order;
  }

  /** With the root's key 0 and every other key the weight of its parent
      edge, the key sum is the tree's weight. */
  lemma {:induction false} SumKeysIsWeight(adj: seq<seq<int>>, st: Tree, m: int)
    requires IsAdjacency(adj) && Shaped(adj, st) && Grown(adj, st) && 0 < m <= |st.order|
    ensures Parented(|adj|, st.parent, st.order[..m])
    ensures SumKeys(st.key, st.order[..m]) == TreeWeight(adj, st.parent, st.order[..m])
    decreases m
  {
    var p := st.order[..m];
    forall k | 0 < k < |p|
      ensures 0 <= st.parent[p[k]] < |adj|
    {
      assert Joined(adj, st, k);
    }
    if m == 1 {
      assert p[..0] == [];
    } else {
      SumKeysIsWeight(adj, st, m - 1);
      assert p[..m - 1] == st.order[..m - 1];
      assert Joined(adj, st, m - 1);
    }
  }

  // ---------------------------------------------------------------------
  // One turn

  /** Selecting the picked vertex keeps the selected part a tree. */
  lemma SelectGrown(adj: seq<seq<int>>, st: Tree, v: int)
    requires IsAdjacency(adj) && Inv(adj, st)
    requires 0 <= v < |adj| && v !in st.order && st.key[v] < Inf
    ensures var sel := st.(order := st.order + [v], cost := st.cost + st.key[v]);
      Shaped(adj, sel) && Grown(adj, sel)
  {
    var sel := st.(order := st.order + [v], cost := st.cost + st.key[v]);
    DistinctConcat(st.order, [v]);
    assert sel.order[..|st.order|] == st.order;
    forall k | 0 < k < |sel.order|
      ensures Joined(adj, sel, k)
    {
      if k < |st.order| {
        assert Joined(adj, st, k);
        assert sel.order[..k] == st.order[..k];
      } else {
        assert Offered(adj, st, v);
      }
    }
    SumKeysAppend(st.key, st.order, v);
  }

  /** The update loop leaves the selected vertices alone. */
  lemma RelaxGrown(adj: seq<seq<int>>, v: int, sel: Tree)
    requires IsAdjacency(adj) && 0 <= v < |adj| && Shaped(adj, sel) && Grown(adj, sel)
    ensures var r := RelaxFrom(adj, v, 0, sel); Shaped(adj, r) && Grown(adj, r)
  {
    var r := RelaxFrom(adj, v, 0, sel);
    forall k | 0 <= k < |sel.order|
      ensures r.key[sel.order[k]] == sel.key[sel.order[k]] && r.parent[sel.order[k]] == sel.parent[sel.order[k]]
    {
      RelaxPointwise(adj, v, 0, sel, sel.order[k]);
    }
    forall k | 0 < k < |r.order|
      ensures Joined(adj, r, k)
    {
      assert Joined(adj, sel, k);
    }
    RelaxPointwise(adj, v, 0, sel, 0);
    SumKeysFrame(sel.key, r.key, sel.order);
  }

  /** After the update loop every unselected vertex with a finite key is
      offered an edge of that weight. */
  lemma RelaxFrontier(adj: seq<seq<int>>, st: Tree, v: int)
    requires IsAdjacency(adj) && Inv(adj, st)
    requires 0 <= v < |adj| && v !in st.order
    ensures var sel := st.(order := st.order + [v], cost := st.cost + st.key[v]);
      Shaped(adj, sel) && Frontier(adj, RelaxFrom(adj, v, 0, sel))
  {
    var sel := st.(order := st.order + [v], cost := st.cost + st.key[v]);
    DistinctConcat(st.order, [v]);
    var r := RelaxFrom(adj, v, 0, sel);
    forall u | 0 <= u < |adj| && u !in r.order
      ensures r.key[u] <= Inf && (r.key[u] < Inf ==> Offered(adj, r, u))
    {
      RelaxPointwise(adj, v, 0, sel, u);
    }
  }

  /** After the update loop no edge from the tree, including the new
      vertex's, beats an unselected key. */
  lemma RelaxLightest(adj: seq<seq<int>>, st: Tree, v: int)
    requires IsAdjacency(adj) && Inv(adj, st)
    requires 0 <= v < |adj| && v !in st.order
    ensures var sel := st.(order := st.order + [v], cost := st.cost + st.key[v]);
      Shaped(adj, sel) && Lightest(adj, RelaxFrom(adj, v, 0, sel))
  {
    var sel := st.(order := st.order + [v], cost := st.cost + st.key[v]);
    DistinctConcat(st.order, [v]);
    var r := RelaxFrom(adj, v, 0, sel);
    forall a, u | a in r.order && 0 <= u < |adj| && u !in r.order && Link(adj, a, u)
      ensures r.key[u] <= adj[a][u]
    {
      RelaxPointwise(adj, v, 0, sel, u);
    }
  }

  /** A turn that selects a vertex of finite key keeps the invariant. */
  lemma SelectKeeps(adj: seq<seq<int>>, st: Tree, v: int)
    requires IsAdjacency(adj) && Inv(adj, st)
    requires 0 <= v < |adj| && v !in st.order && st.key[v] < Inf
    ensures var sel := st.(order := st.order + [v], cost := st.cost + st.key[v]);
      Shaped(adj, sel) && Inv(adj, RelaxFrom(adj, v, 0, sel))
  {
    SelectGrown(adj, st, v);
    RelaxGrown(adj, v, st.(order := st.order + [v], cost := st.cost + st.key[v]));
    RelaxFrontier(adj, st, v);
    RelaxLightest(adj, st, v);
  }

  // ---------------------------------------------------------------------
  // How the loop ends

  /** Every selected vertex is reachable from 0 along its parent edges. */
  lemma {:induction false} TreeReaches(adj: seq<seq<int>>, st: Tree, k: int)
    requires IsAdjacency(adj) && Shaped(adj, st) && Grown(adj, st) && 0 <= k < |st.order|
    ensures Reachable(Usable(adj), 0, st.order[k])
    decreases k
  {
    if k == 0 {
      ReachableSelf(Usable(adj), 0);
    } else {
      assert Joined(adj, st, k);
      var p := st.parent[st.order[k]];
      var j :| 0 <= j < k && st.order[..k][j] == p;
      TreeReaches(adj, st, j);
      ReachableStep(Usable(adj), 0, p, st.order[k]);
    }
  }

  /** With every vertex selected, the parents form a spanning tree whose
      weight is the cost, and the graph is connected. */
  lemma CompleteSpans(adj: seq<seq<int>>, st: Tree)
    requires IsAdjacency(adj) && Inv(adj, st) && |st.order| == |adj|
    ensures Connected(adj)
    ensures SpanningTree(adj, st.parent, st.order) && Parented(|adj|, st.parent, st.order)
    ensures st.cost == TreeWeight(adj, st.parent, st.order)
  {
    forall k | 0 < k < |st.order|
      ensures st.parent[st.order[k]] in st.order[..k] && Link(adj, st.parent[st.order[k]], st.order[k])
    {
      assert Joined(adj, st, k);
    }
    SumKeysIsWeight(adj, st, |st.order|);
    assert st.order[..|st.order|] == st.order;
    DistinctCard(st.order);
    assert Elems(st.order) <= Range(|adj|);
    SubsetSameCard(Elems(st.order), Range(|adj|));
    forall v | 0 <= v < |adj|
      ensures Reachable(Usable(adj), 0, v)
    {
      assert v in Elems(st.order);
      var k :| 0 <= k < |st.order| && st.order[k] == v;
      TreeReaches(adj, st, k);
    }
  }

  /** When the cheapest unselected vertex has the infinite key, no usable
      edge leaves the tree, so that vertex is unreachable from 0. */
  lemma StuckUnreached(adj: seq<seq<int>>, st: Tree, v: int)
    requires IsAdjacency(adj) && Inv(adj, st)
    requires 0 <= v < |adj| && v !in st.order && Least(st.key, st.order, v, |adj|) && st.key[v] == Inf
    ensures !Reachable(Usable(adj), 0, v)
    ensures !Connected(adj)
  {
    var g := Usable(adj);
    var s := Elems(st.order);
    assert Closed(g, s);
    assert st.order[0] in s;
    if Reachable(g, 0, v) {
      ClosedHoldsReachable(g, s, 0, v);
    }
  }

  /** One turn of the outer loop that selects a vertex of finite key. */
  lemma GrowSelects(adj: seq<seq<int>>, st: Tree, v: int)
    requires IsAdjacency(adj) && Shaped(adj, st) && |st.order| < |adj|
    requires v == PickFrom(st.key, st.order, 0, -1) && 0 <= v < |adj| && v !in st.order && st.key[v] < Inf
    ensures var sel := st.(order := st.order + [v], cost := st.cost + st.key[v]);
      Shaped(adj, sel) && Grow(adj, st) == Grow(adj, RelaxFrom(adj, v, 0, sel))
  {
    DistinctConcat(st.order, [v]);
  }

  /** The outer loop completes exactly on a connected graph, and then with a
      spanning tree whose weight is the cost. */
  lemma {:induction false} GrowSpans(adj: seq<seq<int>>, st: Tree) returns (run: Run)
    requires IsAdjacency(adj) && Inv(adj, st)
    ensures run == Grow(adj, st)
    ensures run.Complete? <==> Connected(adj)
    ensures run.Complete? ==> SpanningTree(adj, run.tree.parent, run.tree.order) &&
                              Parented(|adj|, run.tree.parent, run.tree.order) &&
                              run.tree.cost == TreeWeight(adj, run.tree.parent, run.tree.order)
    decreases |adj| - |st.order|
  {
    DistinctBelowBound(st.order, |adj|);
    if |st.order| == |adj| {
      CompleteSpans(adj, st);
      run := Complete(st);
    } else {
      var v := PickFrom(st.key, st.order, 0, -1);
      PickLeast(adj, st);
      if st.key[v] == Inf {
        StuckUnreached(adj, st, v);
        run := Stuck(st, v);
      } else {
        SelectKeeps(adj, st, v);
        GrowSelects(adj, st, v);
        run := GrowSpans(adj, RelaxFrom(adj, v, 0, st.(order := st.order + [v], cost := st.cost + st.key[v])));
      }
    }
  }

  /** The first turn selects vertex 0, the only vertex with a finite key,
      and establishes the invariant. */
  lemma FirstTurn(adj: seq<seq<int>>)
    requires IsAdjacency(adj) && |adj| > 0
    ensures var s := Start(|adj|);
      var first := RelaxFrom(adj, 0, 0, s.(order := [0]));
      Inv(adj, first) && Grow(adj, s) == Grow(adj, first)
  {
    var s := Start(|adj|);
    var sel := s.(order := [0]);
    PickLeast(adj, s);
    var v := PickFrom(s.key, s.order, 0, -1);
    assert v == 0;
    GrowSelects(adj, s, 0);
    var r := RelaxFrom(adj, 0, 0, sel);
    assert sel == s.(order := s.order + [0], cost := s.cost + s.key[0]);
    RelaxPointwise(adj, 0, 0, sel, 0);
    assert r.order == [0] && r.key[0] == 0;
    assert SumKeys(r.key, r.order) == 0 by {
      assert r.order[..0] == [];
    }
    forall u | 0 <= u < |adj| && u !in r.order
      ensures r.key[u] <= Inf && (r.key[u] < Inf ==> Offered(adj, r, u))
    {
      RelaxPointwise(adj, 0, 0, sel, u);
    }
    forall a, u | a in r.order && 0 <= u < |adj| && u !in r.order && Link(adj, a, u)
      ensures r.key[u] <= adj[a][u]
    {
      RelaxPointwise(adj, 0, 0, sel, u);
    }
  }

  /** `primMst` on a connected graph returns the weight of a spanning tree of
      its usable edges (the one the parent entries describe); otherwise it
      returns -1. */
  lemma PrimMstSpans(adj: seq<seq<int>>)
    requires IsAdjacency(adj) && |adj| > 0
    ensures var run := Grow(adj, Start(|adj|));
      (run.Complete? <==> Connected(adj)) &&
      (run.Complete? ==> SpanningTree(adj, run.tree.parent, run.tree.order) &&
                         Parented(|adj|, run.tree.parent, run.tree.order) &&
                         PrimMst(adj) == TreeWeight(adj, run.tree.parent, run.tree.order))
    ensures !Connected(adj) ==> PrimMst(adj) == -1
  {
    FirstTurn(adj);
    var run := GrowSpans(adj, RelaxFrom(adj, 0, 0, Start(|adj|).(order := [0])));
  }
}
