/** Prim's minimum-spanning-tree algorithm on an adjacency matrix (`primMst`):
    the quadratic version that grows a tree from vertex 0, keeping for every
    vertex outside the tree the lightest edge into it seen so far. */
module Prim {
  import opened Seqs
  import opened Graph

  /** The "infinite" key, `INT_MAX`. */
  const Inf := 0x7fff_ffff

  /** The algorithm's state: the `tree` vector split into its key (`first`)
      and parent (`second`) halves, the vertices selected so far in the order
      they were selected (the `selected` flags are membership in `order`), and
      the running cost. */
  datatype Tree = Tree(key: seq<int>, parent: seq<int>, order: seq<int>, cost: int)

  /** How the outer loop ends: every vertex selected, or the cheapest
      unselected vertex `v` has no edge into it from the tree. */
  datatype Run = Complete(tree: Tree) | Stuck(tree: Tree, v: int)

  /** An edge the algorithm can use: a nonzero weight below `Inf` (a weight of
      `Inf` or more never beats an initial key). */
  predicate Link(adj: seq<seq<int>>, u: int, v: int)
    requires IsAdjacency(adj)
  {
    0 <= u < |adj| && 0 <= v < |adj| && adj[u][v] != 0 && adj[u][v] < Inf
  }

  /** The same relation as a boolean matrix, for reachability. */
  function Usable(adj: seq<seq<int>>): (g: seq<seq<bool>>)
    requires IsAdjacency(adj)
    ensures |g| == |adj| && IsDigraph(g)
    ensures forall u, v :: 0 <= u < |adj| && 0 <= v < |adj| ==> (g[u][v] <==> Link(adj, u, v))
  {
    seq(|adj|, u requires 0 <= u < |adj| => seq(|adj|, v requires 0 <= v < |adj| => Link(adj, u, v)))
  }

  /** Key and parent vectors of the right size; the selected vertices are
      distinct vertices. */
  predicate Shaped(adj: seq<seq<int>>, st: Tree) {
    |st.key| == |adj| && |st.parent| == |adj| && Distinct(st.order) && AllBelow(st.order, |adj|)
  }

  // ---------------------------------------------------------------------
  // The algorithm

  /** The inner search for the vertex to select, from candidate `j` on with
      `v` the best so far (`-1` for none): the first unselected vertex of
      least key. */
  function PickFrom(key: seq<int>, order: seq<int>, j: int, v: int): (r: int)
    requires 0 <= j <= |key| && -1 <= v < |key|
    ensures -1 <= r < |key|
    decreases |key| - j
  {
    if j == |key| then v
    else if j !in order && (v == -1 || key[j] < key[v]) then PickFrom(key, order, j + 1, j)
    else PickFrom(key, order, j + 1, v)
  }

  /** The update loop after selecting `v`, from candidate `to` on: an
      unselected vertex whose key an edge from `v` beats takes that edge. */
  function RelaxFrom(adj: seq<seq<int>>, v: int, to: int, st: Tree): (r: Tree)
    requires IsAdjacency(adj) && 0 <= v < |adj| && 0 <= to <= |adj|
    requires |st.key| == |adj| && |st.parent| == |adj|
    ensures |r.key| == |adj| && |r.parent| == |adj| && r.order == st.order && r.cost == st.cost
    decreases |adj| - to
  {
    if to == |adj| then st
    else if adj[v][to] != 0 && to !in st.order && adj[v][to] < st.key[to] then
      RelaxFrom(adj, v, to + 1, st.(key := st.key[to := adj[v][to]], parent := st.parent[to := v]))
    else
      RelaxFrom(adj, v, to + 1, st)
  }

  /** The outer loop, one turn per selected vertex. */
  function Grow(adj: seq<seq<int>>, st: Tree): (r: Run)
    requires IsAdjacency(adj) && Shaped(adj, st)
    decreases |adj| - |st.order|
  {
    DistinctBelowBound(st.order, |adj|);
    if |st.order| == |adj| then Complete(st)
    else
      var v := PickFrom(st.key, st.order, 0, -1);
      PickFinds(adj, st);
      if st.key[v] == Inf then Stuck(st, v)
      else
        var selected := st.(order := st.order + [v], cost := st.cost + st.key[v]);
        DistinctConcat(st.order, [v]);
        Grow(adj, RelaxFrom(adj, v, 0, selected))
  }

  /** The state before the loop: vertex 0 has key 0, every other vertex the
      infinite key, no parents, nothing selected. */
  function Start(n: nat): (st: Tree) {
    Tree(seq(n, j => if j == 0 then 0 else Inf), seq(n, j => -1), [], 0)
  }

  /** `primMst`: the cost of the tree, or -1 when the loop gets stuck. */
  function PrimMst(adj: seq<seq<int>>): int
    requires IsAdjacency(adj) && |adj| > 0
  {
    match Grow(adj, Start(|adj|))
    case Complete(t) => t.cost
    case Stuck(_, _) => -1
  }

  // ---------------------------------------------------------------------
  // What the result means

  /** Keys of the listed vertices, summed in list order. */
  function SumKeys(key: seq<int>, order: seq<int>): int
    requires AllBelow(order, |key|)
  {
    if order == [] then 0 else SumKeys(key, order[..|order| - 1]) + key[order[|order| - 1]]
  }

  /** Every listed vertex after the first has a parent in range. */
  predicate Parented(n: int, parent: seq<int>, order: seq<int>)
    requires AllBelow(order, |parent|)
  {
    forall k :: 0 < k < |order| ==> 0 <= parent[order[k]] < n
  }

  /** The total weight of the parent edges of the listed vertices after the
      first (the root has no parent edge). */
  function TreeWeight(adj: seq<seq<int>>, parent: seq<int>, order: seq<int>): int
    requires IsAdjacency(adj) && |parent| == |adj| && AllBelow(order, |adj|)
    requires Parented(|adj|, parent, order)
  {
    if |order| <= 1 then 0
    else
      var u := order[|order| - 1];
      TreeWeight(adj, parent, order[..|order| - 1]) + adj[parent[u]][u]
  }

  /** `parent` describes a spanning tree of the usable edges rooted at 0:
      `order` lists every vertex once, starting at 0, and every other vertex
      is joined by a usable edge to a parent listed before it. */
  ghost predicate SpanningTree(adj: seq<seq<int>>, parent: seq<int>, order: seq<int>)
    requires IsAdjacency(adj)
  {
    |parent| == |adj| && |order| == |adj| && |order| > 0 && order[0] == 0 &&
    Distinct(order) && AllBelow(order, |adj|) &&
    forall k :: 0 < k < |order| ==> parent[order[k]] in order[..k] && Link(adj, parent[order[k]], order[k])
  }

  /** Every vertex can be reached from vertex 0 along usable edges. */
  ghost predicate Connected(adj: seq<seq<int>>)
    requires IsAdjacency(adj)
  {
    forall v :: 0 <= v < |adj| ==> Reachable(Usable(adj), 0, v)
  }

  // ---------------------------------------------------------------------
  // What every turn keeps

  /** `v` is the first unselected vertex (below `j`) of least key. */
  ghost predicate Least(key: seq<int>, order: seq<int>, v: int, j: int)
    requires 0 <= v < |key| && j <= |key|
  {
    forall u :: 0 <= u < j && u !in order ==> key[v] <= key[u] && (u < v ==> key[v] < key[u])
  }

  /** The `k`-th selected vertex hangs by a usable edge, weighing its key,
      from a vertex selected before it. */
  ghost predicate Joined(adj: seq<seq<int>>, st: Tree, k: int)
    requires IsAdjacency(adj) && Shaped(adj, st) && 0 <= k < |st.order|
  {
    var u := st.order[k];
    st.parent[u] in st.order[..k] && Link(adj, st.parent[u], u) && adj[st.parent[u]][u] == st.key[u]
  }

  /** The selected vertices form a tree rooted at 0 and the cost is the sum
      of their keys. */
  ghost predicate Grown(adj: seq<seq<int>>, st: Tree)
    requires IsAdjacency(adj) && Shaped(adj, st)
  {
    |st.order| > 0 && st.order[0] == 0 && st.key[0] == 0 &&
    (forall k :: 0 < k < |st.order| ==> Joined(adj, st, k)) &&
    st.cost == SumKeys(st.key, st.order)
  }

  /** An unselected vertex with a finite key is offered an edge of that weight
      from a selected parent. */
  ghost predicate Offered(adj: seq<seq<int>>, st: Tree, u: int)
    requires IsAdjacency(adj) && Shaped(adj, st) && 0 <= u < |adj|
  {
    st.parent[u] in st.order && Link(adj, st.parent[u], u) && adj[st.parent[u]][u] == st.key[u]
  }

  /** Keys of unselected vertices are at most `Inf`, and finite ones are
      offered. */
  ghost predicate Frontier(adj: seq<seq<int>>, st: Tree)
    requires IsAdjacency(adj) && Shaped(adj, st)
  {
    forall u :: 0 <= u < |adj| && u !in st.order ==> st.key[u] <= Inf && (st.key[u] < Inf ==> Offered(adj, st, u))
  }

  /** No usable edge from a selected vertex is lighter than the key of the
      unselected vertex it enters. */
  ghost predicate Lightest(adj: seq<seq<int>>, st: Tree)
    requires IsAdjacency(adj) && Shaped(adj, st)
  {
    forall a, u :: a in st.order && 0 <= u < |adj| && u !in st.order && Link(adj, a, u) ==> st.key[u] <= adj[a][u]
  }

  ghost predicate Inv(adj: seq<seq<int>>, st: Tree)
    requires IsAdjacency(adj)
  {
    Shaped(adj, st) && Grown(adj, st) && Frontier(adj, st) && Lightest(adj, st)
  }

  // ---------------------------------------------------------------------
  // Helpers the definitions need

  /** While some vertex is unselected the search finds one. */
  lemma PickFinds(adj: seq<seq<int>>, st: Tree)
    requires Shaped(adj, st) && |st.order| < |adj|
    ensures var v := PickFrom(st.key, st.order, 0, -1); 0 <= v < |adj| && v !in st.order
  {
    PickFromFinds(st.key, st.order, 0, -1);
    var v := PickFrom(st.key, st.order, 0, -1);
    if v == -1 {
      assert Range(|adj|) <= Elems(st.order);
      SubsetCard(Range(|adj|), Elems(st.order));
      DistinctCard(st.order);
      assert false;
    }
  }

  lemma {:induction false} PickFromFinds(key: seq<int>, order: seq<int>, j: int, v: int)
    requires 0 <= j <= |key| && -1 <= v < |key| && (v == -1 || v !in order)
    ensures var r := PickFrom(key, order, j, v);
      (r == -1 || r !in order) && (r == -1 ==> v == -1 && forall u :: j <= u < |key| ==> u in order)
    decreases |key| - j
  {
    if j < |key| {
      if j !in order && (v == -1 || key[j] < key[v]) {
        PickFromFinds(key, order, j + 1, j);
      } else {
        PickFromFinds(key, order, j + 1, v);
      }
    }
  }
}
