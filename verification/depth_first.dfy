/** The recursive depth-first search (`rdfs` and its helper) and the
    topological sort built from the same helper. */
module DepthFirst {
  import opened Seqs
  import opened Graph

  /** The state the helper threads through its calls: the flagged vertices
      and the post-order emitted so far. */
  datatype Trail = Trail(visited: set<int>, path: seq<int>)

  // ---------------------------------------------------------------------
  // The helper, as a pair of mutually recursive functions

  /** `rdfsHelper`: flag `root`, descend into every unflagged successor in
      ascending order, then emit `root`. */
  function Visit(adj: seq<seq<int>>, root: int, t: Trail): (r: Trail)
    requires IsAdjacency(adj) && 0 <= root < |adj| && t.visited <= Range(|adj|)
    ensures t.visited + {root} <= r.visited <= Range(|adj|)
    decreases |adj| - |t.visited|, if root in t.visited then 2 else 0, 0
  {
    var flagged := Trail(t.visited + {root}, t.path);
    SubsetCard(t.visited, Range(|adj|));
    SubsetCard(flagged.visited, Range(|adj|));
    assert root in t.visited ==> flagged.visited == t.visited;
    var after := VisitFrom(adj, root, 0, flagged);
    Trail(after.visited, after.path + [root])
  }

  /** The `for` loop of the helper, from successor candidate `i` on. */
  function VisitFrom(adj: seq<seq<int>>, root: int, i: int, t: Trail): (r: Trail)
    requires IsAdjacency(adj) && 0 <= root < |adj| && 0 <= i <= |adj| && t.visited <= Range(|adj|)
    ensures t.visited <= r.visited <= Range(|adj|)
    decreases |adj| - |t.visited|, 1, |adj| - i
  {
    if i == |adj| then t
    else if adj[root][i] != 0 && i !in t.visited then
      var t' := Visit(adj, i, t);
      SubsetCard(t'.visited, Range(|adj|));
      SubsetCard(t.visited, t'.visited);
      VisitFrom(adj, root, i + 1, t')
    else
      VisitFrom(adj, root, i + 1, t)
  }

  /** `rdfs`: the helper run from `root` with nothing flagged. */
  function Rdfs(adj: seq<seq<int>>, root: int): seq<int>
    requires IsAdjacency(adj) && 0 <= root < |adj|
  {
    Visit(adj, root, Trail({}, [])).path
  }

  /** The loop of `topologicalSort`: run the helper from every vertex not yet
      flagged, in ascending order. */
  function TopoLoop(adj: seq<seq<int>>, i: int, t: Trail): (r: Trail)
    requires IsAdjacency(adj) && 0 <= i <= |adj| && t.visited <= Range(|adj|)
    ensures t.visited <= r.visited <= Range(|adj|)
    decreases |adj| - i
  {
    if i == |adj| then t else TopoLoop(adj, i + 1, Start(adj, i, t))
  }

  /** One turn of that loop: search from `i` unless it is already flagged. */
  function Start(adj: seq<seq<int>>, i: int, t: Trail): (r: Trail)
    requires IsAdjacency(adj) && 0 <= i < |adj| && t.visited <= Range(|adj|)
    ensures t.visited + {i} <= r.visited <= Range(|adj|)
  {
    if i in t.visited then t else Visit(adj, i, t)
  }

  /** `topologicalSort`: the reversed post-order of all searches. */
  function TopologicalSort(adj: seq<seq<int>>): seq<int>
    requires IsAdjacency(adj)
  {
    Reverse(TopoLoop(adj, 0, Trail({}, [])).path)
  }

  // ---------------------------------------------------------------------
  // What every call keeps

  /** Flags stay within range, the post-order lists distinct flagged
      vertices, and every emitted vertex has all its successors flagged. */
  ghost predicate Good(adj: seq<seq<int>>, t: Trail)
    requires IsAdjacency(adj)
  {
    t.visited <= Range(|adj|) && Distinct(t.path) &&
    (forall k :: 0 <= k < |t.path| ==> t.path[k] in t.visited) &&
    Finished(adj, t.visited, t.path)
  }

  /** Every vertex of `path` has all its successors in `visited`. */
  ghost predicate Finished(adj: seq<seq<int>>, visited: set<int>, path: seq<int>)
    requires IsAdjacency(adj)
  {
    forall k, x :: 0 <= k < |path| && 0 <= path[k] < |adj| && 0 <= x < |adj| && adj[path[k]][x] != 0 ==> x in visited
  }

  /** `r` extends `t`: the old post-order is kept as a prefix, and the newly
      emitted vertices are exactly the newly flagged ones. */
  ghost predicate Grows(t: Trail, r: Trail) {
    t.visited <= r.visited && |t.path| <= |r.path| && r.path[..|t.path|] == t.path &&
    (forall k :: |t.path| <= k < |r.path| ==> r.path[k] !in t.visited) &&
    (forall x :: x in r.visited && x !in t.visited ==> x in r.path)
  }

  // ---------------------------------------------------------------------
  // Reachability

  /** Every vertex flagged in `r` but not in `t` is reachable from `root`. */
  ghost predicate ReachesNew(g: seq<seq<bool>>, root: int, t: Trail, r: Trail) {
    forall x :: x in r.visited && x !in t.visited ==> Reachable(g, root, x)
  }

  // ---------------------------------------------------------------------
  // Order on an acyclic graph

  /** Every successor of an emitted vertex has been emitted, and before
      it. */
  ghost predicate PostOrdered(adj: seq<seq<int>>, p: seq<int>)
    requires IsAdjacency(adj)
  {
    (forall a, x :: 0 <= a < |p| && Edge(adj, p[a], x) ==> x in p) &&
    (forall a, b :: 0 <= a < |p| && 0 <= b < |p| && Edge(adj, p[a], p[b]) ==> b < a)
  }


  /** Every vertex flagged but not yet emitted (on the helper's call stack)
      reaches `root`. */
  ghost predicate GrayReach(adj: seq<seq<int>>, t: Trail, root: int)
    requires IsAdjacency(adj)
  {
    forall x :: x in t.visited && x !in t.path ==> Reachable(Links(adj), x, root)
  }

  /** Every successor of `root` below `i` has been emitted. */
  ghost predicate EmittedBelow(adj: seq<seq<int>>, root: int, i: int, p: seq<int>)
    requires IsAdjacency(adj) && 0 <= root < |adj| && 0 <= i <= |adj|
  {
    forall j :: 0 <= j < i && adj[root][j] != 0 ==> j in p
  }

  // ---------------------------------------------------------------------
  // Topological sort

  /** An edge `u -> v` of the adjacency matrix. */
  predicate Edge(adj: seq<seq<int>>, u: int, v: int)
    requires IsAdjacency(adj)
  {
    0 <= u < |adj| && 0 <= v < |adj| && adj[u][v] != 0
  }

  /** `Good`, with no search in progress: every flagged vertex is emitted
      (as `Good` makes the emitted vertices distinct and flagged, equal
      counts say exactly that). */
  ghost predicate Settled(adj: seq<seq<int>>, t: Trail)
    requires IsAdjacency(adj)
  {
    Good(adj, t) && |t.visited| == |t.path|
  }
}
