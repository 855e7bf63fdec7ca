/** What the recursive depth-first search and the topological sort
    guarantee, proved about the functions of `DepthFirst`. */
module DepthFirstProofs {
  import opened Seqs
  import opened Graph
  import opened DepthFirst

  // ---------------------------------------------------------------------
  // What every call keeps

  lemma GrowsTrans(a: Trail, b: Trail, c: Trail)
    requires Grows(a, b) && Grows(b, c)
    ensures Grows(a, c)
  {
    assert c.path[..|a.path|] == c.path[..|b.path|][..|a.path|];
    forall k | |a.path| <= k < |c.path|
      ensures c.path[k] !in a.visited
    {
      if k < |b.path| {
        assert c.path[k] == b.path[k];
      }
    }
    forall x | x in c.visited && x !in a.visited
      ensures x in c.path
    {
      if x in b.visited {
        var k :| 0 <= k < |b.path| && b.path[k] == x;
        assert c.path[k] == x;
      }
    }
  }

  /** A vertex is flagged but not yet emitted (on the helper's call stack)
      after a step exactly when it was before. */
  lemma GrowsKeepsGray(t: Trail, r: Trail)
    requires Grows(t, r)
    ensures forall x :: (x in r.visited && x !in r.path) <==> (x in t.visited && x !in t.path)
  {
    forall x
      ensures (x in r.visited && x !in r.path) <==> (x in t.visited && x !in t.path)
    {
      if x in t.path {
        var k :| 0 <= k < |t.path| && t.path[k] == x;
        assert r.path[k] == x;
      }
      if x in r.path && x in t.visited {
        var k :| 0 <= k < |r.path| && r.path[k] == x;
        assert k < |t.path| && t.path[k] == x;
      }
    }
  }

  lemma {:induction false} VisitShape(adj: seq<seq<int>>, root: int, t: Trail)
    requires IsAdjacency(adj) && 0 <= root < |adj| && Good(adj, t) && root !in t.visited
    ensures var r := Visit(adj, root, t);
      Good(adj, r) && Grows(t, r) && |r.path| > 0 && r.path[|r.path| - 1] == root
    decreases |adj| - |t.visited|, 0, 0
  {
    var flagged := Trail(t.visited + {root}, t.path);
    SubsetCard(t.visited, Range(|adj|));
    SubsetCard(flagged.visited, Range(|adj|));
    assert root in t.visited ==> flagged.visited == t.visited;
    VisitFromShape(adj, root, 0, flagged);
    var after := VisitFrom(adj, root, 0, flagged);
    var r := Visit(adj, root, t);
    assert r.path == after.path + [root];
    forall k | 0 <= k < |after.path|
      ensures after.path[k] != root
    {
      if k < |t.path| {
        assert after.path[k] == t.path[k];
      }
    }
    DistinctConcat(after.path, [root]);
    forall k, x | 0 <= k < |r.path| && 0 <= r.path[k] < |adj| && 0 <= x < |adj| && adj[r.path[k]][x] != 0
      ensures x in r.visited
    {
      if k < |after.path| {
        assert r.path[k] == after.path[k];
      }
    }
    forall k | |t.path| <= k < |r.path|
      ensures r.path[k] !in t.visited
    {
      if k < |after.path| {
        assert r.path[k] == after.path[k];
      }
    }
    forall x | x in r.visited && x !in t.visited
      ensures x in r.path
    {
      if x != root {
        var k :| 0 <= k < |after.path| && after.path[k] == x;
        assert r.path[k] == x;
      }
    }
    assert r.path[..|t.path|] == after.path[..|t.path|];
  }

  lemma {:induction false} VisitFromShape(adj: seq<seq<int>>, root: int, i: int, t: Trail)
    requires IsAdjacency(adj) && 0 <= root < |adj| && 0 <= i <= |adj| && Good(adj, t) && root in t.visited
    ensures var r := VisitFrom(adj, root, i, t);
      Good(adj, r) && Grows(t, r) &&
      forall j :: i <= j < |adj| && adj[root][j] != 0 ==> j in r.visited
    decreases |adj| - |t.visited|, 1, |adj| - i
  {
    if i == |adj| {
      assert t.path[..|t.path|] == t.path;
    } else if adj[root][i] != 0 && i !in t.visited {
      VisitShape(adj, i, t);
      var t' := Visit(adj, i, t);
      SubsetCard(t'.visited, Range(|adj|));
      SubsetCard(t.visited, t'.visited);
      VisitFromShape(adj, root, i + 1, t');
      GrowsTrans(t, t', VisitFrom(adj, root, i + 1, t'));
    } else {
      VisitFromShape(adj, root, i + 1, t);
    }
  }

  // ---------------------------------------------------------------------
  // Reachability

  /** One descent of the helper's loop: what `i` reaches, `root` reaches
      through the edge `root -> i`. */
  lemma ReachThrough(adj: seq<seq<int>>, root: int, i: int, t: Trail, t': Trail)
    requires IsAdjacency(adj) && 0 <= root < |adj| && 0 <= i < |adj| && adj[root][i] != 0
    requires ReachesNew(Links(adj), i, t, t')
    ensures ReachesNew(Links(adj), root, t, t')
  {
    var g := Links(adj);
    ReachableSelf(g, root);
    ReachableStep(g, root, root, i);
    forall x | x in t'.visited && x !in t.visited
      ensures Reachable(g, root, x)
    {
      ReachableTrans(g, root, i, x);
    }
  }

  lemma ReachesNewTrans(g: seq<seq<bool>>, root: int, a: Trail, b: Trail, c: Trail)
    requires ReachesNew(g, root, a, b) && ReachesNew(g, root, b, c)
    ensures ReachesNew(g, root, a, c)
  {
  }

  /** Everything the helper flags is reachable from the vertex it starts at. */
  lemma {:induction false} VisitReaches(adj: seq<seq<int>>, root: int, t: Trail)
    requires IsAdjacency(adj) && 0 <= root < |adj| && t.visited <= Range(|adj|)
    ensures ReachesNew(Links(adj), root, t, Visit(adj, root, t))
    decreases |adj| - |t.visited|, if root in t.visited then 2 else 0, 0
  {
    var flagged := Trail(t.visited + {root}, t.path);
    SubsetCard(t.visited, Range(|adj|));
    SubsetCard(flagged.visited, Range(|adj|));
    assert root in t.visited ==> flagged.visited == t.visited;
    VisitFromReaches(adj, root, 0, flagged);
    ReachableSelf(Links(adj), root);
  }

  lemma {:induction false} VisitFromReaches(adj: seq<seq<int>>, root: int, i: int, t: Trail)
    requires IsAdjacency(adj) && 0 <= root < |adj| && 0 <= i <= |adj| && t.visited <= Range(|adj|)
    ensures ReachesNew(Links(adj), root, t, VisitFrom(adj, root, i, t))
    decreases |adj| - |t.visited|, 1, |adj| - i
  {
    if i == |adj| {
    } else if adj[root][i] != 0 && i !in t.visited {
      var t' := Visit(adj, i, t);
      SubsetCard(t'.visited, Range(|adj|));
      SubsetCard(t.visited, t'.visited);
      VisitReaches(adj, i, t);
      ReachThrough(adj, root, i, t, t');
      VisitFromReaches(adj, root, i + 1, t');
      ReachesNewTrans(Links(adj), root, t, t', VisitFrom(adj, root, i + 1, t'));
    } else {
      VisitFromReaches(adj, root, i + 1, t);
    }
  }

  /** Once every flagged vertex is emitted, no edge leaves the flagged set. */
  lemma EmittedClosed(adj: seq<seq<int>>, t: Trail)
    requires IsAdjacency(adj) && Good(adj, t)
    requires forall x :: x in t.visited ==> x in t.path
    ensures Closed(Links(adj), t.visited)
  {
    var g := Links(adj);
    forall a, b | a in t.visited && 0 <= a < |g| && 0 <= b < |g| && g[a][b]
      ensures b in t.visited
    {
      var k :| 0 <= k < |t.path| && t.path[k] == a;
    }
  }

  /** `rdfs` emits exactly the vertices reachable from `root`, each once, in
      post-order, so `root` comes last. */
  lemma RdfsSound(adj: seq<seq<int>>, root: int)
    requires IsAdjacency(adj) && 0 <= root < |adj|
    ensures var r := Rdfs(adj, root);
      |r| > 0 && r[|r| - 1] == root && Distinct(r) && AllBelow(r, |adj|) &&
      forall x :: x in r <==> Reachable(Links(adj), root, x)
  {
    var t0 := Trail({}, []);
    var r := Visit(adj, root, t0);
    VisitShape(adj, root, t0);
    VisitReaches(adj, root, t0);
    EmittedClosed(adj, r);
    forall x | Reachable(Links(adj), root, x)
      ensures x in r.path
    {
      ClosedHoldsReachable(Links(adj), r.visited, root, x);
    }
  }

  // ---------------------------------------------------------------------
  // Order on an acyclic graph

  lemma PostOrderedAppend(adj: seq<seq<int>>, p: seq<int>, v: int)
    requires IsAdjacency(adj) && PostOrdered(adj, p) && 0 <= v < |adj| && v !in p
    requires EmittedBelow(adj, v, |adj|, p)
    ensures PostOrdered(adj, p + [v])
  {
    var q := p + [v];
    forall a, x | 0 <= a < |q| && Edge(adj, q[a], x)
      ensures x in q
    {
      if a < |p| {
        assert q[a] == p[a];
      }
    }
    forall a, b | 0 <= a < |q| && 0 <= b < |q| && Edge(adj, q[a], q[b])
      ensures b < a
    {
      if a < |p| {
        assert q[a] == p[a];
      }
      if b < |p| {
        assert q[b] == p[b];
      }
    }
  }


  /** Before descending into `i`, the call stack reaches `i` through `root`. */
  lemma GrayReachStep(adj: seq<seq<int>>, root: int, i: int, t: Trail)
    requires IsAdjacency(adj) && 0 <= root < |adj| && 0 <= i < |adj| && adj[root][i] != 0
    requires GrayReach(adj, t, root)
    ensures GrayReach(adj, t, i)
  {
    forall x | x in t.visited && x !in t.path
      ensures Reachable(Links(adj), x, i)
    {
      ReachableStep(Links(adj), x, root, i);
    }
  }

  /** A step that keeps the call stack keeps it reaching `root`. */
  lemma GrayReachKept(adj: seq<seq<int>>, root: int, t: Trail, t': Trail)
    requires IsAdjacency(adj) && Grows(t, t') && GrayReach(adj, t, root)
    ensures GrayReach(adj, t', root)
  {
    GrowsKeepsGray(t, t');
  }

  /** After descending into the unflagged successor `i`: `root` is still on
      the call stack, the stack still reaches it, and `i` has been emitted. */
  lemma DescendKeeps(adj: seq<seq<int>>, root: int, i: int, t: Trail)
    requires IsAdjacency(adj) && 0 <= root < |adj| && 0 <= i < |adj| && Good(adj, t)
    requires root in t.visited && root !in t.path && i !in t.visited
    requires GrayReach(adj, t, root) && EmittedBelow(adj, root, i, t.path)
    ensures var t' := Visit(adj, i, t);
      Good(adj, t') && root in t'.visited && root !in t'.path &&
      GrayReach(adj, t', root) && EmittedBelow(adj, root, i + 1, t'.path) &&
      |t.visited| < |t'.visited| <= |adj|
  {
    VisitShape(adj, i, t);
    var t' := Visit(adj, i, t);
    GrayReachKept(adj, root, t, t');
    assert t'.path[..|t.path|] == t.path;
    assert root !in t'.path by {
      GrowsKeepsGray(t, t');
    }
    forall j | 0 <= j < i + 1 && adj[root][j] != 0
      ensures j in t'.path
    {
      if j < i {
        var k :| 0 <= k < |t.path| && t.path[k] == j;
        assert t'.path[k] == j;
      }
    }
    SubsetCard(t'.visited, Range(|adj|));
    SubsetCard(t.visited + {i}, t'.visited);
  }

  /** Passing over successor candidate `i` without descending: on an acyclic
      graph an edge `root -> i` can only lead to an emitted vertex. */
  lemma SkipKeeps(adj: seq<seq<int>>, root: int, i: int, t: Trail)
    requires IsAdjacency(adj) && 0 <= root < |adj| && 0 <= i < |adj|
    requires !(adj[root][i] != 0 && i !in t.visited)
    requires !HasCycle(Links(adj)) && GrayReach(adj, t, root) && EmittedBelow(adj, root, i, t.path)
    ensures EmittedBelow(adj, root, i + 1, t.path)
  {
    if adj[root][i] != 0 && i !in t.path {
      EdgeBackIsCycle(Links(adj), i, root);
    }
  }

  lemma {:induction false} VisitOrdered(adj: seq<seq<int>>, root: int, t: Trail)
    requires IsAdjacency(adj) && 0 <= root < |adj| && Good(adj, t) && root !in t.visited
    requires !HasCycle(Links(adj)) && PostOrdered(adj, t.path) && GrayReach(adj, t, root)
    ensures PostOrdered(adj, Visit(adj, root, t).path)
    decreases |adj| - |t.visited|, 0, 0, 0
  {
    var flagged := Trail(t.visited + {root}, t.path);
    SubsetCard(t.visited, Range(|adj|));
    SubsetCard(flagged.visited, Range(|adj|));
    ReachableSelf(Links(adj), root);
    assert GrayReach(adj, flagged, root);
    VisitFromOrdered(adj, root, 0, flagged);
    var after := VisitFrom(adj, root, 0, flagged);
    VisitFromShape(adj, root, 0, flagged);
    GrowsKeepsGray(flagged, after);
    PostOrderedAppend(adj, after.path, root);
  }

  lemma {:induction false} VisitFromOrdered(adj: seq<seq<int>>, root: int, i: int, t: Trail)
    requires IsAdjacency(adj) && 0 <= root < |adj| && 0 <= i <= |adj| && Good(adj, t)
    requires root in t.visited && root !in t.path
    requires !HasCycle(Links(adj)) && PostOrdered(adj, t.path) && GrayReach(adj, t, root)
    requires EmittedBelow(adj, root, i, t.path)
    ensures var r := VisitFrom(adj, root, i, t);
      PostOrdered(adj, r.path) && EmittedBelow(adj, root, |adj|, r.path)
    decreases |adj| - |t.visited|, 1, |adj| - i, 1
  {
    if i == |adj| {
    } else if adj[root][i] != 0 && i !in t.visited {
      DescendOrdered(adj, root, i, t);
    } else {
      SkipOrdered(adj, root, i, t);
    }
  }

  /** The branch of `VisitFromOrdered` that passes over `i`. */
  lemma {:induction false} SkipOrdered(adj: seq<seq<int>>, root: int, i: int, t: Trail)
    requires IsAdjacency(adj) && 0 <= root < |adj| && 0 <= i < |adj| && Good(adj, t)
    requires root in t.visited && root !in t.path && !(adj[root][i] != 0 && i !in t.visited)
    requires !HasCycle(Links(adj)) && PostOrdered(adj, t.path) && GrayReach(adj, t, root)
    requires EmittedBelow(adj, root, i, t.path)
    ensures var r := VisitFrom(adj, root, i + 1, t);
      PostOrdered(adj, r.path) && EmittedBelow(adj, root, |adj|, r.path)
    decreases |adj| - |t.visited|, 1, |adj| - i, 0
  {
    SkipKeeps(adj, root, i, t);
    VisitFromOrdered(adj, root, i + 1, t);
  }

  /** The descent branch of `VisitFromOrdered`. */
  lemma {:induction false} DescendOrdered(adj: seq<seq<int>>, root: int, i: int, t: Trail)
    requires IsAdjacency(adj) && 0 <= root < |adj| && 0 <= i < |adj| && Good(adj, t)
    requires root in t.visited && root !in t.path && adj[root][i] != 0 && i !in t.visited
    requires !HasCycle(Links(adj)) && PostOrdered(adj, t.path) && GrayReach(adj, t, root)
    requires EmittedBelow(adj, root, i, t.path)
    ensures var r := VisitFrom(adj, root, i + 1, Visit(adj, i, t));
      PostOrdered(adj, r.path) && EmittedBelow(adj, root, |adj|, r.path)
    decreases |adj| - |t.visited|, 1, |adj| - i, 0
  {
    GrayReachStep(adj, root, i, t);
    VisitOrdered(adj, i, t);
    DescendKeeps(adj, root, i, t);
    VisitFromOrdered(adj, root, i + 1, Visit(adj, i, t));
  }

  /** On an acyclic graph `rdfs` emits every vertex after all its
      successors. */
  lemma RdfsPostOrder(adj: seq<seq<int>>, root: int)
    requires IsAdjacency(adj) && 0 <= root < |adj| && !HasCycle(Links(adj))
    ensures PostOrdered(adj, Rdfs(adj, root))
  {
    VisitOrdered(adj, root, Trail({}, []));
  }

  // ---------------------------------------------------------------------
  // Topological sort

  /** In a `Good` trail the counts agree exactly when every flagged vertex
      has been emitted. */
  lemma SettledMeansEmitted(adj: seq<seq<int>>, t: Trail)
    requires IsAdjacency(adj) && Good(adj, t)
    ensures Settled(adj, t) <==> forall x :: x in t.visited ==> x in t.path
  {
    DistinctCard(t.path);
    assert Elems(t.path) <= t.visited;
    if forall x :: x in t.visited ==> x in t.path {
      assert Elems(t.path) == t.visited;
    } else {
      var x :| x in t.visited && x !in t.path;
      assert Elems(t.path) <= t.visited - {x};
      SubsetCard(Elems(t.path), t.visited - {x});
    }
  }

  /** One turn of the `topologicalSort` loop keeps `Settled`. */
  lemma StartKeeps(adj: seq<seq<int>>, i: int, t: Trail)
    requires IsAdjacency(adj) && 0 <= i < |adj| && Settled(adj, t)
    ensures Settled(adj, Start(adj, i, t))
  {
    if i !in t.visited {
      var r := Visit(adj, i, t);
      VisitShape(adj, i, t);
      SettledMeansEmitted(adj, t);
      GrowsKeepsGray(t, r);
      SettledMeansEmitted(adj, r);
    }
  }

  /** On an acyclic graph one turn of the `topologicalSort` loop keeps the
      post-order. */
  lemma StartOrdered(adj: seq<seq<int>>, i: int, t: Trail)
    requires IsAdjacency(adj) && 0 <= i < |adj| && Settled(adj, t)
    requires !HasCycle(Links(adj)) && PostOrdered(adj, t.path)
    ensures PostOrdered(adj, Start(adj, i, t).path)
  {
    if i !in t.visited {
      SettledMeansEmitted(adj, t);
      VisitOrdered(adj, i, t);
    }
  }

  lemma {:induction false} TopoLoopShape(adj: seq<seq<int>>, i: int, t: Trail)
    requires IsAdjacency(adj) && 0 <= i <= |adj| && Settled(adj, t)
    ensures Settled(adj, TopoLoop(adj, i, t))
    decreases |adj| - i
  {
    if i < |adj| {
      StartKeeps(adj, i, t);
      TopoLoopShape(adj, i + 1, Start(adj, i, t));
    }
  }

  /** The loop of `topologicalSort` flags every vertex. */
  lemma {:induction false} TopoLoopCovers(adj: seq<seq<int>>, i: int, t: Trail)
    requires IsAdjacency(adj) && 0 <= i <= |adj| && t.visited <= Range(|adj|)
    requires forall j :: 0 <= j < i ==> j in t.visited
    ensures forall j :: 0 <= j < |adj| ==> j in TopoLoop(adj, i, t).visited
    decreases |adj| - i
  {
    if i < |adj| {
      TopoLoopCovers(adj, i + 1, Start(adj, i, t));
    }
  }

  lemma {:induction false} TopoLoopOrdered(adj: seq<seq<int>>, i: int, t: Trail) returns (r: Trail)
    requires IsAdjacency(adj) && 0 <= i <= |adj| && Settled(adj, t)
    requires !HasCycle(Links(adj)) && PostOrdered(adj, t.path)
    ensures r == TopoLoop(adj, i, t) && PostOrdered(adj, r.path)
    decreases |adj| - i
  {
    if i == |adj| {
      r := t;
    } else {
      StartKeeps(adj, i, t);
      StartOrdered(adj, i, t);
      r := TopoLoopOrdered(adj, i + 1, Start(adj, i, t));
    }
  }


  /** `topologicalSort` lists every vertex exactly once. */
  lemma TopologicalSortPermutes(adj: seq<seq<int>>)
    requires IsAdjacency(adj)
    ensures var r := TopologicalSort(adj);
      |r| == |adj| && Distinct(r) && forall v :: v in r <==> 0 <= v < |adj|
  {
    var t0 := Trail({}, []);
    TopoLoopShape(adj, 0, t0);
    TopoLoopCovers(adj, 0, t0);
    var final := TopoLoop(adj, 0, t0);
    SettledMeansEmitted(adj, final);
    assert final.visited == Range(|adj|);
    ReverseKeeps(final.path);
  }

  /** Reversing a post-order puts the source of every edge before its
      target. */
  lemma ReversedPostOrder(adj: seq<seq<int>>, p: seq<int>)
    requires IsAdjacency(adj) && PostOrdered(adj, p)
    ensures var r := Reverse(p);
      forall a, b :: 0 <= a < |r| && 0 <= b < |r| && Edge(adj, r[a], r[b]) ==> a < b
  {
    var r := Reverse(p);
    forall a, b | 0 <= a < |r| && 0 <= b < |r| && Edge(adj, r[a], r[b])
      ensures a < b
    {
      assert r[a] == p[|p| - 1 - a] && r[b] == p[|p| - 1 - b];
    }
  }


  /** On an acyclic graph `topologicalSort` puts the source of every edge
      before its target. */
  lemma TopologicalSortOrders(adj: seq<seq<int>>)
    requires IsAdjacency(adj) && !HasCycle(Links(adj))
    ensures var r := TopologicalSort(adj);
      forall a, b :: 0 <= a < |r| && 0 <= b < |r| && Edge(adj, r[a], r[b]) ==> a < b
  {
    var t0 := Trail({}, []);
    TopoLoopShape(adj, 0, t0);
    var final := TopoLoopOrdered(adj, 0, t0);
    ReversedPostOrder(adj, final.path);
  }
}
