/** `algo::bfs` and `algo::dfs`: iterative traversals of an adjacency matrix
    that mark a vertex visited when it is pushed, so no vertex is emitted twice. */
module Traversal {
  import opened Seqs
  import opened Graph

  /** The traversal state between pops: the `visited` flags, as the set of
      flagged vertices, and the `std::deque` of vertices still to emit. */
  datatype Frontier = Frontier(visited: set<int>, pending: seq<int>)

  /** The vertices a scan pushed are exactly the ones it flagged. */
  lemma PushedAreFlagged(visited: set<int>, flagged: set<int>, found: seq<int>)
    requires visited <= flagged && Distinct(found)
    requires forall x :: x in found ==> x in flagged && x !in visited
    requires |flagged| == |visited| + |found|
    ensures forall x :: x in flagged && x !in visited <==> x in found
  {
    DistinctCard(found);
    assert Elems(found) <= flagged - visited;
    assert |flagged - visited| == |flagged| - |visited|;
    SubsetSameCard(Elems(found), flagged - visited);
    forall x | x in flagged && x !in visited
      ensures x in found
    {
      assert x in Elems(found);
    }
  }

  /** The bookkeeping both loops keep: the emitted path and the deque repeat
      no vertex and share none, and together they are the flagged vertices. */
  ghost predicate Ledger(n: nat, visited: set<int>, pending: seq<int>, path: seq<int>) {
    visited <= Range(n) && AllBelow(pending, n) && AllBelow(path, n) &&
    Distinct(path) && Distinct(pending) && (forall x :: x in path ==> x !in pending) &&
    (forall x :: x in visited <==> x in path || x in pending)
  }

  /** Every flagged vertex is reachable from the root. */
  ghost predicate AllReachable(g: seq<seq<bool>>, root: int, visited: set<int>) {
    forall x :: x in visited ==> Reachable(g, root, x)
  }

  /** `pending` is `v` together with `rest`, neither repeating a vertex. */
  ghost predicate Splits(pending: seq<int>, v: int, rest: seq<int>) {
    Distinct(rest) && v !in rest && forall x :: x in pending <==> x == v || x in rest
  }

  /** Popping the first entry. */
  lemma PopFirst(pending: seq<int>)
    requires Distinct(pending) && |pending| > 0
    ensures Splits(pending, pending[0], pending[1..])
  {
    forall x | x in pending[1..]
      ensures x != pending[0]
    {
      var k :| 0 <= k < |pending[1..]| && pending[1..][k] == x;
      assert pending[k + 1] == x;
    }
    assert pending == [pending[0]] + pending[1..];
  }

  /** Popping the last entry. */
  lemma PopLast(pending: seq<int>)
    requires Distinct(pending) && |pending| > 0
    ensures Splits(pending, pending[|pending| - 1], pending[..|pending| - 1])
  {
    var n := |pending|;
    var rest := pending[..n - 1];
    forall x | x in rest
      ensures x != pending[n - 1]
    {
      var k :| 0 <= k < n - 1 && rest[k] == x;
      assert pending[k] == x;
    }
    assert pending == rest + [pending[n - 1]];
  }

  /** Moving the popped vertex `v` onto the path and pushing the newly flagged
      vertices keeps the bookkeeping. */
  lemma LedgerStep(n: nat, visited: set<int>, pending: seq<int>, path: seq<int>, v: int, rest: seq<int>,
                   flagged: set<int>, found: seq<int>, next: seq<int>)
    requires Ledger(n, visited, pending, path) && Splits(pending, v, rest)
    requires visited <= flagged <= Range(n)
    requires forall x :: x in found ==> x !in visited
    requires forall x :: x in flagged && x !in visited <==> x in found
    requires Distinct(next) && forall x :: x in next <==> x in rest || x in found
    ensures Ledger(n, flagged, next, path + [v])
  {
    var path' := path + [v];
    assert v in pending;
    assert v !in path;
    DistinctConcat(path, [v]);
    forall k | 0 <= k < |next|
      ensures 0 <= next[k] < n
    {
      assert next[k] in next;
    }
    forall x
      ensures x in flagged <==> x in path' || x in next
    {
      assert x in path' <==> x in path || x == v;
    }
  }

  /** Flagging successors of a reachable vertex keeps `AllReachable`. */
  lemma ReachedStep(g: seq<seq<bool>>, root: int, visited: set<int>, v: int, flagged: set<int>)
    requires IsDigraph(g) && AllReachable(g, root, visited) && v in visited && 0 <= v < |g|
    requires forall x :: x in flagged && x !in visited ==> 0 <= x < |g| && g[v][x]
    ensures AllReachable(g, root, flagged)
  {
    forall x | x in flagged
      ensures Reachable(g, root, x)
    {
      if x !in visited {
        ReachableStep(g, root, v, x);
      }
    }
  }

  /** What holds each time the `while` condition of either loop is tested,
      for the edges `g` the loop follows. */
  ghost predicate Invariant(g: seq<seq<bool>>, root: int, visited: set<int>, pending: seq<int>, path: seq<int>)
    requires IsDigraph(g)
  {
    0 <= root < |g| && Ledger(|g|, visited, pending, path) &&
    AllReachable(g, root, visited) && Explored(g, visited, path) &&
    (if path == [] then pending == [root] else path[0] == root)
  }

  /** One turn of either loop: `v` is popped and emitted, and `found`, the
      successors of `v` not yet flagged, are flagged and pushed. */
  lemma InvariantStep(g: seq<seq<bool>>, root: int, visited: set<int>, pending: seq<int>, path: seq<int>,
                      v: int, rest: seq<int>, flagged: set<int>, found: seq<int>, next: seq<int>)
    requires IsDigraph(g) && Invariant(g, root, visited, pending, path) && Splits(pending, v, rest)
    requires path == [] ==> v == root
    requires visited <= flagged <= Range(|g|)
    requires forall x :: x in found ==> x !in visited
    requires forall x :: x in flagged && x !in visited <==> x in found
    requires Distinct(next) && forall x :: x in next <==> x in rest || x in found
    requires forall x :: 0 <= x < |g| && 0 <= v < |g| && g[v][x] ==> x in flagged
    requires forall x :: x in flagged && x !in visited ==> 0 <= x < |g| && 0 <= v < |g| && g[v][x]
    ensures Invariant(g, root, flagged, next, path + [v])
  {
    LedgerStep(|g|, visited, pending, path, v, rest, flagged, found, next);
    assert v in pending && v in visited && 0 <= v < |g|;
    ExploredStep(g, visited, path, v, flagged);
    ReachedStep(g, root, visited, v, flagged);
  }

  /** A scan leaves the deque as it was and appends the vertices it
      flags, each once. */
  lemma Appended(visited: set<int>, rest: seq<int>, r: Frontier) returns (found: seq<int>)
    requires |r.pending| >= |rest| && r.pending[..|rest|] == rest
    requires forall k :: |rest| <= k < |r.pending| ==> r.pending[k] in r.visited && r.pending[k] !in visited
    requires forall a, b :: |rest| <= a < b < |r.pending| ==> r.pending[a] != r.pending[b]
    requires visited <= r.visited && |r.visited| == |visited| + (|r.pending| - |rest|)
    requires Distinct(rest) && forall x :: x in rest ==> x in visited
    ensures r.pending == rest + found && Distinct(r.pending)
    ensures forall x :: x in found ==> x !in visited
    ensures forall x :: x in r.visited && x !in visited <==> x in found
    ensures forall x :: x in r.pending <==> x in rest || x in found
  {
    found := r.pending[|rest|..];
    assert r.pending == rest + found;
    assert Distinct(found) by {
      forall a, b | 0 <= a < b < |found|
        ensures found[a] != found[b]
      {
        assert found[a] == r.pending[|rest| + a] && found[b] == r.pending[|rest| + b];
      }
    }
    forall x | x in found
      ensures x !in visited && x in r.visited
    {
      var k :| 0 <= k < |found| && found[k] == x;
      assert r.pending[|rest| + k] == x;
    }
    assert |found| == |r.pending| - |rest|;
    PushedAreFlagged(visited, r.visited, found);
    DistinctConcat(rest, found);
  }

  // ---------------------------------------------------------------------
  // Breadth-first: `push_front` and `pop_back`. `pending` lists the deque
  // from its back (the next vertex out) to its front.

  /** The inner `for` loop of `bfs` from index `i` on: each unvisited
      neighbour of `v`, in ascending order, is flagged and queued. */
  function BfsScan(adj: seq<seq<int>>, v: int, i: int, visited: set<int>, pending: seq<int>): (r: Frontier)
    requires IsAdjacency(adj) && 0 <= v < |adj| && 0 <= i <= |adj|
    decreases |adj| - i
    ensures |r.pending| >= |pending| && r.pending[..|pending|] == pending
    ensures forall x :: x in r.visited <==> x in visited || (i <= x < |adj| && adj[v][x] != 0)
    ensures forall k :: |pending| <= k < |r.pending| ==> r.pending[k] in r.visited && r.pending[k] !in visited
    ensures forall a, b :: |pending| <= a < b < |r.pending| ==> r.pending[a] < r.pending[b]
    ensures forall k :: |pending| <= k < |r.pending| ==> i <= r.pending[k]
    ensures |r.visited| == |visited| + (|r.pending| - |pending|)
  {
    if i == |adj| then Frontier(visited, pending)
    else if adj[v][i] != 0 && i !in visited then BfsScan(adj, v, i + 1, visited + {i}, pending + [i])
    else BfsScan(adj, v, i + 1, visited, pending)
  }

  /** The `while` loop of `bfs`. */
  function BfsLoop(adj: seq<seq<int>>, visited: set<int>, pending: seq<int>, path: seq<int>): seq<int>
    requires IsAdjacency(adj) && visited <= Range(|adj|) && AllBelow(pending, |adj|)
    decreases 2 * (|adj| - |visited|) + |pending|
  {
    if pending == [] then path
    else
      var v := pending[0];
      var r := BfsScan(adj, v, 0, visited, pending[1..]);
      assert r.visited <= Range(|adj|);
      SubsetCard(r.visited, Range(|adj|));
      BfsLoop(adj, r.visited, r.pending, path + [v])
  }

  /** `algo::bfs`. */
  function Bfs(adj: seq<seq<int>>, root: int): seq<int>
    requires IsAdjacency(adj) && 0 <= root < |adj|
  {
    BfsLoop(adj, {root}, [root], [])
  }

  /** One scan of `bfs` from `v`, in the terms of `InvariantStep`. */
  lemma BfsTurn(adj: seq<seq<int>>, v: int, visited: set<int>, rest: seq<int>) returns (found: seq<int>)
    requires IsAdjacency(adj) && 0 <= v < |adj| && visited <= Range(|adj|)
    requires Distinct(rest) && forall x :: x in rest ==> x in visited
    ensures var r := BfsScan(adj, v, 0, visited, rest); var g := Links(adj);
      visited <= r.visited <= Range(|adj|) &&
      (forall x :: x in found ==> x !in visited) &&
      (forall x :: x in r.visited && x !in visited <==> x in found) &&
      Distinct(r.pending) && (forall x :: x in r.pending <==> x in rest || x in found) &&
      (forall x :: 0 <= x < |adj| && g[v][x] ==> x in r.visited) &&
      (forall x :: x in r.visited && x !in visited ==> 0 <= x < |adj| && g[v][x])
  {
    var r := BfsScan(adj, v, 0, visited, rest);
    assert visited <= r.visited by {
      forall x | x in visited
        ensures x in r.visited
      {
      }
    }
    found := Appended(visited, rest, r);
  }

  /** One turn of the `while` loop keeps the invariant. */
  lemma BfsStep(adj: seq<seq<int>>, root: int, visited: set<int>, pending: seq<int>, path: seq<int>)
    requires IsAdjacency(adj) && Invariant(Links(adj), root, visited, pending, path) && pending != []
    ensures var r := BfsScan(adj, pending[0], 0, visited, pending[1..]);
      Invariant(Links(adj), root, r.visited, r.pending, path + [pending[0]])
  {
    var v, rest := pending[0], pending[1..];
    var r := BfsScan(adj, v, 0, visited, rest);
    PopFirst(pending);
    var found := BfsTurn(adj, v, visited, rest);
    InvariantStep(Links(adj), root, visited, pending, path, v, rest, r.visited, found, r.pending);
  }

  /** Follows the `while` loop to its end. */
  lemma {:induction false} BfsLoopSound(adj: seq<seq<int>>, root: int, visited: set<int>, pending: seq<int>, path: seq<int>)
    requires IsAdjacency(adj) && Invariant(Links(adj), root, visited, pending, path)
    decreases 2 * (|adj| - |visited|) + |pending|
    ensures var r := BfsLoop(adj, visited, pending, path);
      |r| > 0 && r[0] == root && Distinct(r) && AllBelow(r, |adj|) &&
      forall x :: x in r <==> Reachable(Links(adj), root, x)
  {
    if pending == [] {
      var g := Links(adj);
      assert Closed(g, visited);
      forall x | Reachable(g, root, x)
        ensures x in path
      {
        ClosedHoldsReachable(g, visited, root, x);
      }
    } else {
      var r := BfsScan(adj, pending[0], 0, visited, pending[1..]);
      BfsStep(adj, root, visited, pending, path);
      assert r.visited <= Range(|adj|);
      SubsetCard(r.visited, Range(|adj|));
      BfsLoopSound(adj, root, r.visited, r.pending, path + [pending[0]]);
    }
  }

  /** `bfs` starts at the root, emits no vertex twice, and emits exactly the
      vertices reachable from the root. */
  lemma BfsSound(adj: seq<seq<int>>, root: int)
    requires IsAdjacency(adj) && 0 <= root < |adj|
    ensures var r := Bfs(adj, root);
      |r| > 0 && r[0] == root && Distinct(r) && AllBelow(r, |adj|) &&
      forall x :: x in r <==> Reachable(Links(adj), root, x)
  {
    ReachableSelf(Links(adj), root);
    BfsLoopSound(adj, root, {root}, [root], []);
  }

  // ---------------------------------------------------------------------
  // Depth-first: `push_front` and `pop_front`. `pending` lists the deque
  // from its back to its front (the next vertex out).

  /** The inner `for` loop of `dfs` from index `i` down to 1: each unvisited
      neighbour of `v` is flagged and pushed, so the lowest ends on top. The
      loop stops before index 0, so no edge ever leads into vertex 0. */
  function DfsScan(adj: seq<seq<int>>, v: int, i: int, visited: set<int>, pending: seq<int>): (r: Frontier)
    requires IsAdjacency(adj) && 0 <= v < |adj| && 0 <= i < |adj|
    decreases i
    ensures |r.pending| >= |pending| && r.pending[..|pending|] == pending
    ensures forall x :: x in r.visited <==> x in visited || (0 < x <= i && adj[v][x] != 0)
    ensures forall k :: |pending| <= k < |r.pending| ==> r.pending[k] in r.visited && r.pending[k] !in visited
    ensures forall a, b :: |pending| <= a < b < |r.pending| ==> r.pending[a] > r.pending[b]
    ensures forall k :: |pending| <= k < |r.pending| ==> r.pending[k] <= i
    ensures |r.visited| == |visited| + (|r.pending| - |pending|)
  {
    if i == 0 then Frontier(visited, pending)
    else if adj[v][i] != 0 && i !in visited then DfsScan(adj, v, i - 1, visited + {i}, pending + [i])
    else DfsScan(adj, v, i - 1, visited, pending)
  }

  /** The `while` loop of `dfs`. */
  function DfsLoop(adj: seq<seq<int>>, visited: set<int>, pending: seq<int>, path: seq<int>): seq<int>
    requires IsAdjacency(adj) && visited <= Range(|adj|) && AllBelow(pending, |adj|)
    decreases 2 * (|adj| - |visited|) + |pending|
  {
    if pending == [] then path
    else
      var v := pending[|pending| - 1];
      var r := DfsScan(adj, v, |adj| - 1, visited, pending[..|pending| - 1]);
      assert r.visited <= Range(|adj|);
      SubsetCard(r.visited, Range(|adj|));
      DfsLoop(adj, r.visited, r.pending, path + [v])
  }

  /** `algo::dfs`. */
  function Dfs(adj: seq<seq<int>>, root: int): seq<int>
    requires IsAdjacency(adj) && 0 <= root < |adj|
  {
    DfsLoop(adj, {root}, [root], [])
  }

  /** The edges `dfs` can follow: every edge except those into vertex 0. */
  function DfsLinks(adj: seq<seq<int>>): (g: seq<seq<bool>>)
    requires IsAdjacency(adj)
    ensures |g| == |adj| && IsDigraph(g)
  {
    WithoutEdgesInto(Links(adj), 0)
  }

  lemma DfsEdge(adj: seq<seq<int>>, v: int, x: int)
    requires IsAdjacency(adj) && 0 <= v < |adj| && 0 <= x < |adj|
    ensures DfsLinks(adj)[v][x] <==> x != 0 && adj[v][x] != 0
  {
    assert Links(adj)[v][x] <==> adj[v][x] != 0;
  }

  lemma DfsEdges(adj: seq<seq<int>>, v: int)
    requires IsAdjacency(adj) && 0 <= v < |adj|
    ensures forall x :: 0 <= x < |adj| ==> (DfsLinks(adj)[v][x] <==> x != 0 && adj[v][x] != 0)
  {
    forall x | 0 <= x < |adj|
      ensures DfsLinks(adj)[v][x] <==> x != 0 && adj[v][x] != 0
    {
      DfsEdge(adj, v, x);
    }
  }

  /** One scan of `dfs` from `v`, in the terms of `InvariantStep`. */
  lemma DfsTurn(adj: seq<seq<int>>, v: int, visited: set<int>, rest: seq<int>) returns (found: seq<int>)
    requires IsAdjacency(adj) && 0 <= v < |adj| && visited <= Range(|adj|)
    requires Distinct(rest) && forall x :: x in rest ==> x in visited
    ensures var r := DfsScan(adj, v, |adj| - 1, visited, rest); var g := DfsLinks(adj);
      visited <= r.visited <= Range(|adj|) &&
      (forall x :: x in found ==> x !in visited) &&
      (forall x :: x in r.visited && x !in visited <==> x in found) &&
      Distinct(r.pending) && (forall x :: x in r.pending <==> x in rest || x in found) &&
      (forall x :: 0 <= x < |adj| && g[v][x] ==> x in r.visited) &&
      (forall x :: x in r.visited && x !in visited ==> 0 <= x < |adj| && g[v][x])
  {
    var r := DfsScan(adj, v, |adj| - 1, visited, rest);
    var g := DfsLinks(adj);
    assert visited <= r.visited by {
      forall x | x in visited
        ensures x in r.visited
      {
      }
    }
    found := Appended(visited, rest, r);
    DfsEdges(adj, v);
  }

  /** One turn of the `while` loop keeps the invariant. */
  lemma DfsStep(adj: seq<seq<int>>, root: int, visited: set<int>, pending: seq<int>, path: seq<int>)
    requires IsAdjacency(adj) && Invariant(DfsLinks(adj), root, visited, pending, path) && pending != []
    ensures var v := pending[|pending| - 1];
      var r := DfsScan(adj, v, |adj| - 1, visited, pending[..|pending| - 1]);
      Invariant(DfsLinks(adj), root, r.visited, r.pending, path + [v])
  {
    var v, rest := pending[|pending| - 1], pending[..|pending| - 1];
    var r := DfsScan(adj, v, |adj| - 1, visited, rest);
    PopLast(pending);
    var found := DfsTurn(adj, v, visited, rest);
    InvariantStep(DfsLinks(adj), root, visited, pending, path, v, rest, r.visited, found, r.pending);
  }

  /** Follows the `while` loop to its end. */
  lemma {:induction false} DfsLoopSound(adj: seq<seq<int>>, root: int, visited: set<int>, pending: seq<int>, path: seq<int>)
    requires IsAdjacency(adj) && Invariant(DfsLinks(adj), root, visited, pending, path)
    decreases 2 * (|adj| - |visited|) + |pending|
    ensures var r := DfsLoop(adj, visited, pending, path);
      |r| > 0 && r[0] == root && Distinct(r) && AllBelow(r, |adj|) &&
      forall x :: x in r <==> Reachable(DfsLinks(adj), root, x)
  {
    if pending == [] {
      var g := DfsLinks(adj);
      assert Closed(g, visited);
      forall x | Reachable(g, root, x)
        ensures x in path
      {
        ClosedHoldsReachable(g, visited, root, x);
      }
    } else {
      var v := pending[|pending| - 1];
      var r := DfsScan(adj, v, |adj| - 1, visited, pending[..|pending| - 1]);
      DfsStep(adj, root, visited, pending, path);
      assert r.visited <= Range(|adj|);
      SubsetCard(r.visited, Range(|adj|));
      DfsLoopSound(adj, root, r.visited, r.pending, path + [v]);
    }
  }

  /** `dfs` starts at the root, emits no vertex twice, and emits exactly the
      vertices reachable from the root by edges that do not enter vertex 0. */
  lemma DfsSound(adj: seq<seq<int>>, root: int)
    requires IsAdjacency(adj) && 0 <= root < |adj|
    ensures var r := Dfs(adj, root);
      |r| > 0 && r[0] == root && Distinct(r) && AllBelow(r, |adj|) &&
      forall x :: x in r <==> Reachable(DfsLinks(adj), root, x)
  {
    ReachableSelf(DfsLinks(adj), root);
    DfsLoopSound(adj, root, {root}, [root], []);
  }

  /** Vertex 0 is emitted by `dfs` only when it is the root. */
  lemma DfsSkipsZero(adj: seq<seq<int>>, root: int)
    requires IsAdjacency(adj) && 0 <= root < |adj|
    ensures 0 in Dfs(adj, root) <==> root == 0
  {
    DfsSound(adj, root);
    var g := DfsLinks(adj);
    if 0 in Dfs(adj, root) {
      var p :| Walk(g, p) && p[0] == root && p[|p| - 1] == 0;
      forall k | 0 < k < |p|
        ensures p[k] != 0
      {
        assert g[p[k - 1]][p[k]];
        DfsEdge(adj, p[k - 1], p[k]);
      }
    }
  }

  // ---------------------------------------------------------------------
  // The graph of the test suite

  /** The five turns of the `bfs` loop on the sample, one lemma each. */
  lemma BfsSampleScan0()
    ensures IsAdjacency(Sample)
    ensures BfsScan(Sample, 0, 0, {0}, []) == Frontier({0, 1, 2}, [1, 2])
  {
    SampleIsAdjacency();
    assert BfsScan(Sample, 0, 1, {0}, []) == Frontier({0, 1, 2}, [1, 2]) by {
      assert BfsScan(Sample, 0, 2, {0, 1}, [1]) == Frontier({0, 1, 2}, [1, 2]) by {
        assert BfsScan(Sample, 0, 3, {0, 1, 2}, [1, 2]) == Frontier({0, 1, 2}, [1, 2]);
        assert {0, 1} + {2} == {0, 1, 2} && [1] + [2] == [1, 2];
      }
      assert {0} + {1} == {0, 1} && [] + [1] == [1];
    }
  }

  lemma BfsSample0()
    ensures IsAdjacency(Sample)
    ensures BfsLoop(Sample, {0}, [0], []) == BfsLoop(Sample, {0, 1, 2}, [1, 2], [0])
  {
    BfsSampleScan0();
    assert [0][1..] == [] && [] + [0] == [0];
  }

  lemma BfsSampleScan1()
    ensures IsAdjacency(Sample)
    ensures BfsScan(Sample, 1, 0, {0, 1, 2}, [2]) == Frontier({0, 1, 2, 3}, [2, 3])
  {
    SampleIsAdjacency();
    assert BfsScan(Sample, 1, 1, {0, 1, 2}, [2]) == Frontier({0, 1, 2, 3}, [2, 3]) by {
      assert BfsScan(Sample, 1, 2, {0, 1, 2}, [2]) == Frontier({0, 1, 2, 3}, [2, 3]) by {
        assert BfsScan(Sample, 1, 3, {0, 1, 2}, [2]) == Frontier({0, 1, 2, 3}, [2, 3]) by {
          assert BfsScan(Sample, 1, 4, {0, 1, 2, 3}, [2, 3]) == Frontier({0, 1, 2, 3}, [2, 3]);
          assert {0, 1, 2} + {3} == {0, 1, 2, 3} && [2] + [3] == [2, 3];
        }
      }
    }
  }

  lemma BfsSample1()
    ensures IsAdjacency(Sample)
    ensures BfsLoop(Sample, {0, 1, 2}, [1, 2], [0]) == BfsLoop(Sample, {0, 1, 2, 3}, [2, 3], [0, 1])
  {
    BfsSampleScan1();
    assert [1, 2][1..] == [2] && [0] + [1] == [0, 1];
  }

  lemma BfsSampleScan2()
    ensures IsAdjacency(Sample)
    ensures BfsScan(Sample, 2, 0, {0, 1, 2, 3}, [3]) == Frontier({0, 1, 2, 3, 4}, [3, 4])
  {
    SampleIsAdjacency();
    assert BfsScan(Sample, 2, 2, {0, 1, 2, 3}, [3]) == Frontier({0, 1, 2, 3, 4}, [3, 4]) by {
      assert BfsScan(Sample, 2, 4, {0, 1, 2, 3}, [3]) == Frontier({0, 1, 2, 3, 4}, [3, 4]) by {
        assert BfsScan(Sample, 2, 5, {0, 1, 2, 3, 4}, [3, 4]) == Frontier({0, 1, 2, 3, 4}, [3, 4]);
        assert {0, 1, 2, 3} + {4} == {0, 1, 2, 3, 4} && [3] + [4] == [3, 4];
      }
    }
  }

  lemma BfsSample2()
    ensures IsAdjacency(Sample)
    ensures BfsLoop(Sample, {0, 1, 2, 3}, [2, 3], [0, 1]) == BfsLoop(Sample, {0, 1, 2, 3, 4}, [3, 4], [0, 1, 2])
  {
    BfsSampleScan2();
    assert [2, 3][1..] == [3] && [0, 1] + [2] == [0, 1, 2];
  }

  lemma BfsSample3()
    ensures IsAdjacency(Sample)
    ensures BfsLoop(Sample, {0, 1, 2, 3, 4}, [3, 4], [0, 1, 2]) == BfsLoop(Sample, {0, 1, 2, 3, 4}, [4], [0, 1, 2, 3])
  {
    SampleIsAdjacency();
    assert BfsScan(Sample, 3, 0, {0, 1, 2, 3, 4}, [4]) == Frontier({0, 1, 2, 3, 4}, [4]);
    assert [3, 4][1..] == [4] && [0, 1, 2] + [3] == [0, 1, 2, 3];
  }

  lemma BfsSample4()
    ensures IsAdjacency(Sample)
    ensures BfsLoop(Sample, {0, 1, 2, 3, 4}, [4], [0, 1, 2, 3]) == [0, 1, 2, 3, 4]
  {
    SampleIsAdjacency();
    assert BfsScan(Sample, 4, 0, {0, 1, 2, 3, 4}, []) == Frontier({0, 1, 2, 3, 4}, []);
    assert [4][1..] == [] && [0, 1, 2, 3] + [4] == [0, 1, 2, 3, 4];
  }

  /** `bfs` from vertex 0 of the sample graph emits 0, 1, 2, 3, 4. */
  lemma BfsSample()
    ensures IsAdjacency(Sample) && Bfs(Sample, 0) == [0, 1, 2, 3, 4]
  {
    BfsSample0();
    BfsSample1();
    BfsSample2();
    BfsSample3();
    BfsSample4();
  }

  /** The five turns of the `dfs` loop on the sample. */
  lemma DfsSampleScan0()
    ensures IsAdjacency(Sample)
    ensures DfsScan(Sample, 0, 4, {0}, []) == Frontier({0, 1, 2}, [2, 1])
  {
    SampleIsAdjacency();
    assert DfsScan(Sample, 0, 2, {0}, []) == Frontier({0, 1, 2}, [2, 1]) by {
      assert DfsScan(Sample, 0, 1, {0, 2}, [2]) == Frontier({0, 1, 2}, [2, 1]) by {
        assert DfsScan(Sample, 0, 0, {0, 1, 2}, [2, 1]) == Frontier({0, 1, 2}, [2, 1]);
        assert {0, 2} + {1} == {0, 1, 2} && [2] + [1] == [2, 1];
      }
      assert {0} + {2} == {0, 2} && [] + [2] == [2];
    }
  }

  lemma DfsSample0()
    ensures IsAdjacency(Sample)
    ensures DfsLoop(Sample, {0}, [0], []) == DfsLoop(Sample, {0, 1, 2}, [2, 1], [0])
  {
    DfsSampleScan0();
    assert [0][..0] == [] && [] + [0] == [0];
  }

  lemma DfsSampleScan1()
    ensures IsAdjacency(Sample)
    ensures DfsScan(Sample, 1, 4, {0, 1, 2}, [2]) == Frontier({0, 1, 2, 3}, [2, 3])
  {
    SampleIsAdjacency();
    assert DfsScan(Sample, 1, 3, {0, 1, 2}, [2]) == Frontier({0, 1, 2, 3}, [2, 3]) by {
      assert DfsScan(Sample, 1, 2, {0, 1, 2, 3}, [2, 3]) == Frontier({0, 1, 2, 3}, [2, 3]) by {
        assert DfsScan(Sample, 1, 1, {0, 1, 2, 3}, [2, 3]) == Frontier({0, 1, 2, 3}, [2, 3]) by {
          assert DfsScan(Sample, 1, 0, {0, 1, 2, 3}, [2, 3]) == Frontier({0, 1, 2, 3}, [2, 3]);
        }
      }
      assert {0, 1, 2} + {3} == {0, 1, 2, 3} && [2] + [3] == [2, 3];
    }
  }

  lemma DfsSample1()
    ensures IsAdjacency(Sample)
    ensures DfsLoop(Sample, {0, 1, 2}, [2, 1], [0]) == DfsLoop(Sample, {0, 1, 2, 3}, [2, 3], [0, 1])
  {
    DfsSampleScan1();
    assert [2, 1][..1] == [2] && [0] + [1] == [0, 1];
  }

  lemma DfsSample2()
    ensures IsAdjacency(Sample)
    ensures DfsLoop(Sample, {0, 1, 2, 3}, [2, 3], [0, 1]) == DfsLoop(Sample, {0, 1, 2, 3}, [2], [0, 1, 3])
  {
    SampleIsAdjacency();
    assert DfsScan(Sample, 3, 4, {0, 1, 2, 3}, [2]) == Frontier({0, 1, 2, 3}, [2]);
    assert [2, 3][..1] == [2] && [0, 1] + [3] == [0, 1, 3];
  }

  lemma DfsSample3()
    ensures IsAdjacency(Sample)
    ensures DfsLoop(Sample, {0, 1, 2, 3}, [2], [0, 1, 3]) == DfsLoop(Sample, {0, 1, 2, 3, 4}, [4], [0, 1, 3, 2])
  {
    SampleIsAdjacency();
    assert DfsScan(Sample, 2, 4, {0, 1, 2, 3}, []) == Frontier({0, 1, 2, 3, 4}, [4]) by {
      assert DfsScan(Sample, 2, 3, {0, 1, 2, 3, 4}, [4]) == Frontier({0, 1, 2, 3, 4}, [4]);
      assert {0, 1, 2, 3} + {4} == {0, 1, 2, 3, 4} && [] + [4] == [4];
    }
    assert [2][..0] == [] && [0, 1, 3] + [2] == [0, 1, 3, 2];
  }

  lemma DfsSample4()
    ensures IsAdjacency(Sample)
    ensures DfsLoop(Sample, {0, 1, 2, 3, 4}, [4], [0, 1, 3, 2]) == [0, 1, 3, 2, 4]
  {
    SampleIsAdjacency();
    assert DfsScan(Sample, 4, 4, {0, 1, 2, 3, 4}, []) == Frontier({0, 1, 2, 3, 4}, []);
    assert [4][..0] == [] && [0, 1, 3, 2] + [4] == [0, 1, 3, 2, 4];
  }

  /** `dfs` from vertex 0 of the sample graph emits 0, 1, 3, 2, 4. */
  lemma DfsSample()
    ensures IsAdjacency(Sample) && Dfs(Sample, 0) == [0, 1, 3, 2, 4]
  {
    DfsSample0();
    DfsSample1();
    DfsSample2();
    DfsSample3();
    DfsSample4();
  }
}
