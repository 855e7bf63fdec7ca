/** The post-order of the test suite's five-vertex graph, worked through call
    by call. Each lemma takes the graph as a parameter equal to `Sample`. */
module DepthFirstExamples {
  import opened Seqs
  import opened Graph
  import opened DepthFirst

  /** Candidates `i` up to `k` that are not successors are passed over. */
  lemma {:induction false} SkipFrom(adj: seq<seq<int>>, root: int, i: int, k: int, t: Trail)
    requires IsAdjacency(adj) && 0 <= root < |adj| && 0 <= i <= k <= |adj| && t.visited <= Range(|adj|)
    requires forall j :: i <= j < k ==> adj[root][j] == 0
    ensures VisitFrom(adj, root, i, t) == VisitFrom(adj, root, k, t)
    decreases k - i
  {
    if i < k {
      SkipFrom(adj, root, i + 1, k, t);
    }
  }

  /** An unflagged successor `i` is searched before the loop goes on. */
  lemma DescendFrom(adj: seq<seq<int>>, root: int, i: int, t: Trail, t': Trail)
    requires IsAdjacency(adj) && 0 <= root < |adj| && 0 <= i < |adj| && t.visited <= Range(|adj|)
    requires adj[root][i] != 0 && i !in t.visited && Visit(adj, i, t) == t'
    ensures VisitFrom(adj, root, i, t) == VisitFrom(adj, root, i + 1, t')
  {
  }

  /** The helper emits `root` after whatever its loop leaves behind. */
  lemma VisitEmits(adj: seq<seq<int>>, root: int, t: Trail, flagged: set<int>, after: Trail)
    requires IsAdjacency(adj) && 0 <= root < |adj| && t.visited <= Range(|adj|)
    requires flagged == t.visited + {root} && VisitFrom(adj, root, 0, Trail(flagged, t.path)) == after
    ensures Visit(adj, root, t) == Trail(after.visited, after.path + [root])
  {
  }

  /** The entries of `Sample` each step reads. */
  lemma SampleRows(adj: seq<seq<int>>)
    requires adj == Sample
    ensures IsAdjacency(adj) && |adj| == 5
    ensures adj[0][1] != 0 && adj[0][2] != 0 && adj[1][3] != 0 && adj[2][4] != 0
    ensures adj[0][0] == 0 && adj[1][0] == 0 && adj[1][1] == 0 && adj[1][2] == 0
    ensures forall j :: 0 <= j < 4 ==> adj[2][j] == 0
    ensures forall j :: 3 <= j < 5 ==> adj[0][j] == 0
    ensures forall j :: 0 <= j < 5 ==> adj[3][j] == 0 && adj[4][j] == 0
  {
  }

  lemma SampleVisitThree(adj: seq<seq<int>>)
    requires adj == Sample
    ensures IsAdjacency(adj) && Visit(adj, 3, Trail({0, 1}, [])) == Trail({0, 1, 3}, [3])
  {
    SampleRows(adj);
    var t := Trail({0, 1, 3}, []);
    SkipFrom(adj, 3, 0, 5, t);
    VisitEmits(adj, 3, Trail({0, 1}, []), t.visited, t);
  }

  lemma SampleVisitOne(adj: seq<seq<int>>)
    requires adj == Sample
    ensures IsAdjacency(adj) && Visit(adj, 1, Trail({0}, [])) == Trail({0, 1, 3}, [3, 1])
  {
    SampleRows(adj);
    var t := Trail({0, 1}, []);
    var after := Trail({0, 1, 3}, [3]);
    SampleVisitThree(adj);
    SkipFrom(adj, 1, 4, 5, after);
    DescendFrom(adj, 1, 3, t, after);
    SkipFrom(adj, 1, 0, 3, t);
    VisitEmits(adj, 1, Trail({0}, []), t.visited, after);
  }

  lemma SampleVisitFour(adj: seq<seq<int>>)
    requires adj == Sample
    ensures IsAdjacency(adj) && Visit(adj, 4, Trail({0, 1, 2, 3}, [3, 1])) == Trail({0, 1, 2, 3, 4}, [3, 1, 4])
  {
    SampleRows(adj);
    var t := Trail({0, 1, 2, 3, 4}, [3, 1]);
    SkipFrom(adj, 4, 0, 5, t);
    VisitEmits(adj, 4, Trail({0, 1, 2, 3}, [3, 1]), t.visited, t);
  }

  lemma SampleVisitTwo(adj: seq<seq<int>>)
    requires adj == Sample
    ensures IsAdjacency(adj) && Visit(adj, 2, Trail({0, 1, 3}, [3, 1])) == Trail({0, 1, 2, 3, 4}, [3, 1, 4, 2])
  {
    SampleRows(adj);
    var t := Trail({0, 1, 2, 3}, [3, 1]);
    var after := Trail({0, 1, 2, 3, 4}, [3, 1, 4]);
    SampleVisitFour(adj);
    DescendFrom(adj, 2, 4, t, after);
    SkipFrom(adj, 2, 0, 4, t);
    VisitEmits(adj, 2, Trail({0, 1, 3}, [3, 1]), t.visited, after);
  }

  /** The post-order the test suite expects from vertex 0. */
  lemma SampleRdfs(adj: seq<seq<int>>)
    requires adj == Sample
    ensures IsAdjacency(adj) && Rdfs(adj, 0) == [3, 1, 4, 2, 0]
  {
    SampleRows(adj);
    var t := Trail({0}, []);
    var mid := Trail({0, 1, 3}, [3, 1]);
    var after := Trail({0, 1, 2, 3, 4}, [3, 1, 4, 2]);
    SampleVisitOne(adj);
    SampleVisitTwo(adj);
    SkipFrom(adj, 0, 3, 5, after);
    DescendFrom(adj, 0, 2, mid, after);
    DescendFrom(adj, 0, 1, t, mid);
    SkipFrom(adj, 0, 0, 1, t);
    VisitEmits(adj, 0, Trail({}, []), t.visited, after);
  }
}
