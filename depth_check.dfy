/** dfs and checkDepthConstraint of lab3/main.cpp: a depth-limited depth-first search
    that marks vertices in a shared visited array, and the check that it marked them all. */
module DepthCheck {
  import opened GraphSpec
  import opened Graphs
  import opened GraphDiameter
  import opened SpanningTree

  /** r keeps every mark of vis. */
  ghost predicate Grows(vis: seq<bool>, r: seq<bool>) {
    |r| == |vis| && forall i :: 0 <= i < |vis| && vis[i] ==> r[i]
  }

  /** dfs(v, depth) on the marks vis: nothing happens beyond maxDepth; otherwise v is
      marked and every neighbour still unmarked when its turn comes is searched one
      level deeper. */
  function DfsVisit(adj: seq<seq<int>>, v: int, vis: seq<bool>, depth: int, maxDepth: int): (r: seq<bool>)
    requires WellFormed(adj) && |vis| == |adj| && 0 <= v < |adj| && !vis[v]
    ensures Grows(vis, r) && CountTrue(r) >= CountTrue(vis)
    ensures r[v] <==> depth <= maxDepth
    decreases |vis| - CountTrue(vis), 0
  {
    if depth > maxDepth then vis
    else
      CountTrueUpdate(vis, v);
      DfsEach(adj, adj[v], 0, vis[v := true], depth + 1, maxDepth)
  }

  /** The neighbour loop of dfs from position i of nbrs on, at the neighbours' depth. */
  function DfsEach(adj: seq<seq<int>>, nbrs: seq<int>, i: int, vis: seq<bool>, depth: int, maxDepth: int): (r: seq<bool>)
    requires WellFormed(adj) && |vis| == |adj| && 0 <= i <= |nbrs|
    requires forall s :: 0 <= s < |nbrs| ==> 0 <= nbrs[s] < |adj|
    ensures Grows(vis, r) && CountTrue(r) >= CountTrue(vis)
    decreases |vis| - CountTrue(vis), 1, |nbrs| - i
  {
    if i == |nbrs| then vis
    else
      var u := nbrs[i];
      var vis' := if vis[u] then vis else DfsVisit(adj, u, vis, depth, maxDepth);
      DfsEach(adj, nbrs, i + 1, vis', depth, maxDepth)
  }

  /** dfs over the shared visited array. */
  method Dfs(adj: seq<seq<int>>, v: int, visited: array<bool>, depth: int, maxDepth: int)
    requires WellFormed(adj) && visited.Length == |adj| && 0 <= v < |adj| && !visited[v]
    modifies visited
    ensures visited[..] == DfsVisit(adj, v, old(visited[..]), depth, maxDepth)
    decreases visited.Length - CountTrue(visited[..]), 0
  {
    if depth > maxDepth {
      return;
    }
    ghost var vis0 := visited[..];
    visited[v] := true;
    assert visited[..] == vis0[v := true];
    CountTrueUpdate(vis0, v);
    ghost var target := DfsEach(adj, adj[v], 0, visited[..], depth + 1, maxDepth);
    for t := 0 to |adj[v]|
      invariant DfsEach(adj, adj[v], t, visited[..], depth + 1, maxDepth) == target
      invariant CountTrue(visited[..]) > CountTrue(vis0)
    {
      var u := adj[v][t];
      if !visited[u] {
        Dfs(adj, u, visited, depth + 1, maxDepth);
      }
    }
  }

  /** The marks dfs leaves when started at start with all vertices unmarked. */
  function DfsMarks(adj: seq<seq<int>>, start: int, maxDepth: int): (r: seq<bool>)
    requires WellFormed(adj) && 0 <= start < |adj|
    ensures |r| == |adj| && (r[start] <==> 0 <= maxDepth)
  {
    DfsVisit(adj, start, NoMarks(|adj|), 0, maxDepth)
  }

  /** The visited array checkDepthConstraint starts from. */
  function NoMarks(n: nat): (r: seq<bool>)
    ensures |r| == n && forall i :: 0 <= i < n ==> !r[i]
  {
    seq(n, _ => false)
  }

  /** checkDepthConstraint as written: true iff the depth-limited dfs marked every vertex. */
  method CheckDepthConstraintAsWritten(g: Graph, start: int, maxDepth: int) returns (ok: bool)
    requires g.Valid() && 0 <= start < g.n
    ensures ok <==> forall v :: 0 <= v < g.n ==> DfsMarks(g.adj, start, maxDepth)[v]
  {
    var visited := new bool[g.n](_ => false);
    assert visited[..] == NoMarks(g.n);
    Dfs(g.adj, start, visited, 0, maxDepth);
    assert visited[..] == DfsMarks(g.adj, start, maxDepth);
    ok := forall v | 0 <= v < g.n :: visited[v];
    assert forall v :: 0 <= v < g.n ==> visited[v] == visited[..][v];
  }

  lemma DfsVisitSound(adj: seq<seq<int>>, s: int, v: int, vis: seq<bool>, depth: int, maxDepth: int)
    requires WellFormed(adj) && |vis| == |adj| && 0 <= v < |adj| && !vis[v] && Walk(adj, s, v, depth)
    ensures forall w :: 0 <= w < |adj| && DfsVisit(adj, v, vis, depth, maxDepth)[w] && !vis[w] ==>
      Within(adj, s, w, maxDepth)
    decreases |vis| - CountTrue(vis), 0
  {
    if depth <= maxDepth {
      CountTrueUpdate(vis, v);
      assert 0 <= depth;
      assert Within(adj, s, v, maxDepth);
      forall t | 0 <= t < |adj[v]|
        ensures Walk(adj, s, adj[v][t], depth + 1)
      {
        WalkExtend(adj, s, v, adj[v][t], depth);
      }
      DfsEachSound(adj, s, adj[v], 0, vis[v := true], depth + 1, maxDepth);
    }
  }

  lemma DfsEachSound(adj: seq<seq<int>>, s: int, nbrs: seq<int>, i: int, vis: seq<bool>, depth: int, maxDepth: int)
    requires WellFormed(adj) && |vis| == |adj| && 0 <= i <= |nbrs|
    requires forall t :: 0 <= t < |nbrs| ==> 0 <= nbrs[t] < |adj| && Walk(adj, s, nbrs[t], depth)
    ensures forall w :: 0 <= w < |adj| && DfsEach(adj, nbrs, i, vis, depth, maxDepth)[w] && !vis[w] ==>
      Within(adj, s, w, maxDepth)
    decreases |vis| - CountTrue(vis), 1, |nbrs| - i
  {
    if i < |nbrs| {
      var u := nbrs[i];
      var vis' := if vis[u] then vis else DfsVisit(adj, u, vis, depth, maxDepth);
      if !vis[u] {
        DfsVisitSound(adj, s, u, vis, depth, maxDepth);
      }
      DfsEachSound(adj, s, nbrs, i + 1, vis', depth, maxDepth);
    }
  }

  /** Every vertex dfs marks is reachable from the start by a walk of at most maxDepth
      edges, so a positive answer of the check is right. */
  lemma DfsMarksWithin(adj: seq<seq<int>>, start: int, maxDepth: int)
    requires WellFormed(adj) && 0 <= start < |adj|
    ensures forall v :: 0 <= v < |adj| && DfsMarks(adj, start, maxDepth)[v] ==> Within(adj, start, v, maxDepth)
  {
    DfsVisitSound(adj, start, start, NoMarks(|adj|), 0, maxDepth);
  }

  /** The graph with edges 0-1, 1-2, 0-2 and 2-3, vertex 0 listing 1 before 2. */
  function Diamond(): (adj: seq<seq<int>>)
    ensures Simple(adj) && |adj| == 4
  {
    [[1, 2], [0, 2], [1, 0, 3], [2]]
  }

  /** The walk 0-2-3 reaches vertex 3 in two edges. */
  lemma DiamondWithin()
    ensures Within(Diamond(), 0, 3, 2)
  {
    var adj := Diamond();
    assert Walk(adj, 0, 0, 0);
    assert 2 in adj[0] && Walk(adj, 0, 2, 1);
    assert 3 in adj[2] && Walk(adj, 0, 3, 2);
  }

  /** From 2 at depth 2 the search skips 1 and 0 and stops at 3, which is at depth 3. */
  lemma DiamondFrom2()
    ensures DfsVisit(Diamond(), 2, [true, true, false, false], 2, 2) == [true, true, true, false]
  {
    var adj, v3 := Diamond(), [true, true, true, false];
    assert DfsVisit(adj, 3, v3, 3, 2) == v3;
    assert DfsEach(adj, adj[2], 3, v3, 3, 2) == v3;
    assert DfsEach(adj, adj[2], 2, v3, 3, 2) == v3;
    assert DfsEach(adj, adj[2], 1, v3, 3, 2) == v3;
    assert DfsEach(adj, adj[2], 0, v3, 3, 2) == v3;
    assert [true, true, false, false][2 := true] == v3;
  }

  /** From 1 at depth 1 the search skips 0 and goes on to 2. */
  lemma DiamondFrom1()
    ensures DfsVisit(Diamond(), 1, [true, false, false, false], 1, 2) == [true, true, true, false]
  {
    var adj, v2, v3 := Diamond(), [true, true, false, false], [true, true, true, false];
    DiamondFrom2();
    assert DfsEach(adj, adj[1], 2, v3, 2, 2) == v3;
    assert DfsEach(adj, adj[1], 1, v2, 2, 2) == v3;
    assert DfsEach(adj, adj[1], 0, v2, 2, 2) == v3;
    assert [true, false, false, false][1 := true] == v2;
  }

  /** The search reaches 2 through 1 at depth 2 and gives up on 3 at depth 3, so 3 stays
      unmarked although it is two edges from the start: a negative answer of the check can
      be wrong. */
  lemma DfsMissesShortWalk()
    ensures Within(Diamond(), 0, 3, 2)
    ensures !DfsMarks(Diamond(), 0, 2)[3]
  {
    DiamondWithin();
    DiamondFrom1();
    var adj, v1, v3 := Diamond(), [true, false, false, false], [true, true, true, false];
    assert DfsEach(adj, adj[0], 2, v3, 1, 2) == v3;
    assert DfsEach(adj, adj[0], 1, v3, 1, 2) == v3;
    assert DfsEach(adj, adj[0], 0, v1, 1, 2) == v3;
    assert NoMarks(4)[0 := true] == v1;
    assert DfsMarks(adj, 0, 2) == v3;
  }

  /** checkDepthConstraint as intended: true iff every vertex lies within maxDepth edges
      of the start, decided from breadth-first distances. */
  method CheckDepthConstraint(g: Graph, start: int, maxDepth: int) returns (ok: bool)
    requires g.Valid() && 0 <= start < g.n
    ensures ok <==> forall v :: 0 <= v < g.n ==> Within(g.adj, start, v, maxDepth)
  {
    var dist := Bfs(g.adj, start);
    BfsDistances(g.adj, start, dist);
    ok := forall v | 0 <= v < g.n :: 0 <= dist[v] <= maxDepth;
    forall v | 0 <= v < g.n
      ensures (0 <= dist[v] <= maxDepth) <==> Within(g.adj, start, v, maxDepth)
    {
      if 0 <= dist[v] <= maxDepth {
        assert Dist(g.adj, start, v, dist[v]);
      }
    }
  }
}
