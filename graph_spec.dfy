/** Undirected graphs as adjacency lists (the `adj` field of lab3's Graph), walks,
    shortest distances, breadth-first levels and degree statistics. */
module GraphSpec {

  /** Every neighbour id names a vertex; vertices are 0 .. |adj| - 1. */
  ghost predicate WellFormed(adj: seq<seq<int>>) {
    forall v, t :: 0 <= v < |adj| && 0 <= t < |adj[v]| ==> 0 <= adj[v][t] < |adj|
  }

  /** Every edge is stored at both of its ends. */
  ghost predicate Symmetric(adj: seq<seq<int>>) {
    forall v, u :: 0 <= v < |adj| && 0 <= u < |adj| ==> (u in adj[v] <==> v in adj[u])
  }

  ghost predicate LoopFree(adj: seq<seq<int>>) {
    forall v :: 0 <= v < |adj| ==> v !in adj[v]
  }

  ghost predicate DuplicateFree(adj: seq<seq<int>>) {
    forall v, s, t :: 0 <= v < |adj| && 0 <= s < t < |adj[v]| ==> adj[v][s] != adj[v][t]
  }

  /** A simple undirected graph: what generateGraph builds. */
  ghost predicate Simple(adj: seq<seq<int>>) {
    WellFormed(adj) && Symmetric(adj) && LoopFree(adj) && DuplicateFree(adj)
  }

  /** n vertices and no edges: a freshly constructed or cleared Graph. */
  function EmptyLists(n: nat): (r: seq<seq<int>>)
    ensures |r| == n && forall v :: 0 <= v < n ==> r[v] == []
  {
    seq(n, _ => [])
  }

  /** Total length of all adjacency lists. */
  function SumDegrees(adj: seq<seq<int>>): nat
  {
    if adj == [] then 0 else SumDegrees(adj[..|adj| - 1]) + |adj[|adj| - 1]|
  }

  /** Length of the longest adjacency list, 0 for a graph without vertices. */
  function MaxDegree(adj: seq<seq<int>>): nat
  {
    if adj == [] then 0
    else
      var m := MaxDegree(adj[..|adj| - 1]);
      if |adj[|adj| - 1]| > m then |adj[|adj| - 1]| else m
  }

  lemma {:induction false} MaxDegreeIsMax(adj: seq<seq<int>>)
    ensures forall v :: 0 <= v < |adj| ==> |adj[v]| <= MaxDegree(adj)
    ensures adj == [] ==> MaxDegree(adj) == 0
    ensures adj != [] ==> exists v :: 0 <= v < |adj| && |adj[v]| == MaxDegree(adj)
  {
    if adj != [] {
      var init := adj[..|adj| - 1];
      MaxDegreeIsMax(init);
      assert forall v :: 0 <= v < |init| ==> init[v] == adj[v];
      if init != [] {
        var w :| 0 <= w < |init| && |init[w]| == MaxDegree(init);
        assert |adj[w]| == MaxDegree(init);
      }
    }
  }

  lemma {:induction false} SumDegreesEmpty(n: nat)
    ensures SumDegrees(EmptyLists(n)) == 0 && MaxDegree(EmptyLists(n)) == 0
  {
    if n > 0 {
      assert EmptyLists(n)[..n - 1] == EmptyLists(n - 1);
      SumDegreesEmpty(n - 1);
    }
  }

  /** A graph without edges is simple and has no degree at all. */
  lemma EmptyIsSimple(n: nat)
    ensures Simple(EmptyLists(n))
    ensures SumDegrees(EmptyLists(n)) == 0 && MaxDegree(EmptyLists(n)) == 0
  {
    SumDegreesEmpty(n);
  }

  // ---------------------------------------------------------------- edges

  /** The graph after std::find / push_back on both ends: j is appended to adj[i]
      and then i to adj[j], unless j is already a neighbour of i. */
  function WithEdge(adj: seq<seq<int>>, i: int, j: int): seq<seq<int>>
    requires 0 <= i < |adj| && 0 <= j < |adj|
  {
    if j in adj[i] then adj
    else
      var a := adj[i := adj[i] + [j]];
      a[j := a[j] + [i]]
  }

  /** r is adj with an edge added between i and each chosen vertex, and nothing else. */
  ghost predicate EdgesAdded(adj: seq<seq<int>>, r: seq<seq<int>>, i: int, chosen: seq<int>) {
    |r| == |adj| &&
    forall v, u :: 0 <= v < |adj| && 0 <= u < |adj| ==> AddedAt(adj, r, i, chosen, v, u)
  }

  ghost predicate AddedAt(adj: seq<seq<int>>, r: seq<seq<int>>, i: int, chosen: seq<int>, v: int, u: int)
    requires 0 <= v < |adj| && |r| == |adj|
  {
    u in r[v] <==> u in adj[v] || (v == i && u in chosen) || (u == i && v in chosen)
  }

  /** Adding an edge between two different vertices keeps a simple graph simple and
      adds exactly the adjacency between them. */
  lemma WithEdgeSimple(adj: seq<seq<int>>, i: int, j: int)
    requires Simple(adj) && 0 <= i < |adj| && 0 <= j < |adj| && i != j
    ensures Simple(WithEdge(adj, i, j))
    ensures EdgesAdded(adj, WithEdge(adj, i, j), i, [j])
  {
    var r := WithEdge(adj, i, j);
    if j !in adj[i] {
      assert i !in adj[j];
      assert r[i] == adj[i] + [j] && r[j] == adj[j] + [i];
      assert forall v :: 0 <= v < |adj| && v != i && v != j ==> r[v] == adj[v];
      forall v, s, t | 0 <= v < |r| && 0 <= s < t < |r[v]|
        ensures r[v][s] != r[v][t]
      {
        if v == i && t == |adj[i]| {
          assert adj[i][s] in adj[i];
        } else if v == j && t == |adj[j]| {
          assert adj[j][s] in adj[j];
        }
      }
    }
    forall v, u | 0 <= v < |adj| && 0 <= u < |adj|
      ensures AddedAt(adj, r, i, [j], v, u)
    {
    }
  }

  /** The adjacency lists after a sequence of WithEdge steps from i to each chosen vertex,
      the loop over k in generateGraph. */
  function WithEdges(adj: seq<seq<int>>, i: int, chosen: seq<int>): (r: seq<seq<int>>)
    requires 0 <= i < |adj| && forall k :: 0 <= k < |chosen| ==> 0 <= chosen[k] < |adj|
    ensures |r| == |adj|
  {
    if chosen == [] then adj
    else WithEdge(WithEdges(adj, i, chosen[..|chosen| - 1]), i, chosen[|chosen| - 1])
  }

  /** Connecting vertex i to candidates other than i keeps the graph simple; afterwards
      i is adjacent to every candidate and no other adjacency appears. */
  lemma {:induction false} WithEdgesSimple(adj: seq<seq<int>>, i: int, chosen: seq<int>)
    requires Simple(adj) && 0 <= i < |adj|
    requires forall k :: 0 <= k < |chosen| ==> 0 <= chosen[k] < |adj| && chosen[k] != i
    ensures Simple(WithEdges(adj, i, chosen))
    ensures EdgesAdded(adj, WithEdges(adj, i, chosen), i, chosen)
  {
    var r := WithEdges(adj, i, chosen);
    if chosen != [] {
      var init := chosen[..|chosen| - 1];
      var j := chosen[|chosen| - 1];
      WithEdgesSimple(adj, i, init);
      var a := WithEdges(adj, i, init);
      WithEdgeSimple(a, i, j);
      assert chosen == init + [j];
      forall v, u | 0 <= v < |adj| && 0 <= u < |adj|
        ensures AddedAt(adj, r, i, chosen, v, u)
      {
        assert AddedAt(adj, a, i, init, v, u) && AddedAt(a, r, i, [j], v, u);
        assert u in chosen <==> u in init || u == j;
        assert v in chosen <==> v in init || v == j;
      }
    } else {
      forall v, u | 0 <= v < |adj| && 0 <= u < |adj|
        ensures AddedAt(adj, r, i, chosen, v, u)
      {
      }
    }
  }

  // ---------------------------------------------------------------- walks

  /** Some walk of exactly k edges leads from s to v. */
  ghost predicate Walk(adj: seq<seq<int>>, s: int, v: int, k: int)
    decreases k
  {
    if k <= 0 then k == 0 && s == v
    else exists u :: 0 <= u < |adj| && v in adj[u] && Walk(adj, s, u, k - 1)
  }

  /** k is the length of a shortest walk from s to v. */
  ghost predicate Dist(adj: seq<seq<int>>, s: int, v: int, k: int) {
    Walk(adj, s, v, k) && forall j :: 0 <= j < k ==> !Walk(adj, s, v, j)
  }

  /** Some walk of at most m edges leads from s to v. */
  ghost predicate Within(adj: seq<seq<int>>, s: int, v: int, m: int) {
    exists k :: 0 <= k <= m && Walk(adj, s, v, k)
  }

  lemma WalkExtend(adj: seq<seq<int>>, s: int, u: int, v: int, k: int)
    requires 0 <= u < |adj| && v in adj[u]
    ensures Walk(adj, s, u, k) ==> Walk(adj, s, v, k + 1)
  {
  }

  /** The last step of a shortest walk comes from a vertex one step closer. */
  lemma DistStep(adj: seq<seq<int>>, s: int, v: int, k: int) returns (u: int)
    requires Dist(adj, s, v, k) && 0 < k
    ensures 0 <= u < |adj| && v in adj[u] && Dist(adj, s, u, k - 1)
  {
    u :| 0 <= u < |adj| && v in adj[u] && Walk(adj, s, u, k - 1);
    forall j | 0 <= j < k - 1
      ensures !Walk(adj, s, u, j)
    {
      WalkExtend(adj, s, u, v, j);
    }
  }

  /** A vertex has at most one shortest distance. */
  lemma DistUnique(adj: seq<seq<int>>, s: int, v: int, a: int, b: int)
    requires Dist(adj, s, v, a) && Dist(adj, s, v, b)
    ensures a == b
  {
  }

  /** Every level 0 .. k below a shortest distance k is inhabited. */
  lemma {:induction false} DistLevel(adj: seq<seq<int>>, s: int, v: int, k: int, m: int) returns (w: int)
    requires 0 <= v < |adj| && Dist(adj, s, v, k) && 0 <= m <= k
    ensures 0 <= w < |adj| && Dist(adj, s, w, m)
    decreases k
  {
    if m == k {
      w := v;
    } else {
      var u := DistStep(adj, s, v, k);
      w := DistLevel(adj, s, u, k - 1, m);
    }
  }

  /** The vertices at shortest distance at most m from s. */
  ghost function Levels(adj: seq<seq<int>>, s: int, m: int): set<int> {
    set w | w in Range(|adj|) && InLevel(adj, s, w, m)
  }

  /** w has a shortest distance of at most m from s. */
  ghost predicate InLevel(adj: seq<seq<int>>, s: int, w: int, m: int) {
    exists j :: 0 <= j <= m && Dist(adj, s, w, j)
  }

  /** The vertex ids 0 .. n - 1. */
  function Range(n: nat): (r: set<int>)
    ensures forall w :: w in r <==> 0 <= w < n
  {
    if n == 0 then {} else Range(n - 1) + {n - 1}
  }

  lemma SubsetCard(a: set<int>, b: set<int>)
    requires a <= b
    ensures |a| <= |b|
  {
    assert b == a + (b - a);
  }

  lemma {:induction false} RangeCard(n: nat)
    ensures |Range(n)| == n
  {
    if n > 0 {
      RangeCard(n - 1);
    }
  }

  lemma {:induction false} LevelsGrow(adj: seq<seq<int>>, s: int, v: int, k: int, m: int)
    requires 0 <= s < |adj| && 0 <= v < |adj| && Dist(adj, s, v, k) && 0 <= m <= k
    ensures |Levels(adj, s, m)| >= m + 1
  {
    if m == 0 {
      assert Dist(adj, s, s, 0);
      assert s in Levels(adj, s, 0);
      SubsetCard({s}, Levels(adj, s, 0));
    } else {
      LevelsGrow(adj, s, v, k, m - 1);
      var w := DistLevel(adj, s, v, k, m);
      assert w !in Levels(adj, s, m - 1);
      assert Levels(adj, s, m - 1) + {w} <= Levels(adj, s, m);
      SubsetCard(Levels(adj, s, m - 1) + {w}, Levels(adj, s, m));
    }
  }

  /** A shortest walk visits each vertex at most once, so it has fewer than n edges. */
  lemma DistBound(adj: seq<seq<int>>, s: int, v: int, k: int)
    requires 0 <= s < |adj| && 0 <= v < |adj| && Dist(adj, s, v, k)
    ensures 0 <= k < |adj|
  {
    LevelsGrow(adj, s, v, k, k);
    SubsetCard(Levels(adj, s, k), Range(|adj|));
    RangeCard(|adj|);
  }

  /** Without edges the only walks are the empty ones. */
  lemma NoEdgesNoWalk(adj: seq<seq<int>>, s: int, v: int, k: int)
    requires forall u :: 0 <= u < |adj| ==> adj[u] == []
    ensures Walk(adj, s, v, k) ==> k == 0
  {
  }

  // ---------------------------------------------------------------- breadth-first levels

  /** v has a reached neighbour one level above it. */
  ghost predicate Parented(adj: seq<seq<int>>, reached: seq<bool>, level: seq<int>, v: int)
    requires |reached| == |adj| && |level| == |adj| && 0 <= v < |adj|
  {
    exists u :: 0 <= u < |adj| && reached[u] && v in adj[u] && level[v] == level[u] + 1
  }

  /** The reached vertices and levels form a search tree rooted at s: s is at level 0 and
      every other reached vertex sits one level below a reached neighbour. */
  ghost predicate LevelsSound(adj: seq<seq<int>>, s: int, reached: seq<bool>, level: seq<int>) {
    |reached| == |adj| && |level| == |adj| && 0 <= s < |adj| && reached[s] && level[s] == 0 &&
    forall v :: 0 <= v < |adj| && reached[v] && v != s ==> 0 < level[v] && Parented(adj, reached, level, v)
  }

  /** Every reached vertex below level `limit` has all its neighbours reached, at most one
      level further down. */
  ghost predicate LevelsClosed(adj: seq<seq<int>>, reached: seq<bool>, level: seq<int>, limit: int) {
    WellFormed(adj) && |reached| == |adj| && |level| == |adj| &&
    forall v, t :: 0 <= v < |adj| && reached[v] && level[v] < limit && 0 <= t < |adj[v]| ==>
      reached[adj[v][t]] && level[adj[v][t]] <= level[v] + 1
  }

  /** LevelsClosed without a limit: the search ran until its queue was empty. */
  ghost predicate LevelsClosedAll(adj: seq<seq<int>>, reached: seq<bool>, level: seq<int>) {
    WellFormed(adj) && |reached| == |adj| && |level| == |adj| &&
    forall v, t :: 0 <= v < |adj| && reached[v] && 0 <= t < |adj[v]| ==>
      reached[adj[v][t]] && level[adj[v][t]] <= level[v] + 1
  }

  lemma {:induction false} SoundWalk(adj: seq<seq<int>>, s: int, reached: seq<bool>, level: seq<int>, v: int)
    requires LevelsSound(adj, s, reached, level) && 0 <= v < |adj| && reached[v]
    ensures Walk(adj, s, v, level[v])
    decreases level[v]
  {
    if v != s {
      var u :| 0 <= u < |adj| && reached[u] && v in adj[u] && level[v] == level[u] + 1;
      SoundWalk(adj, s, reached, level, u);
    }
  }

  lemma {:induction false} WalkReached(adj: seq<seq<int>>, s: int, reached: seq<bool>, level: seq<int>,
                                       limit: int, v: int, k: int)
    requires LevelsSound(adj, s, reached, level) && LevelsClosed(adj, reached, level, limit)
    requires 0 <= v < |adj| && k <= limit
    ensures Walk(adj, s, v, k) ==> reached[v] && level[v] <= k
    decreases k
  {
    if 0 < k && Walk(adj, s, v, k) {
      var u :| 0 <= u < |adj| && v in adj[u] && Walk(adj, s, u, k - 1);
      WalkReached(adj, s, reached, level, limit, u, k - 1);
      var t :| 0 <= t < |adj[u]| && adj[u][t] == v;
    }
  }

  /** Levels closed up to `limit` are exact shortest distances, and every vertex within
      `limit` of s is reached, no deeper than its distance. */
  lemma LevelsAreDistances(adj: seq<seq<int>>, s: int, reached: seq<bool>, level: seq<int>, limit: int)
    requires LevelsSound(adj, s, reached, level) && LevelsClosed(adj, reached, level, limit)
    requires forall v :: 0 <= v < |adj| && reached[v] ==> level[v] <= limit
    ensures forall v :: 0 <= v < |adj| && reached[v] ==> Dist(adj, s, v, level[v])
    ensures forall v, k :: 0 <= v < |adj| && k <= limit && Walk(adj, s, v, k) ==> reached[v] && level[v] <= k
  {
    forall v, k | 0 <= v < |adj| && k <= limit
      ensures Walk(adj, s, v, k) ==> reached[v] && level[v] <= k
    {
      WalkReached(adj, s, reached, level, limit, v, k);
    }
    forall v | 0 <= v < |adj| && reached[v]
      ensures Dist(adj, s, v, level[v])
    {
      SoundWalk(adj, s, reached, level, v);
    }
  }

  lemma ClosedAllIsClosed(adj: seq<seq<int>>, reached: seq<bool>, level: seq<int>, limit: int)
    requires LevelsClosedAll(adj, reached, level)
    ensures LevelsClosed(adj, reached, level, limit)
  {
  }

  // ---------------------------------------------------------------- unbounded search

  /** Reached vertices of a distance array: those not left at -1. */
  function Reached(dist: seq<int>): (r: seq<bool>)
    ensures |r| == |dist| && forall v :: 0 <= v < |dist| ==> (r[v] <==> 0 <= dist[v])
  {
    seq(|dist|, v requires 0 <= v < |dist| => 0 <= dist[v])
  }

  /** What the BFS of computeDiameter leaves in `dist` when its queue is empty. */
  ghost predicate IsBfsDist(adj: seq<seq<int>>, s: int, dist: seq<int>) {
    |dist| == |adj| && (forall v :: 0 <= v < |dist| ==> -1 <= dist[v]) &&
    LevelsSound(adj, s, Reached(dist), dist) && LevelsClosedAll(adj, Reached(dist), dist)
  }

  /** The BFS distance of every vertex is its shortest distance from s, and -1 exactly
      when no walk reaches it. */
  lemma BfsDistances(adj: seq<seq<int>>, s: int, dist: seq<int>)
    requires IsBfsDist(adj, s, dist)
    ensures forall v, k :: 0 <= v < |adj| ==> (Dist(adj, s, v, k) <==> 0 <= dist[v] && dist[v] == k)
    ensures forall v, k :: 0 <= v < |adj| ==> (Walk(adj, s, v, k) ==> 0 <= dist[v] <= k)
  {
    var reached := Reached(dist);
    forall v, k | 0 <= v < |adj|
      ensures Walk(adj, s, v, k) ==> 0 <= dist[v] <= k
    {
      ClosedAllIsClosed(adj, reached, dist, k);
      WalkReached(adj, s, reached, dist, k, v, k);
    }
    forall v | 0 <= v < |adj| && 0 <= dist[v]
      ensures Dist(adj, s, v, dist[v])
    {
      SoundWalk(adj, s, reached, dist, v);
    }
  }

  // ---------------------------------------------------------------- diameter

  /** d is the largest shortest distance between two vertices (0 without any pair at
      positive distance). */
  ghost predicate IsDiameter(adj: seq<seq<int>>, d: int) {
    0 <= d &&
    (forall s, v, k :: 0 <= s < |adj| && 0 <= v < |adj| && Dist(adj, s, v, k) ==> k <= d) &&
    (d == 0 || exists s, v :: 0 <= s < |adj| && 0 <= v < |adj| && Dist(adj, s, v, d))
  }

  /** The diameter is below the number of vertices. */
  lemma DiameterBound(adj: seq<seq<int>>, d: int)
    requires IsDiameter(adj, d)
    ensures |adj| == 0 ==> d == 0
    ensures 0 < |adj| ==> d <= |adj| - 1
  {
    if d != 0 {
      var s, v :| 0 <= s < |adj| && 0 <= v < |adj| && Dist(adj, s, v, d);
      DistBound(adj, s, v, d);
    }
  }

  /** A graph without edges has diameter 0. */
  lemma DiameterNoEdges(adj: seq<seq<int>>, d: int)
    requires IsDiameter(adj, d) && forall u :: 0 <= u < |adj| ==> adj[u] == []
    ensures d == 0
  {
    forall s, v | 0 <= s < |adj| && 0 <= v < |adj|
      ensures !Dist(adj, s, v, d) || d == 0
    {
      NoEdgesNoWalk(adj, s, v, d);
    }
  }

  /** A graph has one diameter. */
  lemma DiameterUnique(adj: seq<seq<int>>, d1: int, d2: int)
    requires IsDiameter(adj, d1) && IsDiameter(adj, d2)
    ensures d1 == d2
  {
    if d1 != 0 {
      var s, v :| 0 <= s < |adj| && 0 <= v < |adj| && Dist(adj, s, v, d1);
    }
    if d2 != 0 {
      var s, v :| 0 <= s < |adj| && 0 <= v < |adj| && Dist(adj, s, v, d2);
    }
  }
}
