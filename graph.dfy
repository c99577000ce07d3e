/** lab3's Graph record: n vertices with adjacency lists, the start vertex a tree was
    grown from and a display name. It is constructed empty, cleared and extended in
    place by the generator. */
module Graphs {
  import opened GraphSpec

  class Graph {
    var n: int
    var adj: seq<seq<int>>
    var startNode: int
    var name: string

    ghost predicate Valid()
      reads this
    {
      0 <= n && |adj| == n && WellFormed(adj)
    }

    constructor (n: int, name: string)
      requires 0 <= n
      ensures Valid() && this.n == n && adj == EmptyLists(n)
      ensures startNode == 0 && this.name == name
    {
      this.n := n;
      adj := EmptyLists(n);
      startNode := 0;
      this.name := name;
    }

    /** clear: every adjacency list is emptied; the vertex count stays. */
    method Clear()
      requires Valid()
      modifies this
      ensures Valid() && n == old(n) && adj == EmptyLists(n)
      ensures startNode == old(startNode) && name == old(name)
    {
      for i := 0 to |adj|
        invariant n == old(n) && |adj| == n && startNode == old(startNode) && name == old(name)
        invariant forall k :: 0 <= k < i ==> adj[k] == []
        invariant forall k :: i <= k < n ==> adj[k] == old(adj[k])
      {
        adj := adj[i := []];
      }
      assert adj == EmptyLists(n);
    }

    /** The integer part of getStats: the largest degree and half the degree sum. */
    method GetStats() returns (maxDegree: int, edgeCount: int)
      requires Valid()
      ensures maxDegree == MaxDegree(adj) && edgeCount == SumDegrees(adj) / 2
    {
      maxDegree := 0;
      edgeCount := 0;
      for i := 0 to n
        invariant maxDegree == MaxDegree(adj[..i]) && edgeCount == SumDegrees(adj[..i])
      {
        assert adj[..i + 1][..i] == adj[..i];
        var degree := |adj[i]|;
        if degree > maxDegree {
          maxDegree := degree;
        }
        edgeCount := edgeCount + degree;
      }
      assert adj[..n] == adj;
      edgeCount := edgeCount / 2;
    }

    /** One edge step of generateGraph: j joins adj[i] and i joins adj[j], unless j is
        already a neighbour of i. */
    method AddEdgeIfAbsent(i: int, j: int)
      requires Valid() && 0 <= i < n && 0 <= j < n
      modifies this
      ensures Valid() && n == old(n) && adj == WithEdge(old(adj), i, j)
      ensures startNode == old(startNode) && name == old(name)
    {
      if j !in adj[i] {
        adj := adj[i := adj[i] + [j]];
        adj := adj[j := adj[j] + [i]];
      }
    }

    /** The candidate list of generateGraph for vertex i: every other vertex whose
        connection probability is positive, in increasing order. */
    method Candidates(i: int, positive: seq<bool>) returns (candidates: seq<int>)
      requires Valid() && 0 <= i < n && |positive| == n
      ensures forall j :: j in candidates <==> 0 <= j < n && j != i && positive[j]
      ensures forall s, t :: 0 <= s < t < |candidates| ==> candidates[s] < candidates[t]
    {
      candidates := [];
      for j := 0 to n
        invariant forall u :: u in candidates <==> 0 <= u < j && u != i && positive[u]
        invariant forall s, t :: 0 <= s < t < |candidates| ==> candidates[s] < candidates[t]
        invariant forall s :: 0 <= s < |candidates| ==> candidates[s] < j
      {
        if i != j && positive[j] {
          candidates := candidates + [j];
        }
      }
    }

    /** The edge loop of generateGraph for vertex i: each drawn index picks a candidate,
        which is connected to i. */
    method ConnectPicks(i: int, candidates: seq<int>, picks: seq<int>)
      requires Valid() && 0 <= i < n
      requires forall s :: 0 <= s < |candidates| ==> 0 <= candidates[s] < n
      requires forall k :: 0 <= k < |picks| ==> 0 <= picks[k] < |candidates|
      modifies this
      ensures Valid() && n == old(n) && adj == WithEdges(old(adj), i, Picked(candidates, picks))
      ensures startNode == old(startNode) && name == old(name)
    {
      ghost var chosen := Picked(candidates, picks);
      for k := 0 to |picks|
        invariant Valid() && n == old(n) && adj == WithEdges(old(adj), i, chosen[..k])
        invariant startNode == old(startNode) && name == old(name)
      {
        var j := candidates[picks[k]];
        assert chosen[..k + 1][..k] == chosen[..k] && chosen[k] == j;
        AddEdgeIfAbsent(i, j);
      }
      assert chosen[..|picks|] == chosen;
    }
  }

  /** The candidates named by the drawn indices, in drawing order. */
  function Picked(candidates: seq<int>, picks: seq<int>): (chosen: seq<int>)
    requires forall k :: 0 <= k < |picks| ==> 0 <= picks[k] < |candidates|
    ensures |chosen| == |picks| && forall k :: 0 <= k < |picks| ==> chosen[k] == candidates[picks[k]]
  {
    seq(|picks|, k requires 0 <= k < |picks| => candidates[picks[k]])
  }

  /** Connecting a vertex to drawn candidates, which never include the vertex itself,
      keeps the graph simple and adds exactly the edges to the drawn candidates. */
  lemma ConnectPicksSimple(adj: seq<seq<int>>, i: int, positive: seq<bool>, candidates: seq<int>, picks: seq<int>)
    requires Simple(adj) && 0 <= i < |adj| && |positive| == |adj|
    requires forall j :: j in candidates <==> 0 <= j < |adj| && j != i && positive[j]
    requires forall s :: 0 <= s < |candidates| ==> 0 <= candidates[s] < |adj|
    requires forall k :: 0 <= k < |picks| ==> 0 <= picks[k] < |candidates|
    ensures Simple(WithEdges(adj, i, Picked(candidates, picks)))
    ensures EdgesAdded(adj, WithEdges(adj, i, Picked(candidates, picks)), i, Picked(candidates, picks))
    ensures forall k :: 0 <= k < |picks| ==> candidates[picks[k]] in WithEdges(adj, i, Picked(candidates, picks))[i]
  {
    var chosen := Picked(candidates, picks);
    forall k | 0 <= k < |chosen|
      ensures 0 <= chosen[k] < |adj| && chosen[k] != i
    {
      assert candidates[picks[k]] in candidates;
    }
    WithEdgesSimple(adj, i, chosen);
    var r := WithEdges(adj, i, chosen);
    forall k | 0 <= k < |picks|
      ensures candidates[picks[k]] in r[i]
    {
      assert chosen[k] in chosen;
      assert AddedAt(adj, r, i, chosen, i, chosen[k]);
    }
  }

  /** The integer degree statistics printed by printGraphInfo: the largest degree and
      the sum the average is taken from. */
  method DegreeStats(g: Graph) returns (maxDegree: int, degreeSum: int)
    requires g.Valid()
    ensures maxDegree == MaxDegree(g.adj) && degreeSum == SumDegrees(g.adj)
  {
    maxDegree := 0;
    degreeSum := 0;
    for i := 0 to g.n
      invariant maxDegree == MaxDegree(g.adj[..i]) && degreeSum == SumDegrees(g.adj[..i])
    {
      assert g.adj[..i + 1][..i] == g.adj[..i];
      var degree := |g.adj[i]|;
      if degree > maxDegree {
        maxDegree := degree;
      }
      degreeSum := degreeSum + degree;
    }
    assert g.adj[..g.n] == g.adj;
  }
}
