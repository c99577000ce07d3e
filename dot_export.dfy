/** The parts of lab3's GraphVizExporter that decide what is drawn: the sanitised graph
    name, the colour of each node and the set of undirected edges. */
module DotExport {
  import opened GraphSpec
  import opened Graphs

  // ---------------------------------------------------------------- sanitizeName

  /** std::replace over a whole string: every a becomes b. */
  function Replace(s: string, a: char, b: char): (r: string)
    ensures |r| == |s|
    ensures forall i :: 0 <= i < |s| ==> r[i] == (if s[i] == a then b else s[i])
  {
    if s == [] then [] else [if s[0] == a then b else s[0]] + Replace(s[1..], a, b)
  }

  /** What sanitizeName does to one character. */
  function SanitizeChar(c: char): char {
    match c
    case ' ' => '_'
    case '=' => '-'
    case '.' => '_'
    case _ => c
  }

  /** sanitizeName: blanks, '=' and '.' replaced, in three passes, so that the name is a
      valid DOT identifier. */
  function SanitizeName(name: string): (r: string)
    ensures |r| == |name| && forall i :: 0 <= i < |name| ==> r[i] == SanitizeChar(name[i])
  {
    Replace(Replace(Replace(name, ' ', '_'), '=', '-'), '.', '_')
  }

  /** A sanitised name holds none of the three replaced characters, and sanitising it
      again changes nothing. */
  lemma SanitizeNameClean(name: string)
    ensures forall i :: 0 <= i < |SanitizeName(name)| ==> SanitizeName(name)[i] !in {' ', '=', '.'}
    ensures SanitizeName(SanitizeName(name)) == SanitizeName(name)
  {
    var r := SanitizeName(name);
    assert forall i :: 0 <= i < |r| ==> SanitizeName(r)[i] == SanitizeChar(r[i]) == r[i];
  }

  /** Every character other than the three is kept, and nothing else changes in place. */
  lemma SanitizeNameKeeps(name: string)
    ensures forall i :: 0 <= i < |name| && name[i] !in {' ', '=', '.'} ==> SanitizeName(name)[i] == name[i]
    ensures forall i :: 0 <= i < |name| && name[i] in {' ', '.'} ==> SanitizeName(name)[i] == '_'
    ensures forall i :: 0 <= i < |name| && name[i] == '=' ==> SanitizeName(name)[i] == '-'
  {
  }

  // ---------------------------------------------------------------- node colours

  /** The fill colour for a degree, capped at 5 before the switch. */
  function DegreeColor(degree: nat): string {
    var capped := if degree > 5 then 5 else degree;
    match capped
    case 0 => "lightblue"
    case 1 => "lightblue2"
    case 2 => "lightblue3"
    case 3 => "lightblue4"
    case _ => "skyblue"
  }

  /** The fill colour of node i: red for the start of an exported tree, else by degree. */
  function NodeColor(adj: seq<seq<int>>, startNode: int, isTree: bool, i: int): (c: string)
    requires 0 <= i < |adj|
  {
    if isTree && i == startNode then "red" else DegreeColor(|adj[i]|)
  }

  /** Degrees 0 to 4 get five different colours and every larger degree the colour of 4. */
  lemma DegreeColorGradient(a: nat, b: nat)
    ensures a < b <= 4 ==> DegreeColor(a) != DegreeColor(b)
    ensures 4 <= a && 4 <= b ==> DegreeColor(a) == DegreeColor(b) == "skyblue"
  {
  }

  /** Only the start node of a tree is red; every other node is coloured by its degree. */
  lemma NodeColorRule(adj: seq<seq<int>>, startNode: int, isTree: bool, i: int)
    requires 0 <= i < |adj|
    ensures NodeColor(adj, startNode, isTree, i) == "red" <==> isTree && i == startNode
    ensures !(isTree && i == startNode) ==> NodeColor(adj, startNode, isTree, i) == DegreeColor(|adj[i]|)
  {
    var d := |adj[i]|;
    var capped := if d > 5 then 5 else d;
    assert DegreeColor(d) != "red" by {
      if capped == 0 {
        assert DegreeColor(d) == "lightblue";
      } else if capped == 1 {
        assert DegreeColor(d) == "lightblue2";
      } else if capped == 2 {
        assert DegreeColor(d) == "lightblue3";
      } else if capped == 3 {
        assert DegreeColor(d) == "lightblue4";
      } else {
        assert DegreeColor(d) == "skyblue";
      }
    }
  }

  // ---------------------------------------------------------------- edges

  /** The pairs (x, j) with j in adj[x] and x < j, over the vertices x below n. */
  ghost function UpperPairs(adj: seq<seq<int>>, n: int): set<(int, int)>
    requires 0 <= n <= |adj|
  {
    set x, j | 0 <= x < n && j in adj[x] && x < j :: (x, j)
  }

  /** The edge set exportToDot writes: every adjacency (i, j) with i < j. */
  ghost function DotEdgeSet(adj: seq<seq<int>>): set<(int, int)> {
    UpperPairs(adj, |adj|)
  }

  /** The edge loop of exportToDot. */
  method DotEdges(g: Graph) returns (edges: set<(int, int)>)
    requires g.Valid()
    ensures edges == DotEdgeSet(g.adj)
  {
    edges := {};
    for i := 0 to g.n
      invariant edges == UpperPairs(g.adj, i)
    {
      for t := 0 to |g.adj[i]|
        invariant edges == UpperPairs(g.adj, i) + set j | j in g.adj[i][..t] && i < j :: (i, j)
      {
        var j := g.adj[i][t];
        assert g.adj[i][..t + 1] == g.adj[i][..t] + [j];
        if i < j {
          edges := edges + {(i, j)};
        }
      }
      assert g.adj[i][..|g.adj[i]|] == g.adj[i];
      assert UpperPairs(g.adj, i + 1) == UpperPairs(g.adj, i) + set j | j in g.adj[i] && i < j :: (i, j);
    }
  }

  /** In a symmetric graph the edge set holds each undirected adjacency exactly once: as
      the pair ordered from the smaller to the larger end. */
  lemma DotEdgesOnce(adj: seq<seq<int>>)
    requires WellFormed(adj) && Symmetric(adj)
    ensures forall p :: p in DotEdgeSet(adj) ==> 0 <= p.0 < p.1 < |adj| && p.1 in adj[p.0] && p.0 in adj[p.1]
    ensures forall x, y :: 0 <= x < |adj| && 0 <= y < |adj| && x < y ==>
      ((x, y) in DotEdgeSet(adj) <==> y in adj[x]) && (y, x) !in DotEdgeSet(adj)
  {
    forall p | p in DotEdgeSet(adj)
      ensures 0 <= p.0 < p.1 < |adj| && p.1 in adj[p.0] && p.0 in adj[p.1]
    {
      var x, j :| 0 <= x < |adj| && j in adj[x] && x < j && p == (x, j);
    }
  }

  // ---------------------------------------------------------------- counting the edges

  /** All stored adjacencies (x, j) of the vertices x below n. */
  ghost function Directed(adj: seq<seq<int>>, n: int): set<(int, int)>
    requires 0 <= n <= |adj|
  {
    set x, j | 0 <= x < n && j in adj[x] :: (x, j)
  }

  ghost function Row(x: int, js: seq<int>): set<(int, int)> {
    set j | j in js :: (x, j)
  }

  lemma {:induction false} RowCard(x: int, js: seq<int>)
    requires forall s, t :: 0 <= s < t < |js| ==> js[s] != js[t]
    ensures |Row(x, js)| == |js|
  {
    if js != [] {
      var rest := js[1..];
      assert forall s :: 0 <= s < |rest| ==> rest[s] == js[s + 1];
      RowCard(x, rest);
      assert forall j :: j in js <==> j == js[0] || j in rest by {
        assert js == [js[0]] + rest;
      }
      assert Row(x, js) == {(x, js[0])} + Row(x, rest);
      assert js[0] !in rest;
    }
  }

  lemma DirectedSplit(adj: seq<seq<int>>, n: int)
    requires 0 < n <= |adj|
    ensures Directed(adj, n) == Directed(adj, n - 1) + Row(n - 1, adj[n - 1])
    ensures Directed(adj, n - 1) !! Row(n - 1, adj[n - 1])
  {
    forall p | p in Directed(adj, n)
      ensures p in Directed(adj, n - 1) || p in Row(n - 1, adj[n - 1])
    {
      var x, j :| 0 <= x < n && j in adj[x] && p == (x, j);
      if x < n - 1 {
        assert p in Directed(adj, n - 1);
      }
    }
    forall p | p in Directed(adj, n - 1)
      ensures p.0 < n - 1
    {
      var x, j :| 0 <= x < n - 1 && j in adj[x] && p == (x, j);
    }
  }

  /** Without repeated neighbours there are as many stored adjacencies as degrees. */
  lemma {:induction false} DirectedCard(adj: seq<seq<int>>, n: int)
    requires DuplicateFree(adj) && 0 <= n <= |adj|
    ensures |Directed(adj, n)| == SumDegrees(adj[..n])
  {
    if n > 0 {
      DirectedCard(adj, n - 1);
      RowCard(n - 1, adj[n - 1]);
      DirectedSplit(adj, n);
      assert adj[..n][..n - 1] == adj[..n - 1];
    }
  }

  ghost function Swap(s: set<(int, int)>): set<(int, int)> {
    set p | p in s :: (p.1, p.0)
  }

  lemma SwapCard(s: set<(int, int)>)
    ensures |Swap(s)| == |s|
    decreases |s|
  {
    if s != {} {
      var p :| p in s;
      SwapCard(s - {p});
      assert Swap(s) == Swap(s - {p}) + {(p.1, p.0)};
      assert (p.1, p.0) !in Swap(s - {p});
    }
  }

  /** The stored adjacencies (x, j) with j < x. */
  ghost function LowerPairs(adj: seq<seq<int>>): set<(int, int)> {
    set x, j | 0 <= x < |adj| && j in adj[x] && j < x :: (x, j)
  }

  lemma DirectedHalves(adj: seq<seq<int>>)
    requires LoopFree(adj)
    ensures Directed(adj, |adj|) == DotEdgeSet(adj) + LowerPairs(adj)
    ensures DotEdgeSet(adj) !! LowerPairs(adj)
  {
    forall p | p in Directed(adj, |adj|)
      ensures p in DotEdgeSet(adj) || p in LowerPairs(adj)
    {
      var x, j :| 0 <= x < |adj| && j in adj[x] && p == (x, j);
      assert x != j;
    }
    forall p | p in DotEdgeSet(adj)
      ensures p.0 < p.1
    {
      var x, j :| 0 <= x < |adj| && j in adj[x] && x < j && p == (x, j);
    }
    forall p | p in LowerPairs(adj)
      ensures p.1 < p.0
    {
      var x, j :| 0 <= x < |adj| && j in adj[x] && j < x && p == (x, j);
    }
  }

  lemma LowerIsSwap(adj: seq<seq<int>>)
    requires WellFormed(adj) && Symmetric(adj)
    ensures LowerPairs(adj) == Swap(DotEdgeSet(adj))
  {
    var up := DotEdgeSet(adj);
    forall p | p in LowerPairs(adj)
      ensures p in Swap(up)
    {
      var x, j :| 0 <= x < |adj| && j in adj[x] && j < x && p == (x, j);
      assert 0 <= j < |adj| && x in adj[j];
      assert (j, x) in up;
    }
    forall p | p in Swap(up)
      ensures p in LowerPairs(adj)
    {
      var r :| r in up && p == (r.1, r.0);
      var x, j :| 0 <= x < |adj| && j in adj[x] && x < j && r == (x, j);
      assert 0 <= j < |adj| && x in adj[j];
    }
  }

  /** In a simple graph the edge set has as many pairs as getStats counts edges: half
      the degree sum. */
  lemma DotEdgeCount(adj: seq<seq<int>>)
    requires Simple(adj)
    ensures |DotEdgeSet(adj)| == SumDegrees(adj) / 2
  {
    DirectedCard(adj, |adj|);
    assert adj[..|adj|] == adj;
    DirectedHalves(adj);
    LowerIsSwap(adj);
    SwapCard(DotEdgeSet(adj));
  }
}
