/** buildTreeWithConstraints of lab3: a breadth-first spanning tree grown from a start
    vertex, where vertices at depth maxDepth or deeper are not expanded. The two copies
    run the same search. visual.cpp's takes a tree name and records the start vertex in
    the tree; main.cpp's Graph has no such fields, and its copy keeps a parent array and
    warns when some vertex stays unvisited. The model keeps the name and start of the one
    and the parent array and the all-visited flag of the other. */
module SpanningTree {
  import opened GraphSpec
  import opened Graphs

  /** Number of visited vertices. */
  function CountTrue(s: seq<bool>): (c: nat)
    ensures c <= |s|
  {
    if s == [] then 0 else (if s[0] then 1 else 0) + CountTrue(s[1..])
  }

  lemma {:induction false} CountTrueUpdate(s: seq<bool>, u: int)
    requires 0 <= u < |s| && !s[u]
    ensures CountTrue(s[u := true]) == CountTrue(s) + 1
  {
    if u == 0 {
      assert s[u := true][1..] == s[1..];
    } else {
      assert s[u := true][1..] == s[1..][u - 1 := true];
      CountTrueUpdate(s[1..], u - 1);
    }
  }

  lemma {:induction false} CountTrueNone(n: nat)
    ensures CountTrue(seq(n, _ => false)) == 0
  {
    if n > 0 {
      assert seq(n, _ => false)[1..] == seq(n - 1, _ => false);
      CountTrueNone(n - 1);
    }
  }

  lemma {:induction false} CountTrueAll(s: seq<bool>)
    ensures CountTrue(s) == |s| <==> forall i :: 0 <= i < |s| ==> s[i]
  {
    if s != [] {
      CountTrueAll(s[1..]);
      assert forall i :: 1 <= i < |s| ==> s[i] == s[1..][i - 1];
    }
  }

  /** {x, y} is a tree edge: one of them was discovered from the other. */
  ghost predicate TreeEdge(start: int, visited: seq<bool>, parent: seq<int>, x: int, y: int)
    requires |parent| == |visited| && 0 <= x < |visited| && 0 <= y < |visited|
  {
    (visited[y] && y != start && parent[y] == x) || (visited[x] && x != start && parent[x] == y)
  }

  ghost predicate TreeAdjAt(tadj: seq<seq<int>>, start: int, visited: seq<bool>, parent: seq<int>, x: int, y: int)
    requires |tadj| == |parent| == |visited| && 0 <= x < |visited| && 0 <= y < |visited|
  {
    y in tadj[x] <==> TreeEdge(start, visited, parent, x, y)
  }

  /** u was discovered from parent[u], a neighbour one level up that was expanded. */
  ghost predicate HasParent(adj: seq<seq<int>>, maxDepth: int, visited: seq<bool>, parent: seq<int>,
                            depth: seq<int>, u: int)
    requires |visited| == |adj| && |parent| == |adj| && |depth| == |adj| && 0 <= u < |adj|
  {
    0 <= parent[u] < |adj| && visited[parent[u]] && u in adj[parent[u]] &&
    0 <= depth[parent[u]] < maxDepth && depth[u] == depth[parent[u]] + 1
  }

  /** The arrays and the tree adjacency during the search: the start is the root, every
      other visited vertex hangs under its parent, unvisited vertices keep parent -1 and
      depth 0, and the tree lists hold exactly the edges to parents, once each. */
  ghost predicate TreeState(adj: seq<seq<int>>, start: int, maxDepth: int, visited: seq<bool>,
                            parent: seq<int>, depth: seq<int>, tadj: seq<seq<int>>) {
    WellFormed(adj) && |visited| == |adj| && |parent| == |adj| && |depth| == |adj| && |tadj| == |adj| &&
    0 <= start < |adj| && visited[start] && parent[start] == -1 && depth[start] == 0 &&
    (forall u :: 0 <= u < |adj| && visited[u] && u != start ==> HasParent(adj, maxDepth, visited, parent, depth, u)) &&
    (forall u :: 0 <= u < |adj| && !visited[u] ==> parent[u] == -1 && depth[u] == 0) &&
    WellFormed(tadj) && DuplicateFree(tadj) &&
    (forall x, y :: 0 <= x < |adj| && 0 <= y < |adj| ==> TreeAdjAt(tadj, start, visited, parent, x, y)) &&
    SumDegrees(tadj) + 2 == 2 * CountTrue(visited)
  }

  /** The finished tree: the search state with every vertex above maxDepth expanded. */
  ghost predicate IsBfsTree(adj: seq<seq<int>>, start: int, maxDepth: int, visited: seq<bool>,
                            parent: seq<int>, depth: seq<int>, tadj: seq<seq<int>>) {
    TreeState(adj, start, maxDepth, visited, parent, depth, tadj) &&
    LevelsClosed(adj, visited, depth, maxDepth)
  }

  /** The queue holds visited vertices in non-decreasing order of depth, spanning at most
      two consecutive depths. */
  ghost predicate TreeQueue(adj: seq<seq<int>>, visited: seq<bool>, depth: seq<int>, q: seq<int>) {
    |visited| == |adj| && |depth| == |adj| &&
    (forall i :: 0 <= i < |q| ==> 0 <= q[i] < |adj| && visited[q[i]]) &&
    (forall i, j :: 0 <= i < j < |q| ==> depth[q[i]] <= depth[q[j]]) &&
    (forall i :: 0 <= i < |q| ==> depth[q[i]] <= depth[q[0]] + 1)
  }

  /** Visited vertices out of the queue and above maxDepth have all their neighbours
      visited, at most one level further; no vertex out of the queue is deeper than its head. */
  ghost predicate TreeDone(adj: seq<seq<int>>, maxDepth: int, visited: seq<bool>, depth: seq<int>, q: seq<int>) {
    WellFormed(adj) && |visited| == |adj| && |depth| == |adj| &&
    (forall w, t :: 0 <= w < |adj| && visited[w] && w !in q && depth[w] < maxDepth && 0 <= t < |adj[w]| ==>
      visited[adj[w][t]] && depth[adj[w][t]] <= depth[w] + 1) &&
    (q != [] && 0 <= q[0] < |adj| ==>
      forall w :: 0 <= w < |adj| && visited[w] && w !in q ==> depth[w] <= depth[q[0]])
  }

  lemma InitialTree(adj: seq<seq<int>>, start: int, maxDepth: int)
    requires WellFormed(adj) && 0 <= start < |adj|
    ensures var n := |adj|;
      TreeState(adj, start, maxDepth, seq(n, _ => false)[start := true], seq(n, _ => -1),
                seq(n, _ => 0), EmptyLists(n))
    ensures var n := |adj|;
      TreeQueue(adj, seq(n, _ => false)[start := true], seq(n, _ => 0), [start]) &&
      TreeDone(adj, maxDepth, seq(n, _ => false)[start := true], seq(n, _ => 0), [start])
  {
    var n := |adj|;
    CountTrueNone(n);
    CountTrueUpdate(seq(n, _ => false), start);
    SumDegreesEmpty(n);
    var visited, parent, tadj := seq(n, _ => false)[start := true], seq(n, _ => -1), EmptyLists(n);
    forall x, y | 0 <= x < n && 0 <= y < n
      ensures TreeAdjAt(tadj, start, visited, parent, x, y)
    {
    }
  }

  // ---------------------------------------------------------------- one discovery

  /** The state of the neighbour loop for v after t of its shuffled neighbours nb:
      the primed arrays extend the unprimed ones by exactly the vertices in news, each
      at depth depth[v] + 1, and the first t neighbours are visited. */
  ghost predicate GrowInv(adj: seq<seq<int>>, start: int, maxDepth: int, v: int, nb: seq<int>,
                          visited: seq<bool>, depth: seq<int>, q: seq<int>,
                          visited': seq<bool>, parent': seq<int>, depth': seq<int>, tadj': seq<seq<int>>,
                          q': seq<int>, news: seq<int>, t: int) {
    TreeState(adj, start, maxDepth, visited', parent', depth', tadj') &&
    0 <= v < |adj| && |visited| == |adj| && |depth| == |adj| && visited[v] && depth[v] < maxDepth &&
    (forall s :: 0 <= s < |nb| ==> nb[s] in adj[v]) && 0 <= t <= |nb| &&
    q' == q + news &&
    (forall i :: 0 <= i < |news| ==>
      0 <= news[i] < |adj| && !visited[news[i]] && visited'[news[i]] && depth'[news[i]] == depth[v] + 1) &&
    (forall w :: 0 <= w < |adj| && visited[w] ==> visited'[w] && depth'[w] == depth[w]) &&
    (forall w :: 0 <= w < |adj| && !visited[w] && visited'[w] ==> w in news) &&
    (forall s :: 0 <= s < t ==> visited'[nb[s]] && (visited[nb[s]] || depth'[nb[s]] == depth[v] + 1)) &&
    CountTrue(visited') == CountTrue(visited) + |news|
  }

  /** The tree lists after the edge between v and u is pushed at both ends. */
  function Joined(tadj: seq<seq<int>>, v: int, u: int): seq<seq<int>>
    requires 0 <= v < |tadj| && 0 <= u < |tadj|
  {
    var a := tadj[v := tadj[v] + [u]];
    a[u := a[u] + [v]]
  }

  lemma {:induction false} SumDegreesPush(a: seq<seq<int>>, x: int, y: int)
    requires 0 <= x < |a|
    ensures SumDegrees(a[x := a[x] + [y]]) == SumDegrees(a) + 1
  {
    var b := a[x := a[x] + [y]];
    var m := |a| - 1;
    if x == m {
      assert b[..m] == a[..m];
    } else {
      assert b[..m] == a[..m][x := a[x] + [y]];
      SumDegreesPush(a[..m], x, y);
    }
  }

  /** Discovering u from v records v as u's parent one level up. */
  lemma FoundParents(adj: seq<seq<int>>, start: int, maxDepth: int, v: int, u: int,
                     visited: seq<bool>, parent: seq<int>, depth: seq<int>, tadj: seq<seq<int>>)
    requires TreeState(adj, start, maxDepth, visited, parent, depth, tadj)
    requires 0 <= v < |adj| && visited[v] && depth[v] < maxDepth && 0 <= u < |adj| && u in adj[v] && !visited[u]
    ensures var V, P, D := visited[u := true], parent[u := v], depth[u := depth[v] + 1];
      (forall w :: 0 <= w < |adj| && V[w] && w != start ==> HasParent(adj, maxDepth, V, P, D, w)) &&
      (forall w :: 0 <= w < |adj| && !V[w] ==> P[w] == -1 && D[w] == 0)
  {
    var V, P, D := visited[u := true], parent[u := v], depth[u := depth[v] + 1];
    assert 0 <= depth[v] by {
      if v != start {
        assert HasParent(adj, maxDepth, visited, parent, depth, v);
      }
    }
    forall w | 0 <= w < |adj| && V[w] && w != start
      ensures HasParent(adj, maxDepth, V, P, D, w)
    {
      if w != u {
        assert HasParent(adj, maxDepth, visited, parent, depth, w);
        assert parent[w] != u;
      }
    }
  }

  /** Pushing the edge {v, u} at both ends keeps the tree lists exactly the parent edges. */
  lemma FoundAdjacency(adj: seq<seq<int>>, start: int, maxDepth: int, v: int, u: int,
                       visited: seq<bool>, parent: seq<int>, depth: seq<int>, tadj: seq<seq<int>>)
    requires TreeState(adj, start, maxDepth, visited, parent, depth, tadj)
    requires 0 <= v < |adj| && visited[v] && 0 <= u < |adj| && !visited[u]
    ensures var V, P, T := visited[u := true], parent[u := v], Joined(tadj, v, u);
      WellFormed(T) && DuplicateFree(T) &&
      (forall x, y :: 0 <= x < |adj| && 0 <= y < |adj| ==> TreeAdjAt(T, start, V, P, x, y)) &&
      SumDegrees(T) + 2 == 2 * CountTrue(V)
  {
    var V, P, T := visited[u := true], parent[u := v], Joined(tadj, v, u);
    assert u != v && u != start;
    assert T[v] == tadj[v] + [u] && T[u] == tadj[u] + [v];
    assert forall x :: 0 <= x < |adj| && x != u && x != v ==> T[x] == tadj[x];
    assert TreeAdjAt(tadj, start, visited, parent, v, u) && TreeAdjAt(tadj, start, visited, parent, u, v);
    forall x, y | 0 <= x < |adj| && 0 <= y < |adj|
      ensures TreeAdjAt(T, start, V, P, x, y)
    {
      assert TreeAdjAt(tadj, start, visited, parent, x, y);
      if x != u && y != u {
        assert TreeEdge(start, V, P, x, y) == TreeEdge(start, visited, parent, x, y);
      }
    }
    FoundLists(visited, tadj, v, u);
  }

  /** Pushing a new edge {v, u} keeps the lists duplicate-free and adds two to the degree sum. */
  lemma FoundLists(visited: seq<bool>, tadj: seq<seq<int>>, v: int, u: int)
    requires WellFormed(tadj) && DuplicateFree(tadj) && |visited| == |tadj|
    requires 0 <= v < |tadj| && 0 <= u < |tadj| && u != v && !visited[u]
    requires u !in tadj[v] && v !in tadj[u] && SumDegrees(tadj) + 2 == 2 * CountTrue(visited)
    ensures var T := Joined(tadj, v, u);
      WellFormed(T) && DuplicateFree(T) && SumDegrees(T) + 2 == 2 * CountTrue(visited[u := true])
  {
    var T := Joined(tadj, v, u);
    var a := tadj[v := tadj[v] + [u]];
    assert T[v] == tadj[v] + [u] && T[u] == tadj[u] + [v];
    forall x, s, r | 0 <= x < |T| && 0 <= s < r < |T[x]|
      ensures T[x][s] != T[x][r]
    {
      if x == v && r == |tadj[v]| {
        assert tadj[v][s] in tadj[v];
      } else if x == u && r == |tadj[u]| {
        assert tadj[u][s] in tadj[u];
      }
    }
    SumDegreesPush(tadj, v, u);
    SumDegreesPush(a, u, v);
    CountTrueUpdate(visited, u);
  }

  lemma GrowFound(adj: seq<seq<int>>, start: int, maxDepth: int, v: int, nb: seq<int>,
                  visited: seq<bool>, depth: seq<int>, q: seq<int>,
                  visited': seq<bool>, parent': seq<int>, depth': seq<int>, tadj': seq<seq<int>>,
                  q': seq<int>, news: seq<int>, t: int)
    requires GrowInv(adj, start, maxDepth, v, nb, visited, depth, q, visited', parent', depth', tadj', q', news, t)
    requires t < |nb| && !visited'[nb[t]]
    ensures var u := nb[t];
      GrowInv(adj, start, maxDepth, v, nb, visited, depth, q,
              visited'[u := true], parent'[u := v], depth'[u := depth'[v] + 1], Joined(tadj', v, u),
              q' + [u], news + [u], t + 1)
  {
    var u := nb[t];
    assert u in adj[v];
    FoundParents(adj, start, maxDepth, v, u, visited', parent', depth', tadj');
    FoundAdjacency(adj, start, maxDepth, v, u, visited', parent', depth', tadj');
    GrowFoundRest(adj, start, maxDepth, v, nb, visited, depth, q, visited', parent', depth', tadj', q', news, t);
  }

  lemma GrowFoundRest(adj: seq<seq<int>>, start: int, maxDepth: int, v: int, nb: seq<int>,
                      visited: seq<bool>, depth: seq<int>, q: seq<int>,
                      visited': seq<bool>, parent': seq<int>, depth': seq<int>, tadj': seq<seq<int>>,
                      q': seq<int>, news: seq<int>, t: int)
    requires GrowInv(adj, start, maxDepth, v, nb, visited, depth, q, visited', parent', depth', tadj', q', news, t)
    requires t < |nb| && !visited'[nb[t]]
    ensures var u := nb[t]; var V, D, N := visited'[u := true], depth'[u := depth'[v] + 1], news + [u];
      (forall i :: 0 <= i < |N| ==> 0 <= N[i] < |adj| && !visited[N[i]] && V[N[i]] && D[N[i]] == depth[v] + 1) &&
      (forall w :: 0 <= w < |adj| && visited[w] ==> V[w] && D[w] == depth[w]) &&
      (forall w :: 0 <= w < |adj| && !visited[w] && V[w] ==> w in N) &&
      (forall s :: 0 <= s < t + 1 ==> V[nb[s]] && (visited[nb[s]] || D[nb[s]] == depth[v] + 1)) &&
      CountTrue(V) == CountTrue(visited) + |N|
  {
    var u := nb[t];
    var V, D := visited'[u := true], depth'[u := depth'[v] + 1];
    assert u in adj[v];
    assert !visited[u] && D[u] == depth[v] + 1;
    assert forall i :: 0 <= i < |news| ==> news[i] != u;
    CountTrueUpdate(visited', u);
    forall s | 0 <= s < t + 1
      ensures V[nb[s]] && (visited[nb[s]] || D[nb[s]] == depth[v] + 1)
    {
      if s < t {
        var x := nb[s];
        assert visited'[x] && x != u;
        assert D[x] == depth'[x];
      }
    }
  }

  lemma GrowSkip(adj: seq<seq<int>>, start: int, maxDepth: int, v: int, nb: seq<int>,
                 visited: seq<bool>, depth: seq<int>, q: seq<int>,
                 visited': seq<bool>, parent': seq<int>, depth': seq<int>, tadj': seq<seq<int>>,
                 q': seq<int>, news: seq<int>, t: int)
    requires GrowInv(adj, start, maxDepth, v, nb, visited, depth, q, visited', parent', depth', tadj', q', news, t)
    requires t < |nb| && visited'[nb[t]]
    ensures GrowInv(adj, start, maxDepth, v, nb, visited, depth, q, visited', parent', depth', tadj', q', news, t + 1)
  {
    var u := nb[t];
    assert u in adj[v];
    if !visited[u] {
      var i :| 0 <= i < |news| && news[i] == u;
    }
  }

  /** The entries of nb still unvisited, in the order of nb, each at its first
      occurrence: the vertices the neighbour loop queues, in queueing order. */
  function FirstUnvisited(nb: seq<int>, visited: seq<bool>): seq<int>
  {
    if nb == [] then [] else
      var p, x := nb[..|nb| - 1], nb[|nb| - 1];
      FirstUnvisited(p, visited) + (if 0 <= x < |visited| && !visited[x] && x !in p then [x] else [])
  }

  /** FirstUnvisited picks only entries of its list. */
  lemma {:induction false} FirstUnvisitedIn(nb: seq<int>, visited: seq<bool>, x: int)
    requires x in FirstUnvisited(nb, visited)
    ensures x in nb
  {
    var p := nb[..|nb| - 1];
    if x in FirstUnvisited(p, visited) {
      FirstUnvisitedIn(p, visited, x);
    }
  }

  /** The vertices queued so far are those FirstUnvisited picks from the neighbours met. */
  lemma GrowOrder(adj: seq<seq<int>>, start: int, maxDepth: int, v: int, nb: seq<int>,
                  visited: seq<bool>, depth: seq<int>, q: seq<int>,
                  visited': seq<bool>, parent': seq<int>, depth': seq<int>, tadj': seq<seq<int>>,
                  q': seq<int>, news: seq<int>, t: int)
    requires GrowInv(adj, start, maxDepth, v, nb, visited, depth, q, visited', parent', depth', tadj', q', news, t)
    requires t < |nb| && news == FirstUnvisited(nb[..t], visited)
    ensures var u := nb[t];
      (if !visited'[u] then news + [u] else news) == FirstUnvisited(nb[..t + 1], visited)
  {
    var u, p := nb[t], nb[..t];
    assert nb[..t + 1][..t] == p;
    assert u in adj[v];
    if !visited[u] && visited'[u] {
      FirstUnvisitedIn(p, visited, u);
    }
    if u in p {
      var s :| 0 <= s < t && nb[s] == u;
      assert visited'[u];
    }
  }

  /** GrowInv together with the order in which news was queued and the parent v that
      each newly visited vertex receives, every other parent staying as it was. */
  ghost predicate GrowLoop(adj: seq<seq<int>>, start: int, maxDepth: int, v: int, nb: seq<int>,
                           visited: seq<bool>, parent: seq<int>, depth: seq<int>, q: seq<int>,
                           visited': seq<bool>, parent': seq<int>, depth': seq<int>, tadj': seq<seq<int>>,
                           q': seq<int>, news: seq<int>, t: int) {
    GrowInv(adj, start, maxDepth, v, nb, visited, depth, q, visited', parent', depth', tadj', q', news, t) &&
    news == FirstUnvisited(nb[..t], visited) && |parent| == |adj| &&
    (forall w :: 0 <= w < |adj| ==> parent'[w] == (if !visited[w] && visited'[w] then v else parent[w]))
  }

  lemma GrowLoopFound(adj: seq<seq<int>>, start: int, maxDepth: int, v: int, nb: seq<int>,
                      visited: seq<bool>, parent: seq<int>, depth: seq<int>, q: seq<int>,
                      visited': seq<bool>, parent': seq<int>, depth': seq<int>, tadj': seq<seq<int>>,
                      q': seq<int>, news: seq<int>, t: int)
    requires GrowLoop(adj, start, maxDepth, v, nb, visited, parent, depth, q, visited', parent', depth', tadj', q', news, t)
    requires t < |nb| && !visited'[nb[t]]
    ensures var u := nb[t];
      GrowLoop(adj, start, maxDepth, v, nb, visited, parent, depth, q,
               visited'[u := true], parent'[u := v], depth'[u := depth'[v] + 1], Joined(tadj', v, u),
               q' + [u], news + [u], t + 1)
  {
    GrowFound(adj, start, maxDepth, v, nb, visited, depth, q, visited', parent', depth', tadj', q', news, t);
    GrowOrder(adj, start, maxDepth, v, nb, visited, depth, q, visited', parent', depth', tadj', q', news, t);
  }

  lemma GrowLoopSkip(adj: seq<seq<int>>, start: int, maxDepth: int, v: int, nb: seq<int>,
                     visited: seq<bool>, parent: seq<int>, depth: seq<int>, q: seq<int>,
                     visited': seq<bool>, parent': seq<int>, depth': seq<int>, tadj': seq<seq<int>>,
                     q': seq<int>, news: seq<int>, t: int)
    requires GrowLoop(adj, start, maxDepth, v, nb, visited, parent, depth, q, visited', parent', depth', tadj', q', news, t)
    requires t < |nb| && visited'[nb[t]]
    ensures GrowLoop(adj, start, maxDepth, v, nb, visited, parent, depth, q, visited', parent', depth', tadj', q', news, t + 1)
  {
    GrowSkip(adj, start, maxDepth, v, nb, visited, depth, q, visited', parent', depth', tadj', q', news, t);
    GrowOrder(adj, start, maxDepth, v, nb, visited, depth, q, visited', parent', depth', tadj', q', news, t);
  }

  /** The neighbour loop for an expanded vertex v: every unvisited neighbour, taken in
      the shuffled order nb, is visited at depth depth[v] + 1 with parent v, queued, and
      joined to v in the tree. */
  method Grow(tree: Graph, adj: seq<seq<int>>, start: int, maxDepth: int, v: int, nb: seq<int>,
              visited: seq<bool>, parent: seq<int>, depth: seq<int>, q: seq<int>)
    returns (visited': seq<bool>, parent': seq<int>, depth': seq<int>, q': seq<int>, ghost news: seq<int>)
    requires TreeState(adj, start, maxDepth, visited, parent, depth, tree.adj)
    requires 0 <= v < |adj| && visited[v] && depth[v] < maxDepth
    requires forall s :: 0 <= s < |nb| ==> nb[s] in adj[v]
    modifies tree
    ensures tree.n == old(tree.n) && tree.startNode == old(tree.startNode) && tree.name == old(tree.name)
    ensures GrowInv(adj, start, maxDepth, v, nb, visited, depth, q, visited', parent', depth', tree.adj,
                    q', news, |nb|)
    ensures news == FirstUnvisited(nb, visited)
    ensures forall w :: 0 <= w < |adj| ==> parent'[w] == (if !visited[w] && visited'[w] then v else parent[w])
  {
    visited', parent', depth', q', news := visited, parent, depth, q, [];
    assert nb[..0] == [];
    for t := 0 to |nb|
      invariant tree.n == old(tree.n) && tree.startNode == old(tree.startNode) && tree.name == old(tree.name)
      invariant GrowLoop(adj, start, maxDepth, v, nb, visited, parent, depth, q, visited', parent', depth', tree.adj,
                         q', news, t)
    {
      var u := nb[t];
      if !visited'[u] {
        GrowLoopFound(adj, start, maxDepth, v, nb, visited, parent, depth, q, visited', parent', depth', tree.adj, q', news, t);
        visited' := visited'[u := true];
        parent' := parent'[u := v];
        depth' := depth'[u := depth'[v] + 1];
        q' := q' + [u];
        news := news + [u];
        tree.adj := tree.adj[v := tree.adj[v] + [u]];
        tree.adj := tree.adj[u := tree.adj[u] + [v]];
      } else {
        GrowLoopSkip(adj, start, maxDepth, v, nb, visited, parent, depth, q, visited', parent', depth', tree.adj, q', news, t);
      }
    }
    assert nb[..|nb|] == nb;
  }

  // ---------------------------------------------------------------- one round of the queue

  /** The head of q has been popped and expanded over its shuffled neighbours nb. */
  ghost predicate Grown(adj: seq<seq<int>>, start: int, maxDepth: int, nb: seq<int>,
                        visited: seq<bool>, depth: seq<int>, q: seq<int>,
                        visited': seq<bool>, parent': seq<int>, depth': seq<int>, tadj': seq<seq<int>>,
                        news: seq<int>) {
    q != [] && TreeQueue(adj, visited, depth, q) && TreeDone(adj, maxDepth, visited, depth, q) &&
    (forall u :: u in adj[q[0]] ==> u in nb) &&
    GrowInv(adj, start, maxDepth, q[0], nb, visited, depth, q[1..], visited', parent', depth', tadj',
            q[1..] + news, news, |nb|)
  }

  lemma GrownOrder(adj: seq<seq<int>>, visited: seq<bool>, depth: seq<int>, q: seq<int>,
                   visited': seq<bool>, depth': seq<int>, news: seq<int>)
    requires q != [] && TreeQueue(adj, visited, depth, q) && |visited'| == |adj| && |depth'| == |adj|
    requires forall i :: 0 <= i < |news| ==>
      0 <= news[i] < |adj| && visited'[news[i]] && depth'[news[i]] == depth[q[0]] + 1
    requires forall w :: 0 <= w < |adj| && visited[w] ==> visited'[w] && depth'[w] == depth[w]
    ensures TreeQueue(adj, visited', depth', q[1..] + news)
  {
    var q' := q[1..] + news;
    assert forall i :: 0 <= i < |q| - 1 ==> q'[i] == q[i + 1];
    assert forall i :: |q| - 1 <= i < |q'| ==> q'[i] == news[i - (|q| - 1)];
  }

  lemma GrownClosure(adj: seq<seq<int>>, start: int, maxDepth: int, nb: seq<int>,
                     visited: seq<bool>, depth: seq<int>, q: seq<int>,
                     visited': seq<bool>, parent': seq<int>, depth': seq<int>, tadj': seq<seq<int>>,
                     news: seq<int>)
    requires Grown(adj, start, maxDepth, nb, visited, depth, q, visited', parent', depth', tadj', news)
    ensures forall w, t :: (0 <= w < |adj| && visited'[w] && w !in q[1..] + news && depth'[w] < maxDepth &&
      0 <= t < |adj[w]|) ==> visited'[adj[w][t]] && depth'[adj[w][t]] <= depth'[w] + 1
  {
    var v, q' := q[0], q[1..] + news;
    assert q == [v] + q[1..];
    assert forall w :: w in q' <==> w in q[1..] || w in news;
    assert forall w :: w in q <==> w == v || w in q[1..];
    forall w, t | 0 <= w < |adj| && visited'[w] && w !in q' && depth'[w] < maxDepth && 0 <= t < |adj[w]|
      ensures visited'[adj[w][t]] && depth'[adj[w][t]] <= depth'[w] + 1
    {
      if w == v {
        var u := adj[v][t];
        assert u in adj[v];
        var s :| 0 <= s < |nb| && nb[s] == u;
        if visited[u] && u in q {
          var i :| 0 <= i < |q| && q[i] == u;
        }
      }
    }
  }

  lemma GrownHead(adj: seq<seq<int>>, start: int, maxDepth: int, nb: seq<int>,
                  visited: seq<bool>, depth: seq<int>, q: seq<int>,
                  visited': seq<bool>, parent': seq<int>, depth': seq<int>, tadj': seq<seq<int>>,
                  news: seq<int>)
    requires Grown(adj, start, maxDepth, nb, visited, depth, q, visited', parent', depth', tadj', news)
    ensures var q' := q[1..] + news;
      q' != [] ==> forall w :: 0 <= w < |adj| && visited'[w] && w !in q' ==> depth'[w] <= depth'[q'[0]]
  {
    var v, q' := q[0], q[1..] + news;
    assert q == [v] + q[1..];
    assert forall w :: w in q' <==> w in q[1..] || w in news;
    assert forall w :: w in q <==> w == v || w in q[1..];
    if q' != [] {
      assert depth[v] <= depth'[q'[0]] by {
        if |q| > 1 {
          assert q'[0] == q[1];
        } else {
          assert q'[0] == news[0];
        }
      }
    }
  }

  /** A round that expands the head keeps the queue ordered and the finished vertices closed. */
  lemma GrownKeepsQueue(adj: seq<seq<int>>, start: int, maxDepth: int, nb: seq<int>,
                        visited: seq<bool>, depth: seq<int>, q: seq<int>,
                        visited': seq<bool>, parent': seq<int>, depth': seq<int>, tadj': seq<seq<int>>,
                        news: seq<int>)
    requires Grown(adj, start, maxDepth, nb, visited, depth, q, visited', parent', depth', tadj', news)
    ensures TreeQueue(adj, visited', depth', q[1..] + news) && TreeDone(adj, maxDepth, visited', depth', q[1..] + news)
  {
    GrownOrder(adj, visited, depth, q, visited', depth', news);
    GrownClosure(adj, start, maxDepth, nb, visited, depth, q, visited', parent', depth', tadj', news);
    GrownHead(adj, start, maxDepth, nb, visited, depth, q, visited', parent', depth', tadj', news);
  }

  /** A round that pops a vertex at depth maxDepth or deeper without expanding it. */
  lemma SkipKeepsQueue(adj: seq<seq<int>>, maxDepth: int, visited: seq<bool>, depth: seq<int>, q: seq<int>)
    requires q != [] && TreeQueue(adj, visited, depth, q) && TreeDone(adj, maxDepth, visited, depth, q)
    requires depth[q[0]] >= maxDepth
    ensures TreeQueue(adj, visited, depth, q[1..]) && TreeDone(adj, maxDepth, visited, depth, q[1..])
  {
    var v := q[0];
    assert q == [v] + q[1..];
    assert forall w :: w in q <==> w == v || w in q[1..];
    if |q| > 1 {
      assert q[1..][0] == q[1];
    }
  }

  // ---------------------------------------------------------------- the builder

  /** A shuffled copy of a neighbour list has the same members. */
  lemma Shuffled(nb: seq<int>, a: seq<int>)
    requires multiset(nb) == multiset(a)
    ensures forall u :: u in a ==> u in nb
    ensures forall s :: 0 <= s < |nb| ==> nb[s] in a
  {
    assert forall u :: u in nb <==> u in multiset(nb);
    assert forall u :: u in a <==> u in multiset(a);
    assert forall s :: 0 <= s < |nb| ==> nb[s] in nb;
  }

  /** buildTreeWithConstraints with the random start vertex and the shuffled neighbour
      lists given as inputs: returns the tree together with main.cpp's bookkeeping
      arrays and whether every vertex was reached. */
  method BuildTreeWithConstraints(g: Graph, maxDepth: int, treeName: string, start: int, order: seq<seq<int>>)
    returns (tree: Graph, visited: seq<bool>, parent: seq<int>, depth: seq<int>, allVisited: bool)
    requires g.Valid() && 0 <= start < g.n && |order| == g.n
    requires forall v :: 0 <= v < g.n ==> multiset(order[v]) == multiset(g.adj[v])
    ensures fresh(tree) && tree.Valid() && tree.n == g.n && tree.startNode == start && tree.name == treeName
    ensures IsBfsTree(g.adj, start, maxDepth, visited, parent, depth, tree.adj)
    ensures allVisited <==> forall v :: 0 <= v < g.n ==> visited[v]
  {
    tree := new Graph(g.n, treeName);
    tree.startNode := start;
    visited := seq(g.n, _ => false)[start := true];
    var q := [start];
    parent := seq(g.n, _ => -1);
    depth := seq(g.n, _ => 0);
    InitialTree(g.adj, start, maxDepth);
    while q != []
      invariant tree.n == g.n && tree.startNode == start && tree.name == treeName
      invariant TreeState(g.adj, start, maxDepth, visited, parent, depth, tree.adj)
      invariant TreeQueue(g.adj, visited, depth, q) && TreeDone(g.adj, maxDepth, visited, depth, q)
      decreases |visited| - CountTrue(visited), |q|
    {
      var v := q[0];
      if depth[v] >= maxDepth {
        SkipKeepsQueue(g.adj, maxDepth, visited, depth, q);
        q := q[1..];
      } else {
        var nb := order[v];
        Shuffled(nb, g.adj[v]);
        ghost var visited0, depth0, q0 := visited, depth, q;
        ghost var news;
        visited, parent, depth, q, news := Grow(tree, g.adj, start, maxDepth, v, nb, visited, parent, depth, q[1..]);
        GrownKeepsQueue(g.adj, start, maxDepth, nb, visited0, depth0, q0, visited, parent, depth, tree.adj, news);
      }
    }
    allVisited := forall v | 0 <= v < g.n :: visited[v];
  }

  // ---------------------------------------------------------------- what the tree is

  /** With a non-negative depth bound the tree reaches exactly the vertices within maxDepth
      of the start, each at its shortest distance. */
  lemma TreeDepths(adj: seq<seq<int>>, start: int, maxDepth: int, visited: seq<bool>,
                   parent: seq<int>, depth: seq<int>, tadj: seq<seq<int>>)
    requires IsBfsTree(adj, start, maxDepth, visited, parent, depth, tadj) && 0 <= maxDepth
    ensures forall v :: 0 <= v < |adj| ==> (visited[v] <==> Within(adj, start, v, maxDepth))
    ensures forall v :: 0 <= v < |adj| && visited[v] ==> depth[v] <= maxDepth && Dist(adj, start, v, depth[v])
  {
    assert LevelsSound(adj, start, visited, depth) by {
      forall u | 0 <= u < |adj| && visited[u] && u != start
        ensures 0 < depth[u] && Parented(adj, visited, depth, u)
      {
        assert HasParent(adj, maxDepth, visited, parent, depth, u);
      }
    }
    forall v | 0 <= v < |adj| && visited[v]
      ensures depth[v] <= maxDepth
    {
      if v != start {
        assert HasParent(adj, maxDepth, visited, parent, depth, v);
      }
    }
    LevelsAreDistances(adj, start, visited, depth, maxDepth);
    forall v | 0 <= v < |adj|
      ensures visited[v] <==> Within(adj, start, v, maxDepth)
    {
      if visited[v] {
        assert Walk(adj, start, v, depth[v]);
      }
    }
  }

  /** With a symmetric graph every tree edge is a graph edge. */
  lemma TreeEdgesInGraph(adj: seq<seq<int>>, start: int, maxDepth: int, visited: seq<bool>,
                         parent: seq<int>, depth: seq<int>, tadj: seq<seq<int>>)
    requires IsBfsTree(adj, start, maxDepth, visited, parent, depth, tadj) && Symmetric(adj)
    ensures forall x, y :: 0 <= x < |adj| && 0 <= y < |adj| && y in tadj[x] ==> y in adj[x]
  {
    forall x, y | 0 <= x < |adj| && 0 <= y < |adj| && y in tadj[x]
      ensures y in adj[x]
    {
      assert TreeAdjAt(tadj, start, visited, parent, x, y);
      if visited[y] && y != start && parent[y] == x {
        assert HasParent(adj, maxDepth, visited, parent, depth, y);
      } else {
        assert HasParent(adj, maxDepth, visited, parent, depth, x);
      }
    }
  }

  /** The tree is a simple graph, each visited vertex other than the start is joined to its
      parent, and it has one edge fewer than it has visited vertices. */
  lemma TreeShape(adj: seq<seq<int>>, start: int, maxDepth: int, visited: seq<bool>,
                  parent: seq<int>, depth: seq<int>, tadj: seq<seq<int>>)
    requires IsBfsTree(adj, start, maxDepth, visited, parent, depth, tadj)
    ensures Simple(tadj)
    ensures forall u :: 0 <= u < |adj| && visited[u] && u != start ==>
      0 <= parent[u] < |adj| && u in tadj[parent[u]] && parent[u] in tadj[u]
    ensures SumDegrees(tadj) / 2 == CountTrue(visited) - 1
  {
    forall x, y | 0 <= x < |adj| && 0 <= y < |adj|
      ensures y in tadj[x] <==> x in tadj[y]
    {
      assert TreeAdjAt(tadj, start, visited, parent, x, y) && TreeAdjAt(tadj, start, visited, parent, y, x);
    }
    forall x | 0 <= x < |adj|
      ensures x !in tadj[x]
    {
      assert TreeAdjAt(tadj, start, visited, parent, x, x);
      if visited[x] && x != start {
        assert HasParent(adj, maxDepth, visited, parent, depth, x);
      }
    }
    forall u | 0 <= u < |adj| && visited[u] && u != start
      ensures 0 <= parent[u] < |adj| && u in tadj[parent[u]] && parent[u] in tadj[u]
    {
      assert HasParent(adj, maxDepth, visited, parent, depth, u);
      assert TreeAdjAt(tadj, start, visited, parent, parent[u], u);
      assert TreeAdjAt(tadj, start, visited, parent, u, parent[u]);
    }
  }

  /** Every vertex is reached exactly when every vertex lies within maxDepth of the start:
      the condition main.cpp warns about. */
  lemma AllVisitedIff(adj: seq<seq<int>>, start: int, maxDepth: int, visited: seq<bool>,
                      parent: seq<int>, depth: seq<int>, tadj: seq<seq<int>>)
    requires IsBfsTree(adj, start, maxDepth, visited, parent, depth, tadj) && 0 <= maxDepth
    ensures (forall v :: 0 <= v < |adj| ==> visited[v]) <==>
            (forall v :: 0 <= v < |adj| ==> Within(adj, start, v, maxDepth))
    ensures (forall v :: 0 <= v < |adj| ==> visited[v]) <==> SumDegrees(tadj) / 2 == |adj| - 1
  {
    TreeDepths(adj, start, maxDepth, visited, parent, depth, tadj);
    TreeShape(adj, start, maxDepth, visited, parent, depth, tadj);
    CountTrueAll(visited);
  }
}
