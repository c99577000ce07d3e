/** computeDiameter of lab3 (visual.cpp and main.cpp have the same code): a
    breadth-first search from every vertex, keeping the largest distance found. */
module GraphDiameter {
  import opened GraphSpec
  import opened Graphs

  /** Number of vertices still at distance -1. */
  function Unreached(dist: seq<int>): nat
  {
    if dist == [] then 0 else (if dist[0] < 0 then 1 else 0) + Unreached(dist[1..])
  }

  lemma {:induction false} UnreachedUpdate(dist: seq<int>, u: int, x: int)
    requires 0 <= u < |dist| && dist[u] < 0 && 0 <= x
    ensures Unreached(dist[u := x]) + 1 == Unreached(dist)
  {
    if u == 0 {
      assert dist[u := x][1..] == dist[1..];
    } else {
      assert dist[u := x][1..] == dist[1..][u - 1 := x];
      UnreachedUpdate(dist[1..], u - 1, x);
    }
  }

  /** A distance array during the search: -1 or a level of the search tree from `start`. */
  ghost predicate SearchState(adj: seq<seq<int>>, start: int, dist: seq<int>) {
    |dist| == |adj| && (forall w :: 0 <= w < |dist| ==> -1 <= dist[w]) &&
    LevelsSound(adj, start, Reached(dist), dist)
  }

  /** The queue holds reached vertices in non-decreasing order of distance, spanning at
      most two consecutive levels. */
  ghost predicate QueueOrdered(adj: seq<seq<int>>, dist: seq<int>, q: seq<int>) {
    |dist| == |adj| &&
    (forall i :: 0 <= i < |q| ==> 0 <= q[i] < |adj| && 0 <= dist[q[i]]) &&
    (forall i, j :: 0 <= i < j < |q| ==> dist[q[i]] <= dist[q[j]]) &&
    (forall i :: 0 <= i < |q| ==> dist[q[i]] <= dist[q[0]] + 1)
  }

  /** Reached vertices that have left the queue have all their neighbours reached, at
      most one level further, and lie no deeper than the head of the queue. */
  ghost predicate DoneClosed(adj: seq<seq<int>>, dist: seq<int>, q: seq<int>) {
    WellFormed(adj) && |dist| == |adj| &&
    (forall w, t :: 0 <= w < |adj| && 0 <= dist[w] && w !in q && 0 <= t < |adj[w]| ==>
      0 <= dist[adj[w][t]] <= dist[w] + 1) &&
    (q != [] && 0 <= q[0] < |adj| ==>
      forall w :: 0 <= w < |adj| && 0 <= dist[w] && w !in q ==> dist[w] <= dist[q[0]])
  }

  /** Discovering u from a reached neighbour v keeps the distances a search-tree labelling. */
  lemma Discover(adj: seq<seq<int>>, start: int, dist: seq<int>, v: int, u: int)
    requires SearchState(adj, start, dist) && 0 <= v < |adj| && 0 <= dist[v]
    requires 0 <= u < |adj| && u in adj[v] && dist[u] < 0
    ensures SearchState(adj, start, dist[u := dist[v] + 1])
  {
    var d := dist[u := dist[v] + 1];
    var r0, r := Reached(dist), Reached(d);
    assert forall x :: 0 <= x < |adj| && x != u ==> r[x] == r0[x] && d[x] == dist[x];
    assert r[u] && r[v] && v != u;
    forall w | 0 <= w < |adj| && r[w] && w != start
      ensures 0 < d[w] && Parented(adj, r, d, w)
    {
      if w == u {
        assert r[v] && u in adj[v] && d[u] == d[v] + 1;
      } else {
        var x :| 0 <= x < |adj| && r0[x] && w in adj[x] && dist[w] == dist[x] + 1;
        assert r[x] && d[x] == dist[x];
      }
    }
  }

  /** The state of the neighbour loop for v after its first t neighbours: dist' and the
      queue q + news extend dist and q by exactly the newly discovered vertices, each at
      distance dist[v] + 1, and the first t neighbours are all reached. */
  ghost predicate ExpandInv(adj: seq<seq<int>>, start: int, v: int, dist: seq<int>, q: seq<int>,
                            dist': seq<int>, q': seq<int>, news: seq<int>, t: int) {
    WellFormed(adj) && 0 <= v < |adj| && 0 <= t <= |adj[v]| && |dist| == |adj| && 0 <= dist[v] &&
    SearchState(adj, start, dist') && q' == q + news &&
    (forall i :: 0 <= i < |news| ==>
      0 <= news[i] < |adj| && dist[news[i]] < 0 && dist'[news[i]] == dist[v] + 1) &&
    (forall w :: 0 <= w < |adj| && 0 <= dist[w] ==> dist'[w] == dist[w]) &&
    (forall w :: 0 <= w < |adj| && dist[w] < 0 && 0 <= dist'[w] ==> w in news) &&
    (forall s :: 0 <= s < t ==>
      0 <= dist'[adj[v][s]] && (0 <= dist[adj[v][s]] || dist'[adj[v][s]] == dist[v] + 1)) &&
    Unreached(dist') + |news| == Unreached(dist)
  }

  lemma ExpandStart(adj: seq<seq<int>>, start: int, v: int, dist: seq<int>, q: seq<int>)
    requires WellFormed(adj) && 0 <= v < |adj| && SearchState(adj, start, dist) && 0 <= dist[v]
    ensures ExpandInv(adj, start, v, dist, q, dist, q, [], 0)
  {
    assert q + [] == q;
  }

  lemma ExpandSkip(adj: seq<seq<int>>, start: int, v: int, dist: seq<int>, q: seq<int>,
                   dist': seq<int>, q': seq<int>, news: seq<int>, t: int)
    requires ExpandInv(adj, start, v, dist, q, dist', q', news, t) && t < |adj[v]|
    requires dist'[adj[v][t]] != -1
    ensures ExpandInv(adj, start, v, dist, q, dist', q', news, t + 1)
  {
    var u := adj[v][t];
    if dist[u] < 0 {
      assert 0 <= dist'[u];
      var i :| 0 <= i < |news| && news[i] == u;
    }
  }

  lemma ExpandFound(adj: seq<seq<int>>, start: int, v: int, dist: seq<int>, q: seq<int>,
                    dist': seq<int>, q': seq<int>, news: seq<int>, t: int)
    requires ExpandInv(adj, start, v, dist, q, dist', q', news, t) && t < |adj[v]|
    requires dist'[adj[v][t]] == -1
    ensures ExpandInv(adj, start, v, dist, q,
                      dist'[adj[v][t] := dist'[v] + 1], q' + [adj[v][t]], news + [adj[v][t]], t + 1)
  {
    var u := adj[v][t];
    assert u in adj[v];
    Discover(adj, start, dist', v, u);
    UnreachedUpdate(dist', u, dist'[v] + 1);
    FoundNews(adj, start, v, dist, q, dist', q', news, t);
    assert dist'[v] == dist[v];
    FoundPrefix(adj, v, dist, dist', t);
    assert q' + [u] == q + (news + [u]);
    ExpandInvIntro(adj, start, v, dist, q, dist'[u := dist'[v] + 1], q' + [u], news + [u], t + 1);
  }

  /** ExpandInv from its conjuncts, so that a caller need not unfold it. */
  lemma ExpandInvIntro(adj: seq<seq<int>>, start: int, v: int, dist: seq<int>, q: seq<int>,
                       dist': seq<int>, q': seq<int>, news: seq<int>, t: int)
    requires WellFormed(adj) && 0 <= v < |adj| && 0 <= t <= |adj[v]| && |dist| == |adj| && 0 <= dist[v]
    requires SearchState(adj, start, dist') && q' == q + news
    requires forall i :: 0 <= i < |news| ==>
      0 <= news[i] < |adj| && dist[news[i]] < 0 && dist'[news[i]] == dist[v] + 1
    requires forall w :: 0 <= w < |adj| && 0 <= dist[w] ==> dist'[w] == dist[w]
    requires forall w :: 0 <= w < |adj| && dist[w] < 0 && 0 <= dist'[w] ==> w in news
    requires forall s :: 0 <= s < t ==>
      0 <= dist'[adj[v][s]] && (0 <= dist[adj[v][s]] || dist'[adj[v][s]] == dist[v] + 1)
    requires Unreached(dist') + |news| == Unreached(dist)
    ensures ExpandInv(adj, start, v, dist, q, dist', q', news, t)
  {
  }

  lemma FoundNews(adj: seq<seq<int>>, start: int, v: int, dist: seq<int>, q: seq<int>,
                  dist': seq<int>, q': seq<int>, news: seq<int>, t: int)
    requires ExpandInv(adj, start, v, dist, q, dist', q', news, t) && t < |adj[v]|
    requires dist'[adj[v][t]] == -1
    ensures var u := adj[v][t]; var d := dist'[u := dist'[v] + 1]; var n' := news + [u];
      (forall i :: 0 <= i < |n'| ==> 0 <= n'[i] < |adj| && dist[n'[i]] < 0 && d[n'[i]] == dist[v] + 1) &&
      (forall w :: 0 <= w < |adj| && 0 <= dist[w] ==> d[w] == dist[w]) &&
      (forall w :: 0 <= w < |adj| && dist[w] < 0 && 0 <= d[w] ==> w in n')
  {
    var u := adj[v][t];
    assert dist[u] < 0;
    assert forall i :: 0 <= i < |news| ==> news[i] != u;
  }

  lemma FoundPrefix(adj: seq<seq<int>>, v: int, dist: seq<int>, dist': seq<int>, t: int)
    requires WellFormed(adj) && 0 <= v < |adj| && 0 <= t < |adj[v]| && |dist| == |adj| && |dist'| == |adj|
    requires 0 <= dist[v] && dist'[v] == dist[v] && dist'[adj[v][t]] == -1
    requires forall s :: 0 <= s < t ==>
      0 <= dist'[adj[v][s]] && (0 <= dist[adj[v][s]] || dist'[adj[v][s]] == dist[v] + 1)
    ensures var u := adj[v][t]; var d := dist'[u := dist'[v] + 1];
      forall s :: 0 <= s < t + 1 ==>
        0 <= d[adj[v][s]] && (0 <= dist[adj[v][s]] || d[adj[v][s]] == dist[v] + 1)
  {
    var u := adj[v][t];
    var d := dist'[u := dist'[v] + 1];
    assert d[u] == dist[v] + 1;
    forall s | 0 <= s < t + 1
      ensures 0 <= d[adj[v][s]] && (0 <= dist[adj[v][s]] || d[adj[v][s]] == dist[v] + 1)
    {
      if s < t {
        var x := adj[v][s];
        assert 0 <= dist'[x];
        assert x != u;
        assert d[x] == dist'[x];
      }
    }
  }

  /** The entries of s that dist leaves unreached, in the order of s, each at its first
      occurrence: the vertices the neighbour loop queues, in queueing order. */
  function FirstUnreached(s: seq<int>, dist: seq<int>): seq<int>
  {
    if s == [] then [] else
      var p, x := s[..|s| - 1], s[|s| - 1];
      FirstUnreached(p, dist) + (if 0 <= x < |dist| && dist[x] < 0 && x !in p then [x] else [])
  }

  /** FirstUnreached picks only entries of its list. */
  lemma {:induction false} FirstUnreachedIn(s: seq<int>, dist: seq<int>, x: int)
    requires x in FirstUnreached(s, dist)
    ensures x in s
  {
    var p := s[..|s| - 1];
    if x in FirstUnreached(p, dist) {
      FirstUnreachedIn(p, dist, x);
    }
  }

  /** The vertices queued so far are those FirstUnreached picks from the neighbours met. */
  lemma ExpandOrder(adj: seq<seq<int>>, start: int, v: int, dist: seq<int>, q: seq<int>,
                    dist': seq<int>, q': seq<int>, news: seq<int>, t: int)
    requires ExpandInv(adj, start, v, dist, q, dist', q', news, t) && t < |adj[v]|
    requires news == FirstUnreached(adj[v][..t], dist)
    ensures var u := adj[v][t];
      (if dist'[u] == -1 then news + [u] else news) == FirstUnreached(adj[v][..t + 1], dist)
  {
    var u, p := adj[v][t], adj[v][..t];
    assert adj[v][..t + 1][..t] == p;
    if dist[u] < 0 && 0 <= dist'[u] {
      FirstUnreachedIn(p, dist, u);
    }
    if u in p {
      var s :| 0 <= s < t && adj[v][s] == u;
      assert 0 <= dist'[u];
    }
  }

  /** The neighbour loop of the search for vertex v: every neighbour still at -1 gets
      distance dist[v] + 1 and joins the queue, in the order of adj[v]. */
  method Expand(adj: seq<seq<int>>, start: int, v: int, dist: seq<int>, q: seq<int>)
    returns (dist': seq<int>, q': seq<int>, ghost news: seq<int>)
    requires WellFormed(adj) && 0 <= v < |adj| && SearchState(adj, start, dist) && 0 <= dist[v]
    ensures ExpandInv(adj, start, v, dist, q, dist', q', news, |adj[v]|)
    ensures news == FirstUnreached(adj[v], dist)
  {
    dist', q', news := dist, q, [];
    ExpandStart(adj, start, v, dist, q);
    assert adj[v][..0] == [];
    for t := 0 to |adj[v]|
      invariant ExpandInv(adj, start, v, dist, q, dist', q', news, t)
      invariant news == FirstUnreached(adj[v][..t], dist)
    {
      var u := adj[v][t];
      ExpandOrder(adj, start, v, dist, q, dist', q', news, t);
      if dist'[u] == -1 {
        ExpandFound(adj, start, v, dist, q, dist', q', news, t);
        dist' := dist'[u := dist'[v] + 1];
        q' := q' + [u];
        news := news + [u];
      } else {
        ExpandSkip(adj, start, v, dist, q, dist', q', news, t);
      }
    }
    assert adj[v][..|adj[v]|] == adj[v];
  }

  /** One round of the search: the head of q has been popped and expanded into dist',
      appending news to the rest of the queue. */
  ghost predicate Popped(adj: seq<seq<int>>, start: int, dist: seq<int>, q: seq<int>,
                         dist': seq<int>, news: seq<int>) {
    q != [] && QueueOrdered(adj, dist, q) && DoneClosed(adj, dist, q) &&
    ExpandInv(adj, start, q[0], dist, q[1..], dist', q[1..] + news, news, |adj[q[0]]|)
  }

  /** After a round the queue is still ordered and the vertices out of the queue, the
      expanded head among them, are closed. */
  lemma ExpandKeepsQueue(adj: seq<seq<int>>, start: int, dist: seq<int>, q: seq<int>,
                         dist': seq<int>, news: seq<int>)
    requires Popped(adj, start, dist, q, dist', news)
    ensures QueueOrdered(adj, dist', q[1..] + news) && DoneClosed(adj, dist', q[1..] + news)
  {
    KeepsOrder(adj, dist, q, dist', news);
    KeepsClosure(adj, start, dist, q, dist', news);
    KeepsHead(adj, start, dist, q, dist', news);
  }

  lemma KeepsOrder(adj: seq<seq<int>>, dist: seq<int>, q: seq<int>, dist': seq<int>, news: seq<int>)
    requires q != [] && QueueOrdered(adj, dist, q) && |dist'| == |adj|
    requires forall i :: 0 <= i < |news| ==> 0 <= news[i] < |adj| && dist'[news[i]] == dist[q[0]] + 1
    requires forall w :: 0 <= w < |adj| && 0 <= dist[w] ==> dist'[w] == dist[w]
    ensures QueueOrdered(adj, dist', q[1..] + news)
  {
    var q' := q[1..] + news;
    assert forall i :: 0 <= i < |q| - 1 ==> q'[i] == q[i + 1];
    assert forall i :: |q| - 1 <= i < |q'| ==> q'[i] == news[i - (|q| - 1)];
  }

  lemma KeepsClosure(adj: seq<seq<int>>, start: int, dist: seq<int>, q: seq<int>,
                     dist': seq<int>, news: seq<int>)
    requires Popped(adj, start, dist, q, dist', news)
    ensures forall w, t :: 0 <= w < |adj| && 0 <= dist'[w] && w !in q[1..] + news && 0 <= t < |adj[w]| ==>
      0 <= dist'[adj[w][t]] <= dist'[w] + 1
  {
    var v, q' := q[0], q[1..] + news;
    assert q == [v] + q[1..];
    assert forall w :: w in q' <==> w in q[1..] || w in news;
    assert forall w :: w in q <==> w == v || w in q[1..];
    forall w, t | 0 <= w < |adj| && 0 <= dist'[w] && w !in q' && 0 <= t < |adj[w]|
      ensures 0 <= dist'[adj[w][t]] <= dist'[w] + 1
    {
      if w == v {
        var u := adj[v][t];
        if 0 <= dist[u] && u in q {
          var i :| 0 <= i < |q| && q[i] == u;
        }
      }
    }
  }

  lemma KeepsHead(adj: seq<seq<int>>, start: int, dist: seq<int>, q: seq<int>,
                  dist': seq<int>, news: seq<int>)
    requires Popped(adj, start, dist, q, dist', news)
    ensures var q' := q[1..] + news;
      q' != [] ==> forall w :: 0 <= w < |adj| && 0 <= dist'[w] && w !in q' ==> dist'[w] <= dist'[q'[0]]
  {
    var v, q' := q[0], q[1..] + news;
    assert q == [v] + q[1..];
    assert forall w :: w in q' <==> w in q[1..] || w in news;
    assert forall w :: w in q <==> w == v || w in q[1..];
    if q' != [] {
      assert dist[v] <= dist'[q'[0]] by {
        if |q| > 1 {
          assert q'[0] == q[1];
        } else {
          assert q'[0] == news[0];
        }
      }
    }
  }

  /** Breadth-first search from start, as in the body of computeDiameter's loop. */
  method Bfs(adj: seq<seq<int>>, start: int) returns (dist: seq<int>)
    requires WellFormed(adj) && 0 <= start < |adj|
    ensures IsBfsDist(adj, start, dist)
  {
    dist := seq(|adj|, _ => -1)[start := 0];
    var q := [start];
    while q != []
      invariant SearchState(adj, start, dist)
      invariant QueueOrdered(adj, dist, q) && DoneClosed(adj, dist, q)
      decreases Unreached(dist), |q|
    {
      var v := q[0];
      ghost var dist0, q0 := dist, q;
      ghost var news;
      dist, q, news := Expand(adj, start, v, dist, q[1..]);
      ExpandKeepsQueue(adj, start, dist0, q0, dist, news);
    }
  }

  /** The largest of `diameter` and the entries of `dist`: the max loop of computeDiameter. */
  method RaiseToMax(dist: seq<int>, diameter: int) returns (d: int)
    ensures diameter <= d && forall i :: 0 <= i < |dist| ==> dist[i] <= d
    ensures d == diameter || exists i :: 0 <= i < |dist| && dist[i] == d
  {
    d := diameter;
    for i := 0 to |dist|
      invariant diameter <= d && forall j :: 0 <= j < i ==> dist[j] <= d
      invariant d == diameter || exists j :: 0 <= j < i && dist[j] == d
    {
      if dist[i] > d {
        d := dist[i];
      }
    }
  }

  /** computeDiameter: the largest shortest distance between any two vertices. */
  method ComputeDiameter(g: Graph) returns (diameter: int)
    requires g.Valid()
    ensures IsDiameter(g.adj, diameter)
  {
    diameter := 0;
    for start := 0 to g.n
      invariant 0 <= diameter
      invariant forall s, v, k :: 0 <= s < start && 0 <= v < g.n && Dist(g.adj, s, v, k) ==> k <= diameter
      invariant diameter == 0 || exists s, v :: 0 <= s < start && 0 <= v < g.n && Dist(g.adj, s, v, diameter)
    {
      var dist := Bfs(g.adj, start);
      BfsDistances(g.adj, start, dist);
      ghost var before := diameter;
      diameter := RaiseToMax(dist, diameter);
      if diameter != before {
        var i :| 0 <= i < |dist| && dist[i] == diameter;
        assert Dist(g.adj, start, i, diameter);
      }
    }
  }
}
