/**
 * The seven-event example network of the CPM engine, built by adding its works
 * and, alternatively, by loading its "vertex predecessor weight" lines; both runs
 * yield the same schedule table and the critical path 1 -> 3 -> 5 -> 6 -> 7.
 */
module CpmExample {
  import opened CpmSpec
  import opened CpmInput
  import opened Cpm

  /** The example works as added: 1-2 (4), 1-3 (6), 2-4 (3), 3-5 (5), 4-6 (4), 5-6 (4), 6-7 (3). */
  function ExampleArcs(): seq<Work> {
    [NewWork(1, 2, 4), NewWork(1, 3, 6), NewWork(2, 4, 3), NewWork(3, 5, 5),
     NewWork(4, 6, 4), NewWork(5, 6, 4), NewWork(6, 7, 3)]
  }

  /** The same network as data lines: vertex, predecessor, weight. */
  function ExampleLines(): seq<Line> {
    [Fields(2, 1, 4), Fields(3, 1, 6), Fields(4, 2, 3), Fields(5, 3, 5),
     Fields(6, 4, 4), Fields(6, 5, 4), Fields(7, 6, 3)]
  }

  function ExampleAdj(): seq<seq<int>> {
    [[], [0, 1], [2], [3], [4], [5], [6], []]
  }

  function ExampleEarly(): seq<int> {
    [0, 0, 4, 6, 7, 11, 15, 18]
  }

  function ExampleLate(): seq<int> {
    [18, 0, 8, 6, 11, 11, 15, 18]
  }

  /**
   * The schedule table: start, end, duration, early start, early finish, late start,
   * late finish, total float, free float.
   */
  function ExampleSchedule(): seq<Work> {
    [Work(1, 2, 4, 0, 4, 4, 8, 4, 0),
     Work(1, 3, 6, 0, 6, 0, 6, 0, 0),
     Work(2, 4, 3, 4, 7, 8, 11, 4, 0),
     Work(3, 5, 5, 6, 11, 6, 11, 0, 0),
     Work(4, 6, 4, 7, 11, 11, 15, 4, 4),
     Work(5, 6, 4, 11, 15, 11, 15, 0, 0),
     Work(6, 7, 3, 15, 18, 15, 18, 0, 0)]
  }

  /** Works with the example's arcs, whatever their derived fields. */
  ghost predicate ExampleNetwork(ws: seq<Work>) {
    SameArcs(ExampleArcs(), ws)
  }

  lemma ExampleTopological(ws: seq<Work>)
    requires ExampleNetwork(ws)
    ensures Topological(ws, 7)
  {
    var arcs := ExampleArcs();
    forall k | 0 <= k < |ws| ensures 1 <= ws[k].start < ws[k].end <= 7 {
      assert SameArc(arcs[k], ws[k]);
      assert k == 0 || k == 1 || k == 2 || k == 3 || k == 4 || k == 5 || k == 6;
    }
  }

  /** The table carries the example's arcs. */
  lemma TableArcs()
    ensures ExampleNetwork(ExampleSchedule())
  {
    var ws := ExampleSchedule();
    forall k | 0 <= k < 7 ensures SameArc(ExampleArcs()[k], ws[k]) {
      assert k == 0 || k == 1 || k == 2 || k == 3 || k == 4 || k == 5 || k == 6;
    }
  }

  lemma ExampleIndex()
    ensures IsIndex(ExampleSchedule(), ExampleAdj(), 7, true)
  {
    var ws := ExampleSchedule();
    var adj := ExampleAdj();
    forall e, t | 0 <= e <= 7 && 0 <= t < |adj[e]|
      ensures 0 <= adj[e][t] < |ws| && Key(ws[adj[e][t]], true) == e
    {
      assert e == 1 || e == 2 || e == 3 || e == 4 || e == 5 || e == 6;
    }
    forall k | 0 <= k < |ws| ensures 0 <= Key(ws[k], true) <= 7 && k in adj[Key(ws[k], true)] {
      assert k == 0 || k == 1 || k == 2 || k == 3 || k == 4 || k == 5 || k == 6;
    }
  }

  lemma ExampleEarlyTimes()
    ensures IsEarlyTimes(ExampleSchedule(), 7, ExampleEarly())
  {
    ExampleEarlyArcs(ExampleSchedule(), ExampleEarly());
    ExampleEarlyAttained(ExampleSchedule(), ExampleEarly());
  }

  lemma ExampleEarlyArcs(ws: seq<Work>, early: seq<int>)
    requires ws == ExampleSchedule() && early == ExampleEarly()
    ensures forall k :: 0 <= k < |ws| ==>
      0 <= ws[k].start <= 7 && 0 <= ws[k].end <= 7 && early[ws[k].start] + ws[k].duration <= early[ws[k].end]
  {
    forall k | 0 <= k < |ws|
      ensures 0 <= ws[k].start <= 7 && 0 <= ws[k].end <= 7
      ensures early[ws[k].start] + ws[k].duration <= early[ws[k].end]
    {
      assert k == 0 || k == 1 || k == 2 || k == 3 || k == 4 || k == 5 || k == 6;
    }
  }

  lemma ExampleEarlyAttained(ws: seq<Work>, early: seq<int>)
    requires ws == ExampleSchedule() && early == ExampleEarly()
    ensures forall v :: 0 <= v <= 7 ==> 0 <= early[v]
    ensures forall v :: 0 <= v <= 7 ==>
      (early[v] == 0 || exists k :: 0 <= k < |ws| && ws[k].end == v && early[v] == early[ws[k].start] + ws[k].duration)
  {
    forall v | 0 <= v <= 7 ensures 0 <= early[v] {
      assert v == 0 || v == 1 || v == 2 || v == 3 || v == 4 || v == 5 || v == 6 || v == 7;
    }
    forall v | 0 <= v <= 7
      ensures early[v] == 0 ||
              exists k :: 0 <= k < |ws| && ws[k].end == v && early[v] == early[ws[k].start] + ws[k].duration
    {
      if v == 2 {
        assert ws[0].end == 2 && early[2] == early[ws[0].start] + ws[0].duration;
      } else if v == 3 {
        assert ws[1].end == 3 && early[3] == early[ws[1].start] + ws[1].duration;
      } else if v == 4 {
        assert ws[2].end == 4 && early[4] == early[ws[2].start] + ws[2].duration;
      } else if v == 5 {
        assert ws[3].end == 5 && early[5] == early[ws[3].start] + ws[3].duration;
      } else if v == 6 {
        assert ws[5].end == 6 && early[6] == early[ws[5].start] + ws[5].duration;
      } else if v == 7 {
        assert ws[6].end == 7 && early[7] == early[ws[6].start] + ws[6].duration;
      }
    }
  }


  lemma ExampleLateTimes()
    ensures IsLateTimes(ExampleSchedule(), 7, 18, ExampleLate())
  {
    ExampleLateArcs(ExampleSchedule(), ExampleLate());
    ExampleLateAttained(ExampleSchedule(), ExampleLate());
  }

  lemma ExampleLateArcs(ws: seq<Work>, late: seq<int>)
    requires ws == ExampleSchedule() && late == ExampleLate()
    ensures forall k :: 0 <= k < |ws| ==>
      0 <= ws[k].start <= 7 && 0 <= ws[k].end <= 7 && late[ws[k].start] <= late[ws[k].end] - ws[k].duration
  {
    forall k | 0 <= k < |ws|
      ensures 0 <= ws[k].start <= 7 && 0 <= ws[k].end <= 7
      ensures late[ws[k].start] <= late[ws[k].end] - ws[k].duration
    {
      assert k == 0 || k == 1 || k == 2 || k == 3 || k == 4 || k == 5 || k == 6;
    }
  }

  lemma ExampleLateAttained(ws: seq<Work>, late: seq<int>)
    requires ws == ExampleSchedule() && late == ExampleLate()
    ensures forall v :: 0 <= v <= 7 ==> late[v] <= 18
    ensures forall v :: 0 <= v <= 7 ==>
      (late[v] == 18 || exists k :: 0 <= k < |ws| && ws[k].start == v && late[v] == late[ws[k].end] - ws[k].duration)
  {
    forall v | 0 <= v <= 7 ensures late[v] <= 18 {
      assert v == 0 || v == 1 || v == 2 || v == 3 || v == 4 || v == 5 || v == 6 || v == 7;
    }
    forall v | 0 <= v <= 7
      ensures late[v] == 18 ||
              exists k :: 0 <= k < |ws| && ws[k].start == v && late[v] == late[ws[k].end] - ws[k].duration
    {
      if v == 1 {
        assert ws[1].start == 1 && late[1] == late[ws[1].end] - ws[1].duration;
      } else if v == 2 {
        assert ws[2].start == 2 && late[2] == late[ws[2].end] - ws[2].duration;
      } else if v == 3 {
        assert ws[3].start == 3 && late[3] == late[ws[3].end] - ws[3].duration;
      } else if v == 4 {
        assert ws[4].start == 4 && late[4] == late[ws[4].end] - ws[4].duration;
      } else if v == 5 {
        assert ws[5].start == 5 && late[5] == late[ws[5].end] - ws[5].duration;
      } else if v == 6 {
        assert ws[6].start == 6 && late[6] == late[ws[6].end] - ws[6].duration;
      }
    }
  }


  /** The table above is a schedule of the example network, with project length 18. */
  lemma ExampleIsSchedule()
    ensures IsSchedule(ExampleSchedule(), 7, ExampleAdj(), ExampleEarly(), ExampleLate(), 18)
  {
    ExampleIndex();
    ExampleEarlyTimes();
    ExampleLateTimes();
    ExampleFields();
  }

  lemma ExampleFields()
    ensures HasEarlyFields(ExampleSchedule(), ExampleEarly())
    ensures HasLateFields(ExampleSchedule(), ExampleLate())
    ensures IsProjectLength(ExampleSchedule(), 18)
    ensures HasFloats(ExampleSchedule(), ExampleAdj())
  {
    var ws := ExampleSchedule();
    var adj := ExampleAdj();
    forall k | 0 <= k < |ws|
      ensures 0 <= ws[k].start < 8 && ws[k].earlyStart == ExampleEarly()[ws[k].start]
      ensures ws[k].earlyFinish == ws[k].earlyStart + ws[k].duration
      ensures 0 <= ws[k].end < 8 && ws[k].lateFinish == ExampleLate()[ws[k].end]
      ensures ws[k].lateStart == ws[k].lateFinish - ws[k].duration
      ensures ws[k].earlyFinish <= 18
      ensures HasFloat(ws, adj, k)
    {
      assert k == 0 || k == 1 || k == 2 || k == 3 || k == 4 || k == 5 || k == 6;
      var succ := adj[ws[k].end];
      if succ != [] {
        assert 0 <= succ[0] < |ws| && ws[k].freeFloat + ws[k].earlyFinish == ws[succ[0]].earlyStart;
      }
    }
    assert ws[6].earlyFinish == 18;
  }

  /** The successor lists name only works of the table. */
  lemma ExampleListsBounded()
    ensures ListsBounded(ExampleSchedule(), ExampleAdj(), 7)
  {
    var adj := ExampleAdj();
    forall e, t | 0 <= e <= 7 && 0 <= t < |adj[e]| ensures 0 <= adj[e][t] < 7 {
      assert e == 1 || e == 2 || e == 3 || e == 4 || e == 5 || e == 6;
    }
  }

  /** Each step of 1 -> 3 -> 5 -> 6 -> 7 takes the first critical work listed. */
  lemma ExampleWalkSteps(ws: seq<Work>, adj: seq<seq<int>>, p: seq<int>)
    requires ws == ExampleSchedule() && adj == ExampleAdj() && p == [1, 3, 5, 6, 7]
    requires ListsBounded(ws, adj, 7)
    ensures forall s :: 0 <= s < |p| - 1 ==>
      p[s] != 7 && FirstCritical(ws, adj[p[s]], p[s], Elems(p[1..s + 1])) == Some(p[s + 1])
  {
    forall s | 0 <= s < |p| - 1
      ensures p[s] != 7 && FirstCritical(ws, adj[p[s]], p[s], Elems(p[1..s + 1])) == Some(p[s + 1])
    {
      assert s == 0 || s == 1 || s == 2 || s == 3;
      if s == 0 {
        assert p[1..1] == [] && Elems([]) == {};
        assert !CriticalStep(ws[0], 1, {}) && CriticalStep(ws[1], 1, {});
        assert adj[1][1..] == [1];
      } else if s == 1 {
        assert p[1..2] == [3] && Elems([3]) == {3};
      } else if s == 2 {
        assert p[1..3] == [3, 5] && Elems([3, 5]) == {3, 5};
      } else {
        assert p[1..4] == [3, 5, 6] && Elems([3, 5, 6]) == {3, 5, 6};
      }
    }
  }

  /** 1 -> 3 -> 5 -> 6 -> 7 is the walk over that table. */
  lemma ExampleWalk()
    ensures IsCriticalWalk(ExampleSchedule(), ExampleAdj(), 7, [1, 3, 5, 6, 7])
  {
    var p := [1, 3, 5, 6, 7];
    ExampleListsBounded();
    ExampleWalkSteps(ExampleSchedule(), ExampleAdj(), p);
    forall s | 0 <= s < |p| ensures 0 <= p[s] <= 7 {
      assert s == 0 || s == 1 || s == 2 || s == 3 || s == 4;
    }
  }

  /** Once the example's passes have run, its works are the schedule table. */
  lemma SolvedExample(ws: seq<Work>, early: seq<int>, late: seq<int>, crit: int)
    requires ExampleNetwork(ws)
    requires Topological(ws, 7) ==> IsSchedule(ws, 7, ExampleAdj(), early, late, crit)
    ensures ws == ExampleSchedule()
  {
    ExampleTopological(ws);
    ExampleIsSchedule();
    TableArcs();
    var table := ExampleSchedule();
    var arcs := ExampleArcs();
    assert SameArcs(table, ws) by {
      forall k | 0 <= k < |ws| ensures SameArc(table[k], ws[k]) {
        assert SameArc(arcs[k], ws[k]) && SameArc(arcs[k], table[k]);
      }
    }
    ExampleTopological(table);
    ScheduleDeterminedByArcs(table, ws, 7, ExampleAdj(), ExampleEarly(), ExampleLate(), 18, early, late, crit);
  }

  /** The example network, built as the program builds it. */
  method BuildExample() returns (g: NetworkGraph)
    ensures fresh(g) && g.Valid() && g.numEvents == 7
    ensures g.works == ExampleArcs() && g.adjList == ExampleAdj()
  {
    g := new NetworkGraph.Sized(7);
    var arcs := ExampleArcs();
    for k := 0 to |arcs|
      invariant fresh(g) && g.Valid() && g.numEvents == 7 && g.works == arcs[..k]
    {
      assert k == 0 || k == 1 || k == 2 || k == 3 || k == 4 || k == 5 || k == 6;
      g.AddWork(arcs[k].start, arcs[k].end, arcs[k].duration);
      assert arcs[..k + 1] == arcs[..k] + [arcs[k]];
    }
    assert arcs[..7] == arcs;
    ExampleIndexUnique(g.adjList);
  }

  /** Building the example by hand gives its schedule table and critical path. */
  method BuiltExample() returns (g: NetworkGraph, path: seq<int>)
    ensures g.works == ExampleSchedule()
    ensures path == [1, 3, 5, 6, 7]
  {
    g := BuildExample();
    SolveExample(g);
    path := g.FindCriticalPath();
    ExampleWalk();
    CriticalWalkUnique(g.works, g.adjList, 7, path, [1, 3, 5, 6, 7]);
  }

  /** Runs the passes on a network holding the example's works. */
  method SolveExample(g: NetworkGraph)
    requires g.Valid() && g.numEvents == 7 && g.works == ExampleArcs() && g.adjList == ExampleAdj()
    modifies g
    ensures g.Valid() && g.numEvents == 7 && g.adjList == ExampleAdj()
    ensures g.works == ExampleSchedule()
    ensures IsSchedule(g.works, 7, g.adjList, g.earlyTime, g.lateTime, g.criticalTime)
  {
    var computed := g.CalculateAll();
    assert ExampleNetwork(g.works) by {
      forall k | 0 <= k < 7 ensures SameArc(ExampleArcs()[k], g.works[k]) {
        assert SameArc(old(g.works)[k], g.works[k]);
      }
    }
    ExampleTopological(g.works);
    SolvedExample(g.works, g.earlyTime, g.lateTime, g.criticalTime);
  }

  /** The triples the example lines yield, as the loader stores them. */
  function ExampleTriplesRead(): seq<Triple> {
    [Triple(1, 2, 4), Triple(1, 3, 6), Triple(2, 4, 3), Triple(3, 5, 5),
     Triple(4, 6, 4), Triple(5, 6, 4), Triple(6, 7, 3)]
  }

  lemma ExampleTriplesKept()
    ensures Triples(ExampleLines()) == ExampleTriplesRead()
  {
    var ls := ExampleLines();
    forall i | 0 <= i < |ls| ensures ls[i].Fields? {
      assert i == 0 || i == 1 || i == 2 || i == 3 || i == 4 || i == 5 || i == 6;
    }
    TriplesOfFields(ls);
    forall i | 0 <= i < 7 ensures Triples(ls)[i] == ExampleTriplesRead()[i] {
      assert i == 0 || i == 1 || i == 2 || i == 3 || i == 4 || i == 5 || i == 6;
    }
  }

  lemma ExampleMaxEvent(ts: seq<Triple>)
    requires ts == ExampleTriplesRead()
    ensures MaxEvent(ts) == 7
  {
    MaxEventIsMax(ts);
    assert ts[6].vertex == 7;
    forall i | 0 <= i < 7 ensures ts[i].vertex <= 7 && ts[i].predecessor <= 7 {
      assert i == 0 || i == 1 || i == 2 || i == 3 || i == 4 || i == 5 || i == 6;
    }
  }

  lemma ExampleLoadedWorks(ts: seq<Triple>)
    requires ts == ExampleTriplesRead()
    ensures NonNegativeVertices(ts)
    ensures LoadedWorks(ts) == ExampleArcs()
  {
    forall i | 0 <= i < 7
      ensures 0 <= ts[i].vertex
      ensures LoadedWorks(ts)[i] == ExampleArcs()[i]
    {
      assert i == 0 || i == 1 || i == 2 || i == 3 || i == 4 || i == 5 || i == 6;
    }
  }

  /** What the loader reads from the example lines. */
  lemma ExampleTriples()
    ensures Loadable(Triples(ExampleLines()))
    ensures MaxEvent(Triples(ExampleLines())) == 7
    ensures LoadedWorks(Triples(ExampleLines())) == ExampleArcs()
  {
    ExampleTriplesKept();
    ExampleMaxEvent(ExampleTriplesRead());
    ExampleLoadedWorks(ExampleTriplesRead());
  }

  /** The successor index of the example works is unique: it is ExampleAdj(). */
  lemma ExampleIndexUnique(adj: seq<seq<int>>)
    requires IsIndex(ExampleArcs(), adj, 7, true)
    ensures adj == ExampleAdj()
  {
    var ws := ExampleArcs();
    ExampleIndex();
    TableArcs();
    assert SameArcs(ExampleSchedule(), ws) by {
      forall k | 0 <= k < 7 ensures SameArc(ExampleSchedule()[k], ws[k]) {
        assert SameArc(ws[k], ExampleSchedule()[k]);
      }
    }
    IndexTransfer(ExampleSchedule(), ws, ExampleAdj(), 7, true);
    IndexUnique(ws, adj, ExampleAdj(), 7, true);
  }

  /** Loading the example's data lines gives the same schedule table and critical path. */
  method LoadedExample() returns (g: NetworkGraph, ok: bool, path: seq<int>)
    ensures ok && g.works == ExampleSchedule()
    ensures path == [1, 3, 5, 6, 7]
  {
    g := new NetworkGraph.Empty();
    ExampleTriples();
    ok := g.LoadFromFile(Some(ExampleLines()));
    ExampleIndexUnique(g.adjList);
    SolveExample(g);
    path := g.FindCriticalPath();
    ExampleWalk();
    CriticalWalkUnique(g.works, g.adjList, 7, path, [1, 3, 5, 6, 7]);
  }
}
