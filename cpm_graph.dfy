/**
 * The network-graph object of the CPM engine: the works, the successor and
 * predecessor indices, the event names, and the passes that fill in the six time
 * parameters of every work in place.
 */
module Cpm {
  import opened CpmSpec
  import opened CpmInput

  /** b is a with only the early start and early finish of each work rewritten. */
  ghost predicate OnlyEarlyChanged(a: seq<Work>, b: seq<Work>) {
    |a| == |b| &&
    forall k :: 0 <= k < |a| ==> b[k] == a[k].(earlyStart := b[k].earlyStart, earlyFinish := b[k].earlyFinish)
  }

  /** b is a with only the late start and late finish of each work rewritten. */
  ghost predicate OnlyLateChanged(a: seq<Work>, b: seq<Work>) {
    |a| == |b| &&
    forall k :: 0 <= k < |a| ==> b[k] == a[k].(lateStart := b[k].lateStart, lateFinish := b[k].lateFinish)
  }

  /** b is a with only the total and free float of each work rewritten. */
  ghost predicate OnlyFloatsChanged(a: seq<Work>, b: seq<Work>) {
    |a| == |b| &&
    forall k :: 0 <= k < |a| ==> b[k] == a[k].(totalFloat := b[k].totalFloat, freeFloat := b[k].freeFloat)
  }

  class NetworkGraph {
    var numEvents: int
    var works: seq<Work>
    /** adjList[e]: indices of the works leaving event e, in insertion order. */
    var adjList: seq<seq<int>>
    /** predList[e]: indices of the works entering event e, in insertion order. */
    var predList: seq<seq<int>>
    var eventNames: map<int, string>
    /** The local event-time vectors and project length of the last passes. */
    ghost var earlyTime: seq<int>
    ghost var lateTime: seq<int>
    ghost var criticalTime: int

    /** Both index lists have one slot per event 0..numEvents and list exactly the works. */
    ghost predicate Valid()
      reads this
    {
      -1 <= numEvents && IsIndex(works, adjList, numEvents, true) && IsIndex(works, predList, numEvents, false)
    }

    /** Valid, or the state a loader leaves behind after reading no data at all. */
    ghost predicate Consistent()
      reads this
    {
      Valid() || (works == [] && adjList == [] && predList == [])
    }

    /** A network with the given number of events and no works yet. */
    constructor Sized(events: int)
      requires -1 <= events
      ensures Valid()
      ensures numEvents == events && works == [] && eventNames == map[]
      ensures |adjList| == |predList| == events + 1
      ensures forall e :: 0 <= e <= events ==> adjList[e] == [] && predList[e] == []
    {
      numEvents := events;
      works := [];
      adjList := seq(events + 1, _ => []);
      predList := seq(events + 1, _ => []);
      eventNames := map[];
      earlyTime := [];
      lateTime := [];
      criticalTime := 0;
    }

    /** A network with no events and no lists, to be filled by a loader. */
    constructor Empty()
      ensures Consistent()
      ensures numEvents == 0 && works == [] && adjList == [] && predList == [] && eventNames == map[]
    {
      numEvents := 0;
      works := [];
      adjList := [];
      predList := [];
      eventNames := map[];
      earlyTime := [];
      lateTime := [];
      criticalTime := 0;
    }

    /** Appends the work i -> j and lists its index among the works leaving i and entering j. */
    method AddWork(i: int, j: int, duration: int)
      requires Valid() && 0 <= i <= numEvents && 0 <= j <= numEvents
      modifies this
      ensures Valid()
      ensures works == old(works) + [NewWork(i, j, duration)]
      ensures adjList == old(adjList)[i := old(adjList)[i] + [|old(works)|]]
      ensures predList == old(predList)[j := old(predList)[j] + [|old(works)|]]
      ensures numEvents == old(numEvents) && eventNames == old(eventNames)
      ensures earlyTime == old(earlyTime) && lateTime == old(lateTime) && criticalTime == old(criticalTime)
    {
      var w := NewWork(i, j, duration);
      IndexAppend(works, adjList, numEvents, true, w);
      IndexAppend(works, predList, numEvents, false, w);
      var index := |works|;
      works := works + [w];
      adjList := adjList[i := adjList[i] + [index]];
      predList := predList[j := predList[j] + [index]];
    }

    /**
     * Loads the network from the lines of a "vertex predecessor weight" file (None:
     * the file could not be opened, and nothing changes).  Works, lists and names are
     * cleared first; with no data line the load fails leaving them empty and the event
     * count as it was; otherwise the event count becomes the largest id read and one
     * work predecessor -> vertex is added per data line, in order, a predecessor <= 0
     * meaning event 1.
     */
    method LoadFromFile(input: Option<seq<Line>>) returns (ok: bool)
      requires input.Some? ==> Loadable(Triples(input.value))
      modifies this
      ensures ok <==> input.Some? && Triples(input.value) != []
      ensures input.None? ==>
        numEvents == old(numEvents) && works == old(works) && adjList == old(adjList) &&
        predList == old(predList) && eventNames == old(eventNames)
      ensures input.Some? ==> Consistent() && eventNames == map[]
      ensures input.Some? && !ok ==> numEvents == old(numEvents) && works == [] && adjList == [] && predList == []
      ensures ok ==>
        Valid() && numEvents == MaxEvent(Triples(input.value)) && works == LoadedWorks(Triples(input.value))
      ensures earlyTime == old(earlyTime) && lateTime == old(lateTime) && criticalTime == old(criticalTime)
    {
      if input.None? {
        return false;
      }
      works, adjList, predList, eventNames := [], [], [], map[];
      var temp, maxEvent, _ := ReadLines(input.value);
      if temp == [] {
        return false;
      }
      Rebuild(temp, maxEvent);
      ok := true;
    }

    /**
     * As LoadFromFile, and every vertex and positive predecessor read is also given
     * its decimal spelling as its event name.
     */
    method LoadFromFileWithNames(input: Option<seq<Line>>) returns (ok: bool)
      requires input.Some? ==> Loadable(Triples(input.value))
      modifies this
      ensures ok <==> input.Some? && Triples(input.value) != []
      ensures input.None? ==>
        numEvents == old(numEvents) && works == old(works) && adjList == old(adjList) &&
        predList == old(predList) && eventNames == old(eventNames)
      ensures input.Some? ==> Consistent() && eventNames == NameMap(Triples(input.value))
      ensures input.Some? && !ok ==> numEvents == old(numEvents) && works == [] && adjList == [] && predList == []
      ensures ok ==>
        Valid() && numEvents == MaxEvent(Triples(input.value)) && works == LoadedWorks(Triples(input.value))
      ensures earlyTime == old(earlyTime) && lateTime == old(lateTime) && criticalTime == old(criticalTime)
    {
      if input.None? {
        return false;
      }
      works, adjList, predList, eventNames := [], [], [], map[];
      var temp, maxEvent, names := ReadLines(input.value);
      eventNames := names;
      if temp == [] {
        return false;
      }
      Rebuild(temp, maxEvent);
      ok := true;
    }

    /** Sizes the cleared network for events 0..maxEvent and adds the works read, in order. */
    method Rebuild(temp: seq<Triple>, maxEvent: int)
      requires Loadable(temp) && temp != [] && maxEvent == MaxEvent(temp)
      modifies this
      ensures Valid() && numEvents == maxEvent && works == LoadedWorks(temp)
      ensures eventNames == old(eventNames)
      ensures earlyTime == old(earlyTime) && lateTime == old(lateTime) && criticalTime == old(criticalTime)
    {
      LoadedWorksInRange(temp);
      MaxEventIsMax(temp);
      numEvents := maxEvent;
      works := [];
      adjList := seq(maxEvent + 1, _ => []);
      predList := seq(maxEvent + 1, _ => []);
      var k := 0;
      while k < |temp|
        invariant 0 <= k <= |temp|
        invariant Valid() && numEvents == maxEvent && works == LoadedWorks(temp[..k])
        invariant eventNames == old(eventNames)
        invariant earlyTime == old(earlyTime) && lateTime == old(lateTime) && criticalTime == old(criticalTime)
      {
        var t := temp[k];
        LoadedWorksSnoc(temp, k);
        if t.predecessor > 0 {
          AddWork(t.predecessor, t.vertex, t.weight);
        } else {
          AddWork(1, t.vertex, t.weight);
        }
        k := k + 1;
      }
      assert temp[..k] == temp;
    }

    /** Records a display name for an event. */
    method SetEventName(event: int, name: string)
      modifies this
      ensures eventNames == old(eventNames)[event := name]
      ensures numEvents == old(numEvents) && works == old(works)
      ensures adjList == old(adjList) && predList == old(predList)
      ensures earlyTime == old(earlyTime) && lateTime == old(lateTime) && criticalTime == old(criticalTime)
    {
      eventNames := eventNames[event := name];
    }

    /**
     * Forward pass: relaxes the works leaving events 1, 2, ..., numEvents in that
     * order, then sets every work's early start and finish from the event times.
     */
    method CalculateEarlyTimes()
      requires Valid()
      modifies this
      ensures Valid()
      ensures numEvents == old(numEvents) && adjList == old(adjList) && predList == old(predList)
      ensures eventNames == old(eventNames) && lateTime == old(lateTime) && criticalTime == old(criticalTime)
      ensures OnlyEarlyChanged(old(works), works)
      ensures |earlyTime| == numEvents + 1 && forall v :: 0 <= v <= numEvents ==> 0 <= earlyTime[v]
      ensures HasEarlyFields(works, earlyTime)
      ensures Topological(works, numEvents) ==> IsEarlyTimes(works, numEvents, earlyTime)
    {
      var n := numEvents;
      var ws := works;
      IndexedInRange(ws, adjList, predList, n);
      var early := ForwardPass(ws, adjList, n);
      var ws' := SetEarlyFields(ws, early);
      IndexTransfer(ws, ws', adjList, n, true);
      IndexTransfer(ws, ws', predList, n, false);
      if Topological(ws, n) {
        EarlyTransfer(ws, ws', n, early);
      }
      works := ws';
      earlyTime := early;
    }

    /**
     * Backward pass: the project length is the largest early finish; the works
     * entering events numEvents, ..., 2, 1 are relaxed backwards in that order, then
     * every work's late finish and start are set from the event times.
     */
    method CalculateLateTimes()
      requires Valid()
      modifies this
      ensures Valid()
      ensures numEvents == old(numEvents) && adjList == old(adjList) && predList == old(predList)
      ensures eventNames == old(eventNames) && earlyTime == old(earlyTime)
      ensures OnlyLateChanged(old(works), works)
      ensures IsProjectLength(works, criticalTime)
      ensures |lateTime| == numEvents + 1 && forall v :: 0 <= v <= numEvents ==> lateTime[v] <= criticalTime
      ensures HasLateFields(works, lateTime)
      ensures Topological(works, numEvents) ==> IsLateTimes(works, numEvents, criticalTime, lateTime)
    {
      var n := numEvents;
      var ws := works;
      IndexedInRange(ws, adjList, predList, n);
      var crit := MaxEarlyFinish(ws);
      var late := BackwardPass(ws, predList, n, crit);
      var ws' := SetLateFields(ws, late);
      IndexTransfer(ws, ws', adjList, n, true);
      IndexTransfer(ws, ws', predList, n, false);
      if Topological(ws, n) {
        LateTransfer(ws, ws', n, crit, late);
      }
      works := ws';
      lateTime := late;
      criticalTime := crit;
    }

    /**
     * Floats: total float is late start minus early start; free float is the least
     * early start among the works leaving the work's end event minus its early
     * finish, or 0 when no work leaves that event.
     */
    method CalculateFloats()
      requires Valid()
      modifies this
      ensures Valid()
      ensures numEvents == old(numEvents) && adjList == old(adjList) && predList == old(predList)
      ensures eventNames == old(eventNames)
      ensures earlyTime == old(earlyTime) && lateTime == old(lateTime) && criticalTime == old(criticalTime)
      ensures OnlyFloatsChanged(old(works), works)
      ensures HasFloats(works, adjList)
    {
      var ws := works;
      IndexedInRange(ws, adjList, predList, numEvents);
      var ws' := FloatPass(ws, adjList, numEvents);
      IndexTransfer(ws, ws', adjList, numEvents, true);
      IndexTransfer(ws, ws', predList, numEvents, false);
      works := ws';
    }

    /**
     * The three passes, in order, once there is at least one work; with no works
     * nothing is computed and nothing changes.
     */
    method CalculateAll() returns (computed: bool)
      requires Consistent()
      modifies this
      ensures computed <==> old(works) != []
      ensures Consistent()
      ensures numEvents == old(numEvents) && adjList == old(adjList) && predList == old(predList)
      ensures eventNames == old(eventNames)
      ensures !computed ==>
        works == old(works) && earlyTime == old(earlyTime) && lateTime == old(lateTime) && criticalTime == old(criticalTime)
      ensures computed ==> Valid() && SameArcs(old(works), works)
      ensures computed ==> HasEarlyFields(works, earlyTime) && IsProjectLength(works, criticalTime)
      ensures computed ==> HasLateFields(works, lateTime) && HasFloats(works, adjList)
      ensures computed && Topological(works, numEvents) ==>
        IsSchedule(works, numEvents, adjList, earlyTime, lateTime, criticalTime)
      ensures computed && Topological(works, numEvents) ==>
        forall k :: 0 <= k < |works| ==>
          && works[k].earlyFinish <= works[k].lateFinish
          && 0 <= works[k].totalFloat
          && 0 <= works[k].freeFloat <= works[k].totalFloat
    {
      if works == [] {
        return false;
      }
      ghost var w0 := works;
      CalculateEarlyTimes();
      ghost var w1 := works;
      CalculateLateTimes();
      ghost var w2 := works;
      CalculateFloats();
      PassesCompose(w0, w1, w2, works, numEvents, adjList, earlyTime, lateTime, criticalTime);
      computed := true;
    }

    /**
     * The critical-path walk: from event 1, repeatedly follow the first critical
     * work (total float 0) leaving the current event towards an event not yet
     * visited, until event numEvents is reached or no such work is left.
     */
    method FindCriticalPath() returns (path: seq<int>)
      requires Valid() && 1 <= numEvents
      ensures IsCriticalWalk(works, adjList, numEvents, path)
      ensures Topological(works, numEvents) ==> forall s :: 0 <= s < |path| - 1 ==> path[s] < path[s + 1]
      ensures Topological(works, numEvents) && IsSchedule(works, numEvents, adjList, earlyTime, lateTime, criticalTime) ==>
        |path| > 1 ==> forall s :: 0 <= s < |path| ==> earlyTime[path[s]] == lateTime[path[s]]
    {
      IndexedInRange(works, adjList, predList, numEvents);
      IndexBounded(works, adjList, numEvents);
      path := CriticalWalk(works, adjList, numEvents);
      if Topological(works, numEvents) {
        CriticalWalkClimbs(works, numEvents, adjList, path);
      }
      if Topological(works, numEvents) && IsSchedule(works, numEvents, adjList, earlyTime, lateTime, criticalTime) {
        CriticalWalkIsTight(works, numEvents, adjList, earlyTime, lateTime, criticalTime, path);
      }
    }

    /** The critical-path length the schedule table reports: the largest early finish, or 0. */
    method CriticalPathLength() returns (length: int)
      ensures IsProjectLength(works, length)
    {
      length := MaxEarlyFinish(works);
    }
  }

  /** Every work leaving an event below i has been relaxed. */
  ghost predicate ForwardRelaxed(ws: seq<Work>, early: seq<int>, i: int)
    requires forall k :: 0 <= k < |ws| ==> 0 <= ws[k].start < |early| && 0 <= ws[k].end < |early|
  {
    forall k :: 0 <= k < |ws| && ws[k].start < i ==> early[ws[k].start] + ws[k].duration <= early[ws[k].end]
  }

  /** The time of v is 0 or attained by a work entering v from an event at most i. */
  ghost predicate Witnessed(ws: seq<Work>, early: seq<int>, i: int, v: int)
    requires forall k :: 0 <= k < |ws| ==> 0 <= ws[k].start < |early|
    requires 0 <= v < |early|
  {
    early[v] == 0 ||
    exists k :: 0 <= k < |ws| && ws[k].end == v && ws[k].start <= i && early[v] == early[ws[k].start] + ws[k].duration
  }

  /** Every event time is witnessed by a work from an event at most i. */
  ghost predicate ForwardWitnessed(ws: seq<Work>, early: seq<int>, i: int)
    requires forall k :: 0 <= k < |ws| ==> 0 <= ws[k].start < |early|
  {
    forall v :: 0 <= v < |early| ==> Witnessed(ws, early, i, v)
  }

  /** The event-time loop of the forward pass. */
  method ForwardPass(ws: seq<Work>, adj: seq<seq<int>>, n: int) returns (early: seq<int>)
    requires -1 <= n && IsIndex(ws, adj, n, true) && InRange(ws, n)
    ensures |early| == n + 1 && forall v :: 0 <= v <= n ==> 0 <= early[v]
    ensures Topological(ws, n) ==> IsEarlyTimes(ws, n, early)
  {
    early := seq(n + 1, _ => 0);
    var i := 1;
    while i <= n
      invariant 1 <= i && (i <= n + 1 || i == 1)
      invariant |early| == n + 1
      invariant forall v :: 0 <= v <= n ==> 0 <= early[v]
      invariant Topological(ws, n) ==> ForwardRelaxed(ws, early, i) && ForwardWitnessed(ws, early, i - 1)
    {
      early := RelaxLeaving(ws, adj, n, i, early);
      i := i + 1;
    }
    if Topological(ws, n) {
      forall v | 0 <= v <= n
        ensures early[v] == 0 ||
                exists k :: 0 <= k < |ws| && ws[k].end == v && early[v] == early[ws[k].start] + ws[k].duration
      {
        assert Witnessed(ws, early, i - 1, v);
      }
    }
  }

  /** A witness from an event at most i is one from an event at most j >= i. */
  lemma WitnessedWeaken(ws: seq<Work>, early: seq<int>, i: int, j: int)
    requires forall k :: 0 <= k < |ws| ==> 0 <= ws[k].start < |early|
    requires i <= j && ForwardWitnessed(ws, early, i)
    ensures ForwardWitnessed(ws, early, j)
  {
    forall v | 0 <= v < |early| ensures Witnessed(ws, early, j, v) {
      assert Witnessed(ws, early, i, v);
    }
  }

  /** One round of the forward pass: relaxes the works adj[i] leaving event i. */
  method RelaxLeaving(ws: seq<Work>, adj: seq<seq<int>>, n: int, i: int, early0: seq<int>) returns (early: seq<int>)
    requires IsIndex(ws, adj, n, true) && InRange(ws, n) && 1 <= i <= n
    requires |early0| == n + 1 && forall v :: 0 <= v <= n ==> 0 <= early0[v]
    ensures |early| == n + 1 && forall v :: 0 <= v <= n ==> 0 <= early[v]
    ensures Topological(ws, n) && ForwardRelaxed(ws, early0, i) && ForwardWitnessed(ws, early0, i - 1) ==>
      ForwardRelaxed(ws, early, i + 1) && ForwardWitnessed(ws, early, i)
  {
    ghost var topo := Topological(ws, n) && ForwardRelaxed(ws, early0, i) && ForwardWitnessed(ws, early0, i - 1);
    early := early0;
    if topo {
      WitnessedWeaken(ws, early, i - 1, i);
    }
    var list := adj[i];
    var t := 0;
    while t < |list|
      invariant 0 <= t <= |list|
      invariant |early| == n + 1
      invariant forall v :: 0 <= v <= n ==> 0 <= early[v]
      invariant topo ==> ForwardRelaxed(ws, early, i) && ForwardWitnessed(ws, early, i)
      invariant topo ==> forall s :: 0 <= s < t ==>
        early[ws[list[s]].start] + ws[list[s]].duration <= early[ws[list[s]].end]
    {
      var idx := list[t];
      var w := ws[idx];
      var newTime := early[w.start] + w.duration;
      ghost var before := early;
      if newTime > early[w.end] {
        early := early[w.end := newTime];
      }
      assert forall v :: 0 <= v <= n && v != w.end ==> early[v] == before[v];
      if topo {
        RelaxStep(ws, n, i, idx, before, early);
      }
      t := t + 1;
    }
    if topo {
      forall k | 0 <= k < |ws| && ws[k].start < i + 1
        ensures early[ws[k].start] + ws[k].duration <= early[ws[k].end]
      {
        if ws[k].start == i {
          assert Key(ws[k], true) == i;
          var s :| 0 <= s < |list| && list[s] == k;
        }
      }
    }
  }

  /**
   * Relaxing one work idx leaving event i keeps both forward invariants, relaxes
   * idx, leaves every time up to event i alone and lowers no time.
   */
  lemma RelaxStep(ws: seq<Work>, n: int, i: int, idx: int, early: seq<int>, early': seq<int>)
    requires Topological(ws, n) && 0 <= idx < |ws| && ws[idx].start == i
    requires |early| == |early'| == n + 1
    requires early'[ws[idx].end] == (if early[i] + ws[idx].duration > early[ws[idx].end]
                                     then early[i] + ws[idx].duration else early[ws[idx].end])
    requires forall v :: 0 <= v <= n && v != ws[idx].end ==> early'[v] == early[v]
    requires ForwardRelaxed(ws, early, i) && ForwardWitnessed(ws, early, i)
    ensures ForwardRelaxed(ws, early', i) && ForwardWitnessed(ws, early', i)
    ensures early'[i] + ws[idx].duration <= early'[ws[idx].end]
    ensures forall v :: 0 <= v <= i ==> early'[v] == early[v]
    ensures forall v :: 0 <= v <= n ==> early[v] <= early'[v]
  {
    var e := ws[idx].end;
    assert i < e;
    forall k | 0 <= k < |ws| && ws[k].start < i
      ensures early'[ws[k].start] + ws[k].duration <= early'[ws[k].end]
    {
      assert early'[ws[k].start] == early[ws[k].start];
    }
    forall v | 0 <= v < |early'|
      ensures Witnessed(ws, early', i, v)
    {
      if v == e && early'[v] != early[v] {
        assert ws[idx].end == v && early'[v] == early'[ws[idx].start] + ws[idx].duration;
      } else if early[v] != 0 {
        assert Witnessed(ws, early, i, v);
        var k :| 0 <= k < |ws| && ws[k].end == v && ws[k].start <= i && early[v] == early[ws[k].start] + ws[k].duration;
        assert early'[ws[k].start] == early[ws[k].start];
      }
    }
  }

  /** The early-field loop: early start from the start event's time, early finish one duration later. */
  method SetEarlyFields(ws: seq<Work>, early: seq<int>) returns (ws': seq<Work>)
    requires forall k :: 0 <= k < |ws| ==> 0 <= ws[k].start < |early|
    ensures OnlyEarlyChanged(ws, ws') && SameArcs(ws, ws')
    ensures HasEarlyFields(ws', early)
  {
    ws' := ws;
    var k := 0;
    while k < |ws'|
      invariant 0 <= k <= |ws'| == |ws|
      invariant forall m :: 0 <= m < |ws| ==>
        ws'[m] == ws[m].(earlyStart := ws'[m].earlyStart, earlyFinish := ws'[m].earlyFinish)
      invariant forall m :: 0 <= m < k ==>
        ws'[m].earlyStart == early[ws'[m].start] && ws'[m].earlyFinish == ws'[m].earlyStart + ws'[m].duration
    {
      var w := ws'[k];
      ws' := ws'[k := w.(earlyStart := early[w.start], earlyFinish := early[w.start] + w.duration)];
      k := k + 1;
    }
    forall m | 0 <= m < |ws| ensures SameArc(ws[m], ws'[m]) {
    }
  }

  /** The walk loop behind FindCriticalPath, over the works and successor lists. */
  method CriticalWalk(ws: seq<Work>, adj: seq<seq<int>>, n: int) returns (path: seq<int>)
    requires ListsBounded(ws, adj, n) && InRange(ws, n) && 1 <= n
    ensures IsCriticalWalk(ws, adj, n, path)
  {
    var visited := seq(n + 1, _ => false);
    var current := 1;
    path := [current];
    ghost var seen: set<int> := {};
    ghost var events := EventSet(n);
    while current != n
      invariant IsWalkPrefix(ws, adj, n, path) && current == path[|path| - 1]
      invariant seen == Elems(path[1..]) && seen <= events
      invariant |visited| == n + 1 && forall x :: 0 <= x <= n ==> (visited[x] <==> x in seen)
      decreases |events - seen|
    {
      var next := NextCritical(ws, adj, n, current, visited, seen);
      if next.None? {
        break;
      }
      ghost var seen0 := seen;
      path, visited, seen := Advance(ws, adj, n, path, visited, seen, next.value);
      assert next.value in events;
      FewerUnvisited(events, seen0, next.value);
      current := next.value;
    }
  }

  /** Visiting an event not visited before leaves fewer events to visit. */
  lemma FewerUnvisited(events: set<int>, seen: set<int>, e: int)
    requires e in events && e !in seen
    ensures |events - (seen + {e})| < |events - seen|
  {
    var rest := events - (seen + {e});
    assert events - seen == rest + {e} && e !in rest;
  }

  /** Takes the step the scan found: appends its end event and marks it visited. */
  method Advance(ws: seq<Work>, adj: seq<seq<int>>, n: int, path: seq<int>, visited: seq<bool>,
                 ghost seen: set<int>, next: int)
    returns (path': seq<int>, visited': seq<bool>, ghost seen': set<int>)
    requires IsWalkPrefix(ws, adj, n, path) && path[|path| - 1] != n && InRange(ws, n)
    requires FirstCritical(ws, adj[path[|path| - 1]], path[|path| - 1], Elems(path[1..])) == Some(next)
    requires seen == Elems(path[1..])
    requires |visited| == n + 1 && forall x :: 0 <= x <= n ==> (visited[x] <==> x in seen)
    ensures path' == path + [next] && IsWalkPrefix(ws, adj, n, path')
    ensures 0 <= next <= n && next !in seen && seen' == seen + {next} && seen' == Elems(path'[1..])
    ensures |visited'| == n + 1 && forall x :: 0 <= x <= n ==> (visited'[x] <==> x in seen')
  {
    WalkExtend(ws, adj, n, path, next);
    path' := path + [next];
    visited', seen' := MarkVisited(visited, seen, next);
  }

  /** Marks event e visited, in the flag vector and in the ghost set alike. */

  method MarkVisited(visited: seq<bool>, ghost seen: set<int>, e: int) returns (visited': seq<bool>, ghost seen': set<int>)
    requires 0 <= e < |visited| && forall x :: 0 <= x < |visited| ==> (visited[x] <==> x in seen)
    ensures seen' == seen + {e} && |visited'| == |visited|
    ensures forall x :: 0 <= x < |visited'| ==> (visited'[x] <==> x in seen')
  {
    visited' := visited[e := true];
    seen' := seen + {e};
  }

  /** One scan of adj[current] in the walk, stopping at the first critical step. */
  method NextCritical(ws: seq<Work>, adj: seq<seq<int>>, n: int, current: int, visited: seq<bool>, ghost seen: set<int>)
    returns (next: Option<int>)
    requires ListsBounded(ws, adj, n) && InRange(ws, n) && 0 <= current <= n
    requires |visited| == n + 1 && forall x :: 0 <= x <= n ==> (visited[x] <==> x in seen)
    ensures next == FirstCritical(ws, adj[current], current, seen)
  {
    var list := adj[current];
    var t := 0;
    while t < |list|
      invariant 0 <= t <= |list|
      invariant FirstCritical(ws, list, current, seen) == FirstCritical(ws, list[t..], current, seen)
    {
      var w := ws[list[t]];
      assert list[t..][1..] == list[t + 1..];
      if w.totalFloat == 0 && w.start == current && !visited[w.end] {
        return Some(w.end);
      }
      t := t + 1;
    }
    return None;
  }

  /**
   * Chaining the three passes: each rewrites only its own fields, so what the
   * earlier passes established about their fields survives the later ones.
   */
  lemma PassesCompose(w0: seq<Work>, w1: seq<Work>, w2: seq<Work>, w3: seq<Work>, n: int,
                      adj: seq<seq<int>>, early: seq<int>, late: seq<int>, crit: int)
    requires OnlyEarlyChanged(w0, w1) && OnlyLateChanged(w1, w2) && OnlyFloatsChanged(w2, w3)
    requires IsIndex(w3, adj, n, true)
    requires HasEarlyFields(w1, early) && Topological(w1, n) ==> IsEarlyTimes(w1, n, early)
    requires HasEarlyFields(w1, early)
    requires IsProjectLength(w2, crit) && HasLateFields(w2, late)
    requires Topological(w2, n) ==> IsLateTimes(w2, n, crit, late)
    requires HasFloats(w3, adj)
    ensures SameArcs(w0, w3)
    ensures HasEarlyFields(w3, early) && IsProjectLength(w3, crit) && HasLateFields(w3, late)
    ensures Topological(w3, n) ==> IsSchedule(w3, n, adj, early, late, crit)
    ensures Topological(w3, n) ==>
      forall k :: 0 <= k < |w3| ==>
        && w3[k].earlyFinish <= w3[k].lateFinish
        && 0 <= w3[k].totalFloat
        && 0 <= w3[k].freeFloat <= w3[k].totalFloat
  {
    forall k | 0 <= k < |w3|
      ensures SameArc(w0[k], w3[k]) && SameArc(w1[k], w3[k]) && SameArc(w2[k], w3[k])
      ensures w3[k].earlyStart == w1[k].earlyStart && w3[k].earlyFinish == w1[k].earlyFinish
      ensures w3[k].lateStart == w2[k].lateStart && w3[k].lateFinish == w2[k].lateFinish
    {
      assert w2[k].earlyStart == w1[k].earlyStart && w2[k].earlyFinish == w1[k].earlyFinish;
    }
    if Topological(w3, n) {
      assert Topological(w1, n) && Topological(w2, n) by {
        forall k | 0 <= k < |w1| ensures 1 <= w1[k].start < w1[k].end <= n && 1 <= w2[k].start < w2[k].end <= n {
          assert SameArc(w1[k], w3[k]) && SameArc(w2[k], w3[k]);
        }
      }
      EarlyTransfer(w1, w3, n, early);
      LateTransfer(w2, w3, n, crit, late);
      ScheduleFloats(w3, n, adj, early, late, crit);
    }
  }

  /** The event ids 0..n. */
  ghost function EventSet(n: int): (r: set<int>)
    ensures forall x :: 0 <= x <= n ==> x in r
    decreases n
  {
    if n < 0 then {} else EventSet(n - 1) + {n}
  }

  /** The project-length loop: the running maximum of the early finishes, from 0. */
  method MaxEarlyFinish(ws: seq<Work>) returns (crit: int)
    ensures IsProjectLength(ws, crit)
  {
    crit := 0;
    var k := 0;
    while k < |ws|
      invariant 0 <= k <= |ws| && 0 <= crit
      invariant forall m :: 0 <= m < k ==> ws[m].earlyFinish <= crit
      invariant crit == 0 || exists m :: 0 <= m < k && ws[m].earlyFinish == crit
    {
      if ws[k].earlyFinish > crit {
        crit := ws[k].earlyFinish;
      }
      k := k + 1;
    }
  }

  /** Every work entering an event above i has been relaxed backwards. */
  ghost predicate BackwardRelaxed(ws: seq<Work>, late: seq<int>, i: int)
    requires forall k :: 0 <= k < |ws| ==> 0 <= ws[k].start < |late| && 0 <= ws[k].end < |late|
  {
    forall k :: 0 <= k < |ws| && ws[k].end > i ==> late[ws[k].start] <= late[ws[k].end] - ws[k].duration
  }

  /** The late time of v is crit or attained by a work leaving v for an event at least i. */
  ghost predicate LateWitnessed(ws: seq<Work>, late: seq<int>, crit: int, i: int, v: int)
    requires forall k :: 0 <= k < |ws| ==> 0 <= ws[k].end < |late|
    requires 0 <= v < |late|
  {
    late[v] == crit ||
    exists k :: 0 <= k < |ws| && ws[k].start == v && ws[k].end >= i && late[v] == late[ws[k].end] - ws[k].duration
  }

  /** Every late time is witnessed by a work into an event at least i. */
  ghost predicate BackwardWitnessed(ws: seq<Work>, late: seq<int>, crit: int, i: int)
    requires forall k :: 0 <= k < |ws| ==> 0 <= ws[k].end < |late|
  {
    forall v :: 0 <= v < |late| ==> LateWitnessed(ws, late, crit, i, v)
  }

  /** A witness into an event at least i is one into an event at least j <= i. */
  lemma LateWitnessedWeaken(ws: seq<Work>, late: seq<int>, crit: int, i: int, j: int)
    requires forall k :: 0 <= k < |ws| ==> 0 <= ws[k].end < |late|
    requires j <= i && BackwardWitnessed(ws, late, crit, i)
    ensures BackwardWitnessed(ws, late, crit, j)
  {
    forall v | 0 <= v < |late| ensures LateWitnessed(ws, late, crit, j, v) {
      assert LateWitnessed(ws, late, crit, i, v);
    }
  }

  /** The event-time loop of the backward pass, from the vector filled with crit. */
  method BackwardPass(ws: seq<Work>, pred: seq<seq<int>>, n: int, crit: int) returns (late: seq<int>)
    requires -1 <= n && IsIndex(ws, pred, n, false) && InRange(ws, n)
    ensures |late| == n + 1 && forall v :: 0 <= v <= n ==> late[v] <= crit
    ensures Topological(ws, n) ==> IsLateTimes(ws, n, crit, late)
  {
    late := seq(n + 1, _ => crit);
    var i := n;
    while i >= 1
      invariant i <= n && (0 <= i || i == n)
      invariant |late| == n + 1
      invariant forall v :: 0 <= v <= n ==> late[v] <= crit
      invariant Topological(ws, n) ==> BackwardRelaxed(ws, late, i) && BackwardWitnessed(ws, late, crit, i + 1)
    {
      late := RelaxEntering(ws, pred, n, i, crit, late);
      i := i - 1;
    }
    if Topological(ws, n) {
      forall v | 0 <= v <= n
        ensures late[v] == crit ||
                exists k :: 0 <= k < |ws| && ws[k].start == v && late[v] == late[ws[k].end] - ws[k].duration
      {
        assert LateWitnessed(ws, late, crit, i + 1, v);
      }
    }
  }

  /** One round of the backward pass: relaxes the works pred[i] entering event i. */
  method RelaxEntering(ws: seq<Work>, pred: seq<seq<int>>, n: int, i: int, crit: int, late0: seq<int>)
    returns (late: seq<int>)
    requires IsIndex(ws, pred, n, false) && InRange(ws, n) && 1 <= i <= n
    requires |late0| == n + 1 && forall v :: 0 <= v <= n ==> late0[v] <= crit
    ensures |late| == n + 1 && forall v :: 0 <= v <= n ==> late[v] <= crit
    ensures Topological(ws, n) && BackwardRelaxed(ws, late0, i) && BackwardWitnessed(ws, late0, crit, i + 1) ==>
      BackwardRelaxed(ws, late, i - 1) && BackwardWitnessed(ws, late, crit, i)
  {
    ghost var topo := Topological(ws, n) && BackwardRelaxed(ws, late0, i) && BackwardWitnessed(ws, late0, crit, i + 1);
    late := late0;
    if topo {
      LateWitnessedWeaken(ws, late, crit, i + 1, i);
    }
    var list := pred[i];
    var t := 0;
    while t < |list|
      invariant 0 <= t <= |list|
      invariant |late| == n + 1
      invariant forall v :: 0 <= v <= n ==> late[v] <= crit
      invariant topo ==> BackwardRelaxed(ws, late, i) && BackwardWitnessed(ws, late, crit, i)
      invariant topo ==> forall s :: 0 <= s < t ==>
        late[ws[list[s]].start] <= late[ws[list[s]].end] - ws[list[s]].duration
    {
      var idx := list[t];
      var w := ws[idx];
      var newTime := late[w.end] - w.duration;
      ghost var before := late;
      if newTime < late[w.start] {
        late := late[w.start := newTime];
      }
      assert forall v :: 0 <= v <= n && v != w.start ==> late[v] == before[v];
      if topo {
        RelaxBackStep(ws, n, i, idx, crit, before, late);
      }
      t := t + 1;
    }
    if topo {
      forall k | 0 <= k < |ws| && ws[k].end > i - 1
        ensures late[ws[k].start] <= late[ws[k].end] - ws[k].duration
      {
        if ws[k].end == i {
          assert Key(ws[k], false) == i;
          var s :| 0 <= s < |list| && list[s] == k;
        }
      }
    }
  }

  /**
   * Relaxing one work idx entering event i backwards keeps both backward
   * invariants, relaxes idx, leaves every time from event i on alone and raises no time.
   */
  lemma RelaxBackStep(ws: seq<Work>, n: int, i: int, idx: int, crit: int, late: seq<int>, late': seq<int>)
    requires Topological(ws, n) && 0 <= idx < |ws| && ws[idx].end == i
    requires |late| == |late'| == n + 1
    requires late'[ws[idx].start] == (if late[i] - ws[idx].duration < late[ws[idx].start]
                                      then late[i] - ws[idx].duration else late[ws[idx].start])
    requires forall v :: 0 <= v <= n && v != ws[idx].start ==> late'[v] == late[v]
    requires BackwardRelaxed(ws, late, i) && BackwardWitnessed(ws, late, crit, i)
    ensures BackwardRelaxed(ws, late', i) && BackwardWitnessed(ws, late', crit, i)
    ensures late'[ws[idx].start] <= late'[i] - ws[idx].duration
    ensures forall v :: i <= v <= n ==> late'[v] == late[v]
    ensures forall v :: 0 <= v <= n ==> late'[v] <= late[v]
  {
    var b := ws[idx].start;
    assert b < i;
    forall k | 0 <= k < |ws| && ws[k].end > i
      ensures late'[ws[k].start] <= late'[ws[k].end] - ws[k].duration
    {
      assert late'[ws[k].end] == late[ws[k].end];
    }
    forall v | 0 <= v < |late'|
      ensures LateWitnessed(ws, late', crit, i, v)
    {
      if v == b && late'[v] != late[v] {
        assert ws[idx].start == v && late'[v] == late'[ws[idx].end] - ws[idx].duration;
      } else if late[v] != crit {
        assert LateWitnessed(ws, late, crit, i, v);
        var k :| 0 <= k < |ws| && ws[k].start == v && ws[k].end >= i && late[v] == late[ws[k].end] - ws[k].duration;
        assert late'[ws[k].end] == late[ws[k].end];
      }
    }
  }

  /** The late-field loop: late finish from the end event's time, late start one duration earlier. */
  method SetLateFields(ws: seq<Work>, late: seq<int>) returns (ws': seq<Work>)
    requires forall k :: 0 <= k < |ws| ==> 0 <= ws[k].end < |late|
    ensures OnlyLateChanged(ws, ws') && SameArcs(ws, ws')
    ensures HasLateFields(ws', late)
  {
    ws' := ws;
    var k := 0;
    while k < |ws'|
      invariant 0 <= k <= |ws'| == |ws|
      invariant forall m :: 0 <= m < |ws| ==>
        ws'[m] == ws[m].(lateStart := ws'[m].lateStart, lateFinish := ws'[m].lateFinish)
      invariant forall m :: 0 <= m < k ==>
        ws'[m].lateFinish == late[ws'[m].end] && ws'[m].lateStart == ws'[m].lateFinish - ws'[m].duration
    {
      var w := ws'[k];
      ws' := ws'[k := w.(lateFinish := late[w.end], lateStart := late[w.end] - w.duration)];
      k := k + 1;
    }
    forall m | 0 <= m < |ws| ensures SameArc(ws[m], ws'[m]) {
    }
  }

  /** The least early start among the works listed in succ, or None for an empty list. */
  method MinEarlyStart(ws: seq<Work>, succ: seq<int>) returns (m: Option<int>)
    requires forall t :: 0 <= t < |succ| ==> 0 <= succ[t] < |ws|
    ensures m.None? <==> succ == []
    ensures m.Some? ==> IsMinEarlyStart(ws, succ, m.value)
  {
    m := None;
    var t := 0;
    while t < |succ|
      invariant 0 <= t <= |succ|
      invariant m.None? <==> t == 0
      invariant m.Some? ==> IsMinEarlyStart(ws, succ[..t], m.value)
    {
      var es := ws[succ[t]].earlyStart;
      if m.None? || es < m.value {
        m := Some(es);
      }
      assert succ[..t + 1] == succ[..t] + [succ[t]];
      t := t + 1;
    }
    assert succ[..t] == succ;
  }

  /** The float loop over the works, in order; it reads early starts, which it never writes. */
  method FloatPass(ws: seq<Work>, adj: seq<seq<int>>, n: int) returns (ws': seq<Work>)
    requires IsIndex(ws, adj, n, true) && InRange(ws, n)
    ensures OnlyFloatsChanged(ws, ws') && SameArcs(ws, ws')
    ensures HasFloats(ws', adj)
  {
    ws' := ws;
    var k := 0;
    while k < |ws'|
      invariant 0 <= k <= |ws'| == |ws|
      invariant forall m :: 0 <= m < |ws| ==>
        ws'[m] == ws[m].(totalFloat := ws'[m].totalFloat, freeFloat := ws'[m].freeFloat)
      invariant forall m :: 0 <= m < k ==> FloatsAgainst(ws, adj, ws'[m])
    {
      var w := ws'[k];
      var total := w.lateStart - w.earlyStart;
      var next := MinEarlyStart(ws', adj[w.end]);
      var free := if next.Some? then next.value - w.earlyFinish else 0;
      if next.Some? {
        MinEarlyStartSame(ws', ws, adj[w.end], next.value);
      }
      ws' := ws'[k := w.(totalFloat := total, freeFloat := free)];
      k := k + 1;
    }
    forall m | 0 <= m < |ws| ensures SameArc(ws[m], ws'[m]) {
    }
    forall m | 0 <= m < |ws'| ensures HasFloat(ws', adj, m) {
      assert FloatsAgainst(ws, adj, ws'[m]);
      if adj[ws'[m].end] != [] {
        MinEarlyStartSame(ws, ws', adj[ws'[m].end], ws'[m].freeFloat + ws'[m].earlyFinish);
      }
    }
  }

  /** w's floats as HasFloat states them, read against the early starts of ws. */
  ghost predicate FloatsAgainst(ws: seq<Work>, adj: seq<seq<int>>, w: Work) {
    && w.totalFloat == w.lateStart - w.earlyStart
    && 0 <= w.end < |adj|
    && (adj[w.end] == [] ==> w.freeFloat == 0)
    && (adj[w.end] != [] ==> IsMinEarlyStart(ws, adj[w.end], w.freeFloat + w.earlyFinish))
  }

  /** The least early start depends on the early starts only. */
  lemma MinEarlyStartSame(a: seq<Work>, b: seq<Work>, succ: seq<int>, m: int)
    requires |a| == |b| && forall j :: 0 <= j < |a| ==> a[j].earlyStart == b[j].earlyStart
    requires IsMinEarlyStart(a, succ, m)
    ensures IsMinEarlyStart(b, succ, m)
  {
    var t :| 0 <= t < |succ| && 0 <= succ[t] < |a| && m == a[succ[t]].earlyStart;
    assert m == b[succ[t]].earlyStart;
  }
}
