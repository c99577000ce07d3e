/**
 * Critical-path method (CPM) over an activity-on-arc network: the work record and
 * the properties that characterise a computed schedule.
 *
 * Events are dense integer ids 1..n; every per-event vector has n + 1 slots
 * (slot 0 is unused by well-numbered input).  The forward pass yields the early
 * event times, the backward pass the late event times, and the floats are read
 * off from both.  The predicates below state what those vectors ARE, independently
 * of the loops that compute them, and the lemmas prove the classic CPM facts
 * about any vectors that satisfy them.
 */
module CpmSpec {

  /** One activity i -> j of duration d, with its six derived time parameters. */
  datatype Work = Work(
    start: int, end: int, duration: int,
    earlyStart: int, earlyFinish: int,
    lateStart: int, lateFinish: int,
    totalFloat: int, freeFloat: int)

  /** The record `Work(i, j, d)` builds: the arc with every derived field 0. */
  function NewWork(i: int, j: int, d: int): Work {
    Work(i, j, d, 0, 0, 0, 0, 0, 0)
  }

  /** A work is critical when its total float is 0. */
  predicate IsCritical(w: Work) {
    w.totalFloat == 0
  }

  /** Both records describe the same arc; their derived fields may differ. */
  predicate SameArc(a: Work, b: Work) {
    a.start == b.start && a.end == b.end && a.duration == b.duration
  }

  ghost predicate SameArcs(a: seq<Work>, b: seq<Work>) {
    |a| == |b| && forall k :: 0 <= k < |a| ==> SameArc(a[k], b[k])
  }

  /** Every end point is a valid index of a per-event vector of n + 1 slots. */
  ghost predicate InRange(ws: seq<Work>, n: int) {
    forall k :: 0 <= k < |ws| ==> 0 <= ws[k].start <= n && 0 <= ws[k].end <= n
  }

  /** Ascending event id is a topological order: 1 <= start < end <= n for every work. */
  ghost predicate Topological(ws: seq<Work>, n: int) {
    forall k :: 0 <= k < |ws| ==> 1 <= ws[k].start < ws[k].end <= n
  }

  function Key(w: Work, outgoing: bool): int {
    if outgoing then w.start else w.end
  }

  /**
   * lists[e] holds, in ascending order and so once each, exactly the indices of the
   * works whose start (outgoing) or end (incoming) is e: the shape of the successor
   * index adj_list and of the predecessor index pred_list.
   */
  ghost predicate IsIndex(ws: seq<Work>, lists: seq<seq<int>>, n: int, outgoing: bool) {
    && |lists| == n + 1
    && (forall e, t :: 0 <= e <= n && 0 <= t < |lists[e]| ==>
          0 <= lists[e][t] < |ws| && Key(ws[lists[e][t]], outgoing) == e)
    && (forall e, s, t :: 0 <= e <= n && 0 <= s < t < |lists[e]| ==> lists[e][s] < lists[e][t])
    && (forall k :: 0 <= k < |ws| ==>
          0 <= Key(ws[k], outgoing) <= n && k in lists[Key(ws[k], outgoing)])
  }

  /**
   * early is the early-event-time vector: every arc is relaxed, every time is
   * non-negative, and every time is 0 or attained by an arc entering the event,
   * that is early[v] = max(0, max over arcs k into v of early[start k] + duration k).
   */
  ghost predicate IsEarlyTimes(ws: seq<Work>, n: int, early: seq<int>) {
    && |early| == n + 1
    && InRange(ws, n)
    && (forall k :: 0 <= k < |ws| ==> early[ws[k].start] + ws[k].duration <= early[ws[k].end])
    && (forall v :: 0 <= v <= n ==> 0 <= early[v])
    && (forall v :: 0 <= v <= n ==>
          (early[v] == 0 ||
           exists k :: 0 <= k < |ws| && ws[k].end == v && early[v] == early[ws[k].start] + ws[k].duration))
  }

  /** crit is the project length: max(0, max early finish over all works). */
  ghost predicate IsProjectLength(ws: seq<Work>, crit: int) {
    && 0 <= crit
    && (forall k :: 0 <= k < |ws| ==> ws[k].earlyFinish <= crit)
    && (crit == 0 || exists k :: 0 <= k < |ws| && ws[k].earlyFinish == crit)
  }

  /**
   * late is the late-event-time vector for project length crit: every arc is
   * relaxed backwards, no time exceeds crit, and every time is crit or attained
   * by an arc leaving the event, that is
   * late[v] = min(crit, min over arcs k out of v of late[end k] - duration k).
   */
  ghost predicate IsLateTimes(ws: seq<Work>, n: int, crit: int, late: seq<int>) {
    && |late| == n + 1
    && InRange(ws, n)
    && (forall k :: 0 <= k < |ws| ==> late[ws[k].start] <= late[ws[k].end] - ws[k].duration)
    && (forall v :: 0 <= v <= n ==> late[v] <= crit)
    && (forall v :: 0 <= v <= n ==>
          (late[v] == crit ||
           exists k :: 0 <= k < |ws| && ws[k].start == v && late[v] == late[ws[k].end] - ws[k].duration))
  }

  /** The early fields of every work are read off the early event times. */
  ghost predicate HasEarlyFields(ws: seq<Work>, early: seq<int>) {
    forall k :: 0 <= k < |ws| ==>
      (0 <= ws[k].start < |early| && ws[k].earlyStart == early[ws[k].start] &&
       ws[k].earlyFinish == ws[k].earlyStart + ws[k].duration)
  }

  /** The late fields of every work are read off the late event times. */
  ghost predicate HasLateFields(ws: seq<Work>, late: seq<int>) {
    forall k :: 0 <= k < |ws| ==>
      (0 <= ws[k].end < |late| && ws[k].lateFinish == late[ws[k].end] &&
       ws[k].lateStart == ws[k].lateFinish - ws[k].duration)
  }

  /** m is the least early start among the works listed in succ (succ non-empty). */
  ghost predicate IsMinEarlyStart(ws: seq<Work>, succ: seq<int>, m: int) {
    && (forall t :: 0 <= t < |succ| ==> 0 <= succ[t] < |ws| && m <= ws[succ[t]].earlyStart)
    && (exists t :: 0 <= t < |succ| && 0 <= succ[t] < |ws| && m == ws[succ[t]].earlyStart)
  }

  /**
   * The float fields: total float is late start minus early start; free float is the
   * least early start of the works leaving this work's end event minus this work's
   * early finish, or 0 when no work leaves that event.
   */
  ghost predicate HasFloat(ws: seq<Work>, adj: seq<seq<int>>, k: int)
    requires 0 <= k < |ws|
  {
    && ws[k].totalFloat == ws[k].lateStart - ws[k].earlyStart
    && 0 <= ws[k].end < |adj|
    && (adj[ws[k].end] == [] ==> ws[k].freeFloat == 0)
    && (adj[ws[k].end] != [] ==> IsMinEarlyStart(ws, adj[ws[k].end], ws[k].freeFloat + ws[k].earlyFinish))
  }

  ghost predicate HasFloats(ws: seq<Work>, adj: seq<seq<int>>) {
    forall k :: 0 <= k < |ws| ==> HasFloat(ws, adj, k)
  }

  /** Everything the three passes establish, bundled. */
  ghost predicate IsSchedule(ws: seq<Work>, n: int, adj: seq<seq<int>>,
                             early: seq<int>, late: seq<int>, crit: int) {
    && IsIndex(ws, adj, n, true)
    && IsEarlyTimes(ws, n, early) && HasEarlyFields(ws, early)
    && IsProjectLength(ws, crit)
    && IsLateTimes(ws, n, crit, late) && HasLateFields(ws, late)
    && HasFloats(ws, adj)
  }

  /**
   * With ascending ids a topological order, no event's early time exceeds its late
   * time, whatever the sign of the durations.
   */
  lemma EarlyNotAfterLate(ws: seq<Work>, n: int, early: seq<int>, late: seq<int>, crit: int)
    requires Topological(ws, n) && IsEarlyTimes(ws, n, early) && IsLateTimes(ws, n, crit, late)
    requires 0 <= crit
    requires forall k :: 0 <= k < |ws| ==> early[ws[k].start] + ws[k].duration <= crit
    ensures forall v :: 0 <= v <= n ==> early[v] <= late[v]
  {
    if 0 <= n {
      EarlyNotAfterLateFrom(ws, n, early, late, crit, 0);
    }
  }

  lemma {:induction false} EarlyNotAfterLateFrom(ws: seq<Work>, n: int, early: seq<int>, late: seq<int>,
                                                 crit: int, v: int)
    requires Topological(ws, n) && IsEarlyTimes(ws, n, early) && IsLateTimes(ws, n, crit, late)
    requires 0 <= crit
    requires forall k :: 0 <= k < |ws| ==> early[ws[k].start] + ws[k].duration <= crit
    requires 0 <= v <= n
    ensures forall u :: v <= u <= n ==> early[u] <= late[u]
    decreases n - v
  {
    if v < n {
      EarlyNotAfterLateFrom(ws, n, early, late, crit, v + 1);
    }
    if late[v] != crit {
      var k :| 0 <= k < |ws| && ws[k].start == v && late[v] == late[ws[k].end] - ws[k].duration;
      assert early[ws[k].end] <= late[ws[k].end];
    } else if early[v] != 0 {
      var k :| 0 <= k < |ws| && ws[k].end == v && early[v] == early[ws[k].start] + ws[k].duration;
    }
  }

  /**
   * The classic float facts of a schedule over a topologically numbered network:
   * early finish <= late finish, total float >= 0, and 0 <= free float <= total float.
   */
  lemma ScheduleFloats(ws: seq<Work>, n: int, adj: seq<seq<int>>, early: seq<int>, late: seq<int>, crit: int)
    requires Topological(ws, n) && IsSchedule(ws, n, adj, early, late, crit)
    ensures forall k :: 0 <= k < |ws| ==>
      && ws[k].earlyFinish <= ws[k].lateFinish
      && 0 <= ws[k].totalFloat
      && 0 <= ws[k].freeFloat <= ws[k].totalFloat
  {
    EarlyNotAfterLate(ws, n, early, late, crit);
    forall k | 0 <= k < |ws|
      ensures ws[k].earlyFinish <= ws[k].lateFinish
      ensures 0 <= ws[k].totalFloat
      ensures 0 <= ws[k].freeFloat <= ws[k].totalFloat
    {
      var e := ws[k].end;
      assert HasFloat(ws, adj, k);
      assert early[e] <= late[e];
      if adj[e] != [] {
        var t :| 0 <= t < |adj[e]| && 0 <= adj[e][t] < |ws| &&
          ws[k].freeFloat + ws[k].earlyFinish == ws[adj[e][t]].earlyStart;
        assert ws[adj[e][t]].start == e;
      }
    }
  }

  /**
   * On a critical work both end events have no slack and the work is tight:
   * early and late times meet at its start and at its end.
   */
  lemma CriticalWorkIsTight(ws: seq<Work>, n: int, adj: seq<seq<int>>, early: seq<int>, late: seq<int>,
                            crit: int, k: int)
    requires Topological(ws, n) && IsSchedule(ws, n, adj, early, late, crit)
    requires 0 <= k < |ws| && IsCritical(ws[k])
    ensures early[ws[k].start] == late[ws[k].start]
    ensures early[ws[k].end] == late[ws[k].end]
    ensures early[ws[k].end] == early[ws[k].start] + ws[k].duration
  {
    EarlyNotAfterLate(ws, n, early, late, crit);
    assert HasFloat(ws, adj, k);
  }

  /** Two early-time vectors of the same topologically numbered arcs coincide. */
  lemma EarlyTimesUnique(ws: seq<Work>, n: int, e1: seq<int>, e2: seq<int>)
    requires Topological(ws, n) && IsEarlyTimes(ws, n, e1) && IsEarlyTimes(ws, n, e2)
    ensures e1 == e2
  {
    if 0 <= n {
      EarlyTimesAgreeUpTo(ws, n, e1, e2, n);
    }
  }

  lemma {:induction false} EarlyTimesAgreeUpTo(ws: seq<Work>, n: int, e1: seq<int>, e2: seq<int>, v: int)
    requires Topological(ws, n) && IsEarlyTimes(ws, n, e1) && IsEarlyTimes(ws, n, e2)
    requires 0 <= v <= n
    ensures forall u :: 0 <= u <= v ==> e1[u] == e2[u]
    decreases v
  {
    if 0 < v {
      EarlyTimesAgreeUpTo(ws, n, e1, e2, v - 1);
    }
    EarlyDominated(ws, n, e1, e2, v);
    EarlyDominated(ws, n, e2, e1, v);
  }

  lemma EarlyDominated(ws: seq<Work>, n: int, e1: seq<int>, e2: seq<int>, v: int)
    requires Topological(ws, n) && IsEarlyTimes(ws, n, e1) && IsEarlyTimes(ws, n, e2)
    requires 0 <= v <= n
    requires forall u :: 0 <= u < v ==> e1[u] == e2[u]
    ensures e1[v] <= e2[v]
  {
    if e1[v] != 0 {
      var k :| 0 <= k < |ws| && ws[k].end == v && e1[v] == e1[ws[k].start] + ws[k].duration;
      assert e1[ws[k].start] == e2[ws[k].start];
    }
  }

  /** Two late-time vectors of the same topologically numbered arcs and length coincide. */
  lemma LateTimesUnique(ws: seq<Work>, n: int, crit: int, l1: seq<int>, l2: seq<int>)
    requires Topological(ws, n) && IsLateTimes(ws, n, crit, l1) && IsLateTimes(ws, n, crit, l2)
    ensures l1 == l2
  {
    if 0 <= n {
      LateTimesAgreeFrom(ws, n, crit, l1, l2, 0);
    }
  }

  lemma {:induction false} LateTimesAgreeFrom(ws: seq<Work>, n: int, crit: int, l1: seq<int>, l2: seq<int>, v: int)
    requires Topological(ws, n) && IsLateTimes(ws, n, crit, l1) && IsLateTimes(ws, n, crit, l2)
    requires 0 <= v <= n
    ensures forall u :: v <= u <= n ==> l1[u] == l2[u]
    decreases n - v
  {
    if v < n {
      LateTimesAgreeFrom(ws, n, crit, l1, l2, v + 1);
    }
    LateDominated(ws, n, crit, l1, l2, v);
    LateDominated(ws, n, crit, l2, l1, v);
  }

  lemma LateDominated(ws: seq<Work>, n: int, crit: int, l1: seq<int>, l2: seq<int>, v: int)
    requires Topological(ws, n) && IsLateTimes(ws, n, crit, l1) && IsLateTimes(ws, n, crit, l2)
    requires 0 <= v <= n
    requires forall u :: v < u <= n ==> l1[u] == l2[u]
    ensures l2[v] <= l1[v]
  {
    if l1[v] != crit {
      var k :| 0 <= k < |ws| && ws[k].start == v && l1[v] == l1[ws[k].end] - ws[k].duration;
      assert l1[ws[k].end] == l2[ws[k].end];
    }
  }

  /** The project length is determined by the early finishes. */
  lemma ProjectLengthUnique(ws: seq<Work>, c1: int, c2: int)
    requires IsProjectLength(ws, c1) && IsProjectLength(ws, c2)
    ensures c1 == c2
  {
    if c1 != 0 {
      var k :| 0 <= k < |ws| && ws[k].earlyFinish == c1;
    }
    if c2 != 0 {
      var k :| 0 <= k < |ws| && ws[k].earlyFinish == c2;
    }
  }

  /** The early-time characterisation depends on the arcs only. */
  lemma EarlyTransfer(ws1: seq<Work>, ws2: seq<Work>, n: int, early: seq<int>)
    requires SameArcs(ws1, ws2) && IsEarlyTimes(ws1, n, early)
    ensures IsEarlyTimes(ws2, n, early)
  {
    forall k | 0 <= k < |ws2|
      ensures 0 <= ws2[k].start <= n && 0 <= ws2[k].end <= n
      ensures early[ws2[k].start] + ws2[k].duration <= early[ws2[k].end]
    {
      assert SameArc(ws1[k], ws2[k]);
    }
    forall v | 0 <= v <= n && early[v] != 0
      ensures exists k :: 0 <= k < |ws2| && ws2[k].end == v && early[v] == early[ws2[k].start] + ws2[k].duration
    {
      var k :| 0 <= k < |ws1| && ws1[k].end == v && early[v] == early[ws1[k].start] + ws1[k].duration;
      assert SameArc(ws1[k], ws2[k]);
    }
  }

  /** The late-time characterisation depends on the arcs only. */
  lemma LateTransfer(ws1: seq<Work>, ws2: seq<Work>, n: int, crit: int, late: seq<int>)
    requires SameArcs(ws1, ws2) && IsLateTimes(ws1, n, crit, late)
    ensures IsLateTimes(ws2, n, crit, late)
  {
    forall k | 0 <= k < |ws2|
      ensures 0 <= ws2[k].start <= n && 0 <= ws2[k].end <= n
      ensures late[ws2[k].start] <= late[ws2[k].end] - ws2[k].duration
    {
      assert SameArc(ws1[k], ws2[k]);
    }
    forall v | 0 <= v <= n && late[v] != crit
      ensures exists k :: 0 <= k < |ws2| && ws2[k].start == v && late[v] == late[ws2[k].end] - ws2[k].duration
    {
      var k :| 0 <= k < |ws1| && ws1[k].start == v && late[v] == late[ws1[k].end] - ws1[k].duration;
      assert SameArc(ws1[k], ws2[k]);
    }
  }

  /** Works with the same arcs and the same event times carry the same derived fields. */
  lemma FieldsDeterminedByTimes(ws1: seq<Work>, ws2: seq<Work>, adj: seq<seq<int>>,
                                early: seq<int>, late: seq<int>)
    requires SameArcs(ws1, ws2)
    requires HasEarlyFields(ws1, early) && HasEarlyFields(ws2, early)
    requires HasLateFields(ws1, late) && HasLateFields(ws2, late)
    requires HasFloats(ws1, adj) && HasFloats(ws2, adj)
    ensures ws1 == ws2
  {
    assert forall k :: 0 <= k < |ws2| ==> SameArc(ws1[k], ws2[k]);
    forall k | 0 <= k < |ws1| ensures ws1[k] == ws2[k] {
      assert HasFloat(ws1, adj, k) && HasFloat(ws2, adj, k);
      var succ := adj[ws1[k].end];
      if succ != [] {
        var t1 :| 0 <= t1 < |succ| && 0 <= succ[t1] < |ws1| &&
          ws1[k].freeFloat + ws1[k].earlyFinish == ws1[succ[t1]].earlyStart;
        var t2 :| 0 <= t2 < |succ| && 0 <= succ[t2] < |ws2| &&
          ws2[k].freeFloat + ws2[k].earlyFinish == ws2[succ[t2]].earlyStart;
      }
    }
  }

  lemma SameArcsSymmetric(ws1: seq<Work>, ws2: seq<Work>)
    requires SameArcs(ws1, ws2)
    ensures SameArcs(ws2, ws1)
  {
    forall k | 0 <= k < |ws2| ensures SameArc(ws2[k], ws1[k]) {
      assert SameArc(ws1[k], ws2[k]);
    }
  }

  /** The project length depends on the arcs and the early times only. */
  lemma ProjectLengthTransfer(ws1: seq<Work>, ws2: seq<Work>, early: seq<int>, crit: int)
    requires SameArcs(ws1, ws2) && HasEarlyFields(ws1, early) && HasEarlyFields(ws2, early)
    requires IsProjectLength(ws1, crit)
    ensures IsProjectLength(ws2, crit)
  {
    forall k | 0 <= k < |ws2| ensures ws2[k].earlyFinish <= crit {
      assert SameArc(ws1[k], ws2[k]);
    }
    if crit != 0 {
      var k :| 0 <= k < |ws1| && ws1[k].earlyFinish == crit;
      assert SameArc(ws1[k], ws2[k]);
    }
  }

  /**
   * A schedule is a function of the arcs alone: two schedules of the same
   * topologically numbered arcs with the same successor index have the same works,
   * so running the three passes again changes nothing.
   */
  lemma ScheduleDeterminedByArcs(ws1: seq<Work>, ws2: seq<Work>, n: int, adj: seq<seq<int>>,
                                 early1: seq<int>, late1: seq<int>, crit1: int,
                                 early2: seq<int>, late2: seq<int>, crit2: int)
    requires SameArcs(ws1, ws2) && Topological(ws1, n)
    requires IsSchedule(ws1, n, adj, early1, late1, crit1)
    requires IsSchedule(ws2, n, adj, early2, late2, crit2)
    ensures ws1 == ws2
  {
    SameArcsSymmetric(ws1, ws2);
    EarlyTransfer(ws2, ws1, n, early2);
    EarlyTimesUnique(ws1, n, early1, early2);
    ProjectLengthTransfer(ws1, ws2, early1, crit1);
    ProjectLengthUnique(ws2, crit1, crit2);
    LateTransfer(ws2, ws1, n, crit1, late2);
    LateTimesUnique(ws1, n, crit1, late1, late2);
    FieldsDeterminedByTimes(ws1, ws2, adj, early1, late1);
  }

  /** Appending a work and listing its index under its key keeps an index an index. */
  lemma IndexAppend(ws: seq<Work>, lists: seq<seq<int>>, n: int, outgoing: bool, w: Work)
    requires IsIndex(ws, lists, n, outgoing)
    requires 0 <= Key(w, outgoing) <= n
    ensures IsIndex(ws + [w], lists[Key(w, outgoing) := lists[Key(w, outgoing)] + [|ws|]], n, outgoing)
  {
    var e := Key(w, outgoing);
    var ws' := ws + [w];
    var lists' := lists[e := lists[e] + [|ws|]];
    forall k | 0 <= k < |ws'|
      ensures 0 <= Key(ws'[k], outgoing) <= n && k in lists'[Key(ws'[k], outgoing)]
    {
      if k < |ws| {
        assert ws'[k] == ws[k];
        var t :| 0 <= t < |lists[Key(ws[k], outgoing)]| && lists[Key(ws[k], outgoing)][t] == k;
        assert lists'[Key(ws[k], outgoing)][t] == k;
      } else {
        assert lists'[e][|lists[e]|] == k;
      }
    }
  }

  /** An index depends on the arcs only, not on the derived fields. */
  lemma IndexTransfer(ws1: seq<Work>, ws2: seq<Work>, lists: seq<seq<int>>, n: int, outgoing: bool)
    requires SameArcs(ws1, ws2) && IsIndex(ws1, lists, n, outgoing)
    ensures IsIndex(ws2, lists, n, outgoing)
  {
    forall k | 0 <= k < |ws2|
      ensures 0 <= Key(ws2[k], outgoing) <= n && k in lists[Key(ws2[k], outgoing)]
    {
      assert SameArc(ws1[k], ws2[k]);
    }
    forall e, t | 0 <= e <= n && 0 <= t < |lists[e]|
      ensures 0 <= lists[e][t] < |ws2| && Key(ws2[lists[e][t]], outgoing) == e
    {
      assert SameArc(ws1[lists[e][t]], ws2[lists[e][t]]);
    }
  }

  /**
   * The index is determined by the works: each list holds exactly the works keyed
   * to its event, in ascending order, and only one list does that.
   */
  lemma IndexUnique(ws: seq<Work>, l1: seq<seq<int>>, l2: seq<seq<int>>, n: int, outgoing: bool)
    requires IsIndex(ws, l1, n, outgoing) && IsIndex(ws, l2, n, outgoing)
    ensures l1 == l2
  {
    forall e | 0 <= e <= n ensures l1[e] == l2[e] {
      forall x ensures x in l1[e] <==> x in l2[e] {
        if x in l1[e] {
          var t :| 0 <= t < |l1[e]| && l1[e][t] == x;
        }
        if x in l2[e] {
          var t :| 0 <= t < |l2[e]| && l2[e][t] == x;
        }
      }
      assert Ascending(l1[e]) && Ascending(l2[e]);
      AscendingUnique(l1[e], l2[e]);
    }
  }

  /** Two strictly ascending lists with the same elements are the same list. */
  lemma {:induction false} AscendingUnique(a: seq<int>, b: seq<int>)
    requires Ascending(a) && Ascending(b)
    requires forall x :: x in a <==> x in b
    ensures a == b
    decreases |a|
  {
    assert a != [] ==> a[0] in a;
    assert b != [] ==> b[0] in b;
    if a != [] && b != [] {
      AscendingHead(a, b[0]);
      AscendingHead(b, a[0]);
      forall x ensures x in a[1..] <==> x in b[1..] {
        AscendingTail(a, x);
        AscendingTail(b, x);
      }
      AscendingUnique(a[1..], b[1..]);
      assert a == [a[0]] + a[1..] && b == [b[0]] + b[1..];
    }
  }

  ghost predicate Ascending(a: seq<int>) {
    forall s, t :: 0 <= s < t < |a| ==> a[s] < a[t]
  }

  lemma AscendingHead(a: seq<int>, x: int)
    requires Ascending(a) && x in a
    ensures a[0] <= x
  {
    var i :| 0 <= i < |a| && a[i] == x;
    assert i == 0 || a[0] < a[i];
  }

  lemma AscendingTail(a: seq<int>, x: int)
    requires Ascending(a) && a != []
    ensures Ascending(a[1..])
    ensures x in a[1..] <==> x in a && x != a[0]
  {
    if x in a && x != a[0] {
      var i :| 0 <= i < |a| && a[i] == x;
      assert a[1..][i - 1] == x;
    }
    if x in a[1..] {
      var i :| 0 <= i < |a[1..]| && a[1..][i] == x;
      assert a[0] < a[i + 1];
    }
  }

  /** A successor index and a predecessor index together keep every end point in range. */
  lemma IndexedInRange(ws: seq<Work>, adj: seq<seq<int>>, pred: seq<seq<int>>, n: int)
    requires IsIndex(ws, adj, n, true) && IsIndex(ws, pred, n, false)
    ensures InRange(ws, n)
  {
    forall k | 0 <= k < |ws| ensures 0 <= ws[k].start <= n && 0 <= ws[k].end <= n {
      assert Key(ws[k], true) == ws[k].start && Key(ws[k], false) == ws[k].end;
    }
  }

  datatype Option<T> = None | Some(value: T)

  lemma IndexBounded(ws: seq<Work>, adj: seq<seq<int>>, n: int)
    requires IsIndex(ws, adj, n, true)
    ensures ListsBounded(ws, adj, n)
  {
  }

  /** One list per event 0..n, each holding valid work indices: what the walk needs of adj. */
  ghost predicate ListsBounded(ws: seq<Work>, adj: seq<seq<int>>, n: int) {
    |adj| == n + 1 && forall e, t :: 0 <= e <= n && 0 <= t < |adj[e]| ==> 0 <= adj[e][t] < |ws|
  }

  /** The distinct events of a sequence of events. */
  function Elems(s: seq<int>): set<int> {
    set x | x in s
  }

  /** w is a critical work leaving current whose end has not been visited yet. */
  predicate CriticalStep(w: Work, current: int, visited: set<int>) {
    IsCritical(w) && w.start == current && w.end !in visited
  }

  /**
   * The end event of the first work listed in list that is a critical step from
   * current, or None when there is none: one scan of the critical-path walk.
   */
  function FirstCritical(ws: seq<Work>, list: seq<int>, current: int, visited: set<int>): (r: Option<int>)
    requires forall t :: 0 <= t < |list| ==> 0 <= list[t] < |ws|
    ensures r.None? <==> forall t :: 0 <= t < |list| ==> !CriticalStep(ws[list[t]], current, visited)
    ensures r.Some? ==>
      exists t :: (0 <= t < |list| && CriticalStep(ws[list[t]], current, visited) && ws[list[t]].end == r.value &&
                   forall s :: 0 <= s < t ==> !CriticalStep(ws[list[s]], current, visited))
    decreases |list|
  {
    if list == [] then None
    else if CriticalStep(ws[list[0]], current, visited) then Some(ws[list[0]].end)
    else
      var r := FirstCritical(ws, list[1..], current, visited);
      assert forall t :: 1 <= t < |list| ==> list[t] == list[1..][t - 1];
      r
  }

  /**
   * path is a prefix of the critical-path walk: it starts at event 1 and every next
   * event is the first critical step from the previous one, where the visited events
   * are those reached so far (the start event itself is never marked visited).
   */
  ghost predicate IsWalkPrefix(ws: seq<Work>, adj: seq<seq<int>>, n: int, path: seq<int>) {
    && ListsBounded(ws, adj, n)
    && 1 <= |path| && path[0] == 1
    && (forall s :: 0 <= s < |path| ==> 0 <= path[s] <= n)
    && (forall s :: 0 <= s < |path| - 1 ==>
          path[s] != n &&
          FirstCritical(ws, adj[path[s]], path[s], Elems(path[1..s + 1])) == Some(path[s + 1]))
  }

  /** The whole walk: a prefix that stops at event n or where no step is left. */
  ghost predicate IsCriticalWalk(ws: seq<Work>, adj: seq<seq<int>>, n: int, path: seq<int>) {
    && IsWalkPrefix(ws, adj, n, path)
    && (path[|path| - 1] == n ||
        FirstCritical(ws, adj[path[|path| - 1]], path[|path| - 1], Elems(path[1..])) == None)
  }

  /**
   * Taking the step the scan finds extends a walk prefix, reaching an event not
   * visited before.
   */
  lemma WalkExtend(ws: seq<Work>, adj: seq<seq<int>>, n: int, path: seq<int>, next: int)
    requires IsWalkPrefix(ws, adj, n, path) && path[|path| - 1] != n && InRange(ws, n)
    requires FirstCritical(ws, adj[path[|path| - 1]], path[|path| - 1], Elems(path[1..])) == Some(next)
    ensures IsWalkPrefix(ws, adj, n, path + [next])
    ensures 0 <= next <= n
    ensures next !in Elems(path[1..]) && Elems((path + [next])[1..]) == Elems(path[1..]) + {next}
  {
    var p := path + [next];
    var list := adj[path[|path| - 1]];
    assert p[1..] == path[1..] + [next];
    forall s | 0 <= s < |p| - 1
      ensures p[s] != n && FirstCritical(ws, adj[p[s]], p[s], Elems(p[1..s + 1])) == Some(p[s + 1])
    {
      assert p[1..s + 1] == path[1..s + 1];
    }
  }

  /** The walk is deterministic: the works and lists fix the path. */
  lemma CriticalWalkUnique(ws: seq<Work>, adj: seq<seq<int>>, n: int, p1: seq<int>, p2: seq<int>)
    requires IsCriticalWalk(ws, adj, n, p1) && IsCriticalWalk(ws, adj, n, p2)
    ensures p1 == p2
  {
    if |p1| <= |p2| {
      WalkPrefixesAgree(ws, adj, n, p1, p2, |p1| - 1);
      WalkStopsTogether(ws, adj, n, p1, p2);
    } else {
      WalkPrefixesAgree(ws, adj, n, p2, p1, |p2| - 1);
      WalkStopsTogether(ws, adj, n, p2, p1);
    }
  }

  /** Two walk prefixes agree on their common part. */
  lemma {:induction false} WalkPrefixesAgree(ws: seq<Work>, adj: seq<seq<int>>, n: int, p1: seq<int>, p2: seq<int>, s: int)
    requires IsWalkPrefix(ws, adj, n, p1) && IsWalkPrefix(ws, adj, n, p2)
    requires 0 <= s < |p1| && s < |p2|
    ensures forall j :: 0 <= j <= s ==> p1[j] == p2[j]
    decreases s
  {
    if s > 0 {
      WalkPrefixesAgree(ws, adj, n, p1, p2, s - 1);
      var a := p1[s - 1];
      assert p1[1..s] == p2[1..s];
      var v := Elems(p1[1..s]);
      assert FirstCritical(ws, adj[a], a, v) == Some(p1[s]);
      assert FirstCritical(ws, adj[a], a, v) == Some(p2[s]);
    }
  }

  /** A whole walk p1 that agrees with the walk p2 on p1's length is all of p2. */
  lemma WalkStopsTogether(ws: seq<Work>, adj: seq<seq<int>>, n: int, p1: seq<int>, p2: seq<int>)
    requires IsCriticalWalk(ws, adj, n, p1) && IsCriticalWalk(ws, adj, n, p2)
    requires |p1| <= |p2| && forall j :: 0 <= j < |p1| ==> p1[j] == p2[j]
    ensures p1 == p2
  {
    var s := |p1| - 1;
    assert p1[1..] == p2[1..s + 1];
    WalkStepAt(ws, adj, n, p2, s);
  }

  lemma WalkStepAt(ws: seq<Work>, adj: seq<seq<int>>, n: int, p: seq<int>, s: int)
    requires IsWalkPrefix(ws, adj, n, p) && 0 <= s < |p|
    ensures s + 1 < |p| ==>
      p[s] != n && FirstCritical(ws, adj[p[s]], p[s], Elems(p[1..s + 1])) == Some(p[s + 1])
  {
  }

  /**
   * On a schedule over a topologically numbered network the walk climbs strictly in
   * event id, and every event it passes through has no slack: early time = late time.
   */
  lemma CriticalWalkIsTight(ws: seq<Work>, n: int, adj: seq<seq<int>>, early: seq<int>, late: seq<int>,
                            crit: int, path: seq<int>)
    requires Topological(ws, n) && IsSchedule(ws, n, adj, early, late, crit)
    requires IsCriticalWalk(ws, adj, n, path)
    ensures forall s :: 0 <= s < |path| - 1 ==> path[s] < path[s + 1]
    ensures |path| > 1 ==> forall s :: 0 <= s < |path| ==> early[path[s]] == late[path[s]]
  {
    forall s | 0 <= s < |path| - 1 ensures path[s] < path[s + 1] {
      CriticalWalkStep(ws, n, adj, early, late, crit, path, s);
    }
    forall s | 0 <= s < |path| && 1 < |path| ensures early[path[s]] == late[path[s]] {
      CriticalWalkStep(ws, n, adj, early, late, crit, path, if s == 0 then 0 else s - 1);
    }
  }

  /** One step of a critical walk follows a critical work, so both its events are tight. */
  /** With topologically numbered events the walk climbs strictly in event id, whatever
      the event times; so it ends after at most n events. */
  lemma CriticalWalkClimbs(ws: seq<Work>, n: int, adj: seq<seq<int>>, path: seq<int>)
    requires Topological(ws, n) && IsCriticalWalk(ws, adj, n, path)
    ensures forall s :: 0 <= s < |path| - 1 ==> path[s] < path[s + 1]
  {
    forall s | 0 <= s < |path| - 1 ensures path[s] < path[s + 1] {
      var list := adj[path[s]];
      var visited := Elems(path[1..s + 1]);
      assert FirstCritical(ws, list, path[s], visited) == Some(path[s + 1]);
      var t :| 0 <= t < |list| && CriticalStep(ws[list[t]], path[s], visited) && ws[list[t]].end == path[s + 1];
    }
  }

  lemma CriticalWalkStep(ws: seq<Work>, n: int, adj: seq<seq<int>>, early: seq<int>, late: seq<int>,
                         crit: int, path: seq<int>, s: int)
    requires Topological(ws, n) && IsSchedule(ws, n, adj, early, late, crit)
    requires IsCriticalWalk(ws, adj, n, path)
    requires 0 <= s < |path| - 1
    ensures path[s] < path[s + 1]
    ensures early[path[s]] == late[path[s]] && early[path[s + 1]] == late[path[s + 1]]
  {
    var list := adj[path[s]];
    var visited := Elems(path[1..s + 1]);
    assert FirstCritical(ws, list, path[s], visited) == Some(path[s + 1]);
    var t :| 0 <= t < |list| && CriticalStep(ws[list[t]], path[s], visited) && ws[list[t]].end == path[s + 1];
    CriticalWorkIsTight(ws, n, adj, early, late, crit, list[t]);
  }
}
