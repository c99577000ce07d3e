/**
 * The input side of the CPM loaders: lines of a "vertex predecessor weight" file
 * as the line reader classifies them, the triples the reading loop keeps, the
 * event count it derives, the works the triples turn into, and the decimal
 * event names of the named loader.
 */
module CpmInput {
  import opened CpmSpec

  /**
   * One input line after reading: empty, a '#' comment, a line whose first three
   * tokens are not three integers, or one that yields the three integers.
   */
  datatype Line = Blank | Comment | Unparsable | Fields(vertex: int, predecessor: int, weight: int)

  /** A kept triple, stored as the loaders store it: (predecessor, vertex, weight). */
  datatype Triple = Triple(predecessor: int, vertex: int, weight: int)

  /** What one line contributes to the list of triples. */
  function Kept(l: Line): seq<Triple> {
    if l.Fields? then [Triple(l.predecessor, l.vertex, l.weight)] else []
  }

  /** The triples the reading loop keeps, in input order. */
  function Triples(lines: seq<Line>): seq<Triple>
    decreases |lines|
  {
    if lines == [] then [] else Kept(lines[0]) + Triples(lines[1..])
  }

  /** Keeping triples distributes over concatenation of inputs: the filter keeps input order. */
  lemma {:induction false} TriplesAppend(a: seq<Line>, b: seq<Line>)
    ensures Triples(a + b) == Triples(a) + Triples(b)
    decreases |a|
  {
    if a == [] {
      assert a + b == b;
    } else {
      assert (a + b)[1..] == a[1..] + b;
      TriplesAppend(a[1..], b);
    }
  }

  /** A triple is kept exactly when some line yields its three integers. */
  lemma {:induction false} TriplesFromFields(lines: seq<Line>, t: Triple)
    ensures t in Triples(lines) <==> Fields(t.vertex, t.predecessor, t.weight) in lines
    decreases |lines|
  {
    if lines != [] {
      TriplesFromFields(lines[1..], t);
      assert lines == [lines[0]] + lines[1..];
    }
  }

  /** When every line yields three integers, every line is kept, in order. */
  lemma {:induction false} TriplesOfFields(lines: seq<Line>)
    requires forall i :: 0 <= i < |lines| ==> lines[i].Fields?
    ensures |Triples(lines)| == |lines|
    ensures forall i :: 0 <= i < |lines| ==>
      Triples(lines)[i] == Triple(lines[i].predecessor, lines[i].vertex, lines[i].weight)
    decreases |lines|
  {
    if lines != [] {
      TriplesOfFields(lines[1..]);
      assert forall i :: 1 <= i < |lines| ==> lines[1..][i - 1] == lines[i];
    }
  }

  /** The event a triple's work starts at: its predecessor, or event 1 when that is <= 0. */
  function StartOf(t: Triple): int {
    if t.predecessor > 0 then t.predecessor else 1
  }

  /**
   * The event count the reading loop accumulates: the largest vertex and largest
   * positive predecessor seen, starting from 0.
   */
  function MaxEvent(ts: seq<Triple>): (m: int)
    decreases |ts|
  {
    if ts == [] then 0
    else
      var t := ts[|ts| - 1];
      var m0 := MaxEvent(ts[..|ts| - 1]);
      var m1 := if t.vertex > m0 then t.vertex else m0;
      if t.predecessor > 0 && t.predecessor > m1 then t.predecessor else m1
  }

  /**
   * The event count is the maximum of 0, every vertex and every positive
   * predecessor: no less than each of them, and equal to one of them unless 0.
   */
  lemma {:induction false} MaxEventIsMax(ts: seq<Triple>)
    ensures 0 <= MaxEvent(ts)
    ensures forall i :: 0 <= i < |ts| ==>
      ts[i].vertex <= MaxEvent(ts) && (ts[i].predecessor > 0 ==> ts[i].predecessor <= MaxEvent(ts))
    ensures MaxEvent(ts) == 0 ||
      exists i :: (0 <= i < |ts| &&
                   (MaxEvent(ts) == ts[i].vertex || (ts[i].predecessor > 0 && MaxEvent(ts) == ts[i].predecessor)))
    decreases |ts|
  {
    if ts != [] {
      var init := ts[..|ts| - 1];
      MaxEventIsMax(init);
      assert forall i :: 0 <= i < |init| ==> ts[i] == init[i];
      var m0 := MaxEvent(init);
      if m0 != 0 && MaxEvent(ts) == m0 {
        var i :| 0 <= i < |init| && (m0 == init[i].vertex || (init[i].predecessor > 0 && m0 == init[i].predecessor));
        assert ts[i] == init[i];
      }
    }
  }

  /**
   * What the loaders demand of the triples so that no index falls outside the
   * resized lists: no negative vertex, and at least one event id >= 1 (so that the
   * rewritten start event 1 exists).
   */
  ghost predicate Loadable(ts: seq<Triple>) {
    NonNegativeVertices(ts) && (ts == [] || 1 <= MaxEvent(ts))
  }

  predicate NonNegativeVertices(ts: seq<Triple>) {
    forall i :: 0 <= i < |ts| ==> 0 <= ts[i].vertex
  }

  /** The works the loaders add, in input order: predecessor <= 0 is rewritten to event 1. */
  function LoadedWorks(ts: seq<Triple>): (ws: seq<Work>)
    ensures |ws| == |ts|
    ensures forall k :: 0 <= k < |ts| ==>
      ws[k] == NewWork(if ts[k].predecessor > 0 then ts[k].predecessor else 1, ts[k].vertex, ts[k].weight)
  {
    seq(|ts|, k requires 0 <= k < |ts| => NewWork(StartOf(ts[k]), ts[k].vertex, ts[k].weight))
  }

  /** Loaded works stay inside the event range the loader allocates. */
  lemma LoadedWorksInRange(ts: seq<Triple>)
    requires Loadable(ts)
    ensures InRange(LoadedWorks(ts), MaxEvent(ts))
    ensures forall k :: 0 <= k < |ts| ==> 1 <= LoadedWorks(ts)[k].start
  {
    MaxEventIsMax(ts);
  }

  /** Loading one more triple appends its work. */
  lemma LoadedWorksSnoc(ts: seq<Triple>, k: int)
    requires 0 <= k < |ts|
    ensures LoadedWorks(ts[..k + 1]) == LoadedWorks(ts[..k]) + [NewWork(StartOf(ts[k]), ts[k].vertex, ts[k].weight)]
  {
  }

  /** The decimal digit d, as a character. */
  function DigitChar(d: int): (c: char)
    requires 0 <= d < 10
    ensures '0' <= c <= '9'
  {
    ('0' as int + d) as char
  }

  predicate IsDigits(s: string) {
    forall i :: 0 <= i < |s| ==> '0' <= s[i] <= '9'
  }

  /** The decimal spelling of a non-negative id, as to_string writes it. */
  function Decimal(n: nat): (s: string)
    ensures 1 <= |s| && IsDigits(s)
    ensures s[0] == '0' ==> n == 0
  {
    if n < 10 then [DigitChar(n)] else Decimal(n / 10) + [DigitChar(n % 10)]
  }

  /** The value of a string of decimal digits. */
  function DigitsValue(s: string): nat
    requires IsDigits(s)
  {
    if s == [] then 0 else DigitsValue(s[..|s| - 1]) * 10 + (s[|s| - 1] as int - '0' as int)
  }

  /** Reading back a decimal name gives the id it was made from. */
  lemma {:induction false} DecimalRoundTrip(n: nat)
    ensures DigitsValue(Decimal(n)) == n
  {
    if n >= 10 {
      DecimalRoundTrip(n / 10);
      var s := Decimal(n);
      assert s[..|s| - 1] == Decimal(n / 10);
    }
  }

  /** Distinct ids get distinct names. */
  lemma DecimalInjective(a: nat, b: nat)
    requires Decimal(a) == Decimal(b)
    ensures a == b
  {
    DecimalRoundTrip(a);
    DecimalRoundTrip(b);
  }

  /** The ids the named loader records: every vertex and every positive predecessor. */
  function NamedIds(ts: seq<Triple>): (ids: set<int>)
    requires NonNegativeVertices(ts)
    ensures forall x :: x in ids ==> 0 <= x
  {
    (set i | 0 <= i < |ts| :: ts[i].vertex) + (set i | 0 <= i < |ts| && ts[i].predecessor > 0 :: ts[i].predecessor)
  }

  /** The names the named loader records: each recorded id spelled in decimal. */
  function NameMap(ts: seq<Triple>): map<int, string>
    requires NonNegativeVertices(ts)
  {
    map x | x in NamedIds(ts) :: Decimal(x)
  }

  /** One more triple records its vertex and, when positive, its predecessor. */
  lemma NamedIdsAppend(ts: seq<Triple>, t: Triple)
    requires NonNegativeVertices(ts + [t])
    ensures NonNegativeVertices(ts)
    ensures NamedIds(ts + [t]) == NamedIds(ts) + {t.vertex} + (if t.predecessor > 0 then {t.predecessor} else {})
  {
    var ts' := ts + [t];
    assert forall i :: 0 <= i < |ts| ==> ts'[i] == ts[i];
    assert ts'[|ts|] == t;
    assert NonNegativeVertices(ts) by {
      forall i | 0 <= i < |ts| ensures 0 <= ts[i].vertex {
        assert ts'[i] == ts[i];
      }
    }
  }

  /** What is left to read after line i starts with what line i yields. */
  lemma ReadStep(lines: seq<Line>, i: int)
    requires 0 <= i < |lines|
    ensures Triples(lines[i..]) == Kept(lines[i]) + Triples(lines[i + 1..])
  {
    assert lines[i..][1..] == lines[i + 1..];
  }

  lemma NonNegativePrefix(a: seq<Triple>, b: seq<Triple>)
    requires NonNegativeVertices(a + b)
    ensures NonNegativeVertices(a)
  {
    forall i | 0 <= i < |a| ensures 0 <= a[i].vertex {
      assert (a + b)[i] == a[i];
    }
  }

  lemma MaxEventAppend(ts: seq<Triple>, t: Triple)
    ensures MaxEvent(ts + [t]) ==
      var m1 := if t.vertex > MaxEvent(ts) then t.vertex else MaxEvent(ts);
      if t.predecessor > 0 && t.predecessor > m1 then t.predecessor else m1
  {
    assert (ts + [t])[..|ts|] == ts;
  }

  lemma NameMapAppend(ts: seq<Triple>, t: Triple)
    requires NonNegativeVertices(ts + [t])
    ensures NonNegativeVertices(ts) && 0 <= t.vertex
    ensures NameMap(ts + [t]) ==
      var m := NameMap(ts)[t.vertex := Decimal(t.vertex)];
      if t.predecessor > 0 then m[t.predecessor := Decimal(t.predecessor)] else m
  {
    assert (ts + [t])[|ts|] == t;
    NamedIdsAppend(ts, t);
  }

  /**
   * The reading loop: keeps the triples of the lines that yield three integers, in
   * order, tracks the largest event id, and records the decimal names of the ids.
   */
  method ReadLines(lines: seq<Line>) returns (temp: seq<Triple>, maxEvent: int, names: map<int, string>)
    requires NonNegativeVertices(Triples(lines))
    ensures temp == Triples(lines) && maxEvent == MaxEvent(temp) && names == NameMap(temp)
  {
    temp := [];
    maxEvent := 0;
    names := map[];
    var i := 0;
    while i < |lines|
      invariant 0 <= i <= |lines|
      invariant temp + Triples(lines[i..]) == Triples(lines) && NonNegativeVertices(temp)
      invariant maxEvent == MaxEvent(temp) && names == NameMap(temp)
    {
      ReadStep(lines, i);
      assert (temp + Kept(lines[i])) + Triples(lines[i + 1..]) == Triples(lines);
      NonNegativePrefix(temp + Kept(lines[i]), Triples(lines[i + 1..]));
      temp, maxEvent, names := ReadLine(lines[i], temp, maxEvent, names);
      i := i + 1;
    }
    assert lines[i..] == [];
    assert temp + [] == temp;
  }

  /** One step of the reading loop: a line yielding three integers is kept and its ids recorded. */
  method ReadLine(l: Line, temp: seq<Triple>, maxEvent: int, names: map<int, string>)
    returns (temp': seq<Triple>, maxEvent': int, names': map<int, string>)
    requires NonNegativeVertices(temp + Kept(l))
    requires NonNegativeVertices(temp) && maxEvent == MaxEvent(temp) && names == NameMap(temp)
    ensures temp' == temp + Kept(l) && NonNegativeVertices(temp')
    ensures maxEvent' == MaxEvent(temp') && names' == NameMap(temp')
  {
    temp', maxEvent', names' := temp, maxEvent, names;
    if l.Fields? {
      var vertex, predecessor := l.vertex, l.predecessor;
      var t := Triple(predecessor, vertex, l.weight);
      MaxEventAppend(temp, t);
      NameMapAppend(temp, t);
      maxEvent' := if vertex > maxEvent' then vertex else maxEvent';
      if predecessor > 0 && predecessor > maxEvent' {
        maxEvent' := predecessor;
      }
      names' := names'[vertex := Decimal(vertex)];
      if predecessor > 0 {
        names' := names'[predecessor := Decimal(predecessor)];
      }
      temp' := temp + [t];
    } else {
      assert temp + Kept(l) == temp;
    }
  }
}
