/** The server-side overlap scan `is_overlapping` (app/utils/scheduler.py):
    both stamps of the new event are parsed, then the events are scanned in
    order, each parsed just before it is tested, and the first conflict ends
    the scan. A stamp that does not parse raises, which the model returns as
    a failure. Parsing is pure, so the scan is stated over the list of parse
    results; it still stops at the first failure or conflict. */
module OverlapPy {
  import opened Wrappers
  import opened Timestamps
  import opened Intervals

  /** The two fields of an event dictionary the scan reads. */
  datatype StampedEvent = StampedEvent(start: string, end: string)

  /** Parse `start` then `end` and turn them into integer ordinals. */
  function ParseEvent(e: StampedEvent): (r: Result<Interval, ParseError>)
    ensures r.Success? <==> ParseStamp(e.start).Success? && ParseStamp(e.end).Success?
    ensures r.Success? ==> r.value == Interval(Ordinal(ParseStamp(e.start).value), Ordinal(ParseStamp(e.end).value))
  {
    match ParseStamp(e.start)
    case Failure(err) => Failure(err)
    case Success(s) =>
      match ParseStamp(e.end)
      case Failure(err) => Failure(err)
      case Success(t) => Success(Interval(Ordinal(s), Ordinal(t)))
  }

  /** The parse result of each event, in list order. */
  function ParseEach(events: seq<StampedEvent>): (r: seq<Result<Interval, ParseError>>)
    ensures |r| == |events| && forall i :: 0 <= i < |events| ==> r[i] == ParseEvent(events[i])
  {
    seq(|events|, i requires 0 <= i < |events| => ParseEvent(events[i]))
  }

  /** The events before index `i` all parse and none conflicts: the loop gets
      past them. */
  predicate ClearBefore(parsed: seq<Result<Interval, ParseError>>, i: int, proposed: Interval) {
    i <= |parsed| && forall j :: 0 <= j < i ==> parsed[j].Success? && !Conflicts(parsed[j].value, proposed)
  }

  /** `r` is where the loop stops: True at the first event that conflicts, the
      parse error of the first event that fails, whichever comes first. */
  predicate StopsAtFirst(parsed: seq<Result<Interval, ParseError>>, proposed: Interval, r: Result<bool, ParseError>) {
    && (r == Success(true) <==>
          exists i :: 0 <= i < |parsed| && ClearBefore(parsed, i, proposed) && parsed[i].Success? && Conflicts(parsed[i].value, proposed))
    && (r.Failure? <==>
          exists i :: 0 <= i < |parsed| && ClearBefore(parsed, i, proposed) && parsed[i].Failure?)
    && (r.Failure? ==>
          exists i :: 0 <= i < |parsed| && ClearBefore(parsed, i, proposed) && parsed[i] == Failure(r.error))
  }

  /** The loop of `is_overlapping`, over the parse results of the events. */
  function Scan(parsed: seq<Result<Interval, ParseError>>, proposed: Interval): (r: Result<bool, ParseError>)
    ensures r == Success(false) <==>
      forall i :: 0 <= i < |parsed| ==> parsed[i].Success? && !Conflicts(parsed[i].value, proposed)
    ensures r == Success(true) ==>
      exists i :: 0 <= i < |parsed| && parsed[i].Success? && Conflicts(parsed[i].value, proposed)
    ensures r.Failure? ==> exists i :: 0 <= i < |parsed| && parsed[i].Failure?
    ensures (forall i :: 0 <= i < |parsed| ==> parsed[i].Success?) ==> r.Success?
  {
    if |parsed| == 0 then Success(false)
    else
      match parsed[0]
      case Failure(err) => Failure(err)
      case Success(existing) =>
        if Conflicts(existing, proposed) then Success(true)
        else
          var rest := Scan(parsed[1..], proposed);
          assert forall i :: 1 <= i < |parsed| ==> parsed[i] == parsed[1..][i - 1];
          rest
  }

  /** The scan stops where the loop of `is_overlapping` stops: at the first
      event that conflicts or fails to parse, whichever comes first; a bad
      stamp after a conflict is never reached, one before it raises. */
  lemma {:induction false} ScanStopsAtFirst(parsed: seq<Result<Interval, ParseError>>, proposed: Interval)
    ensures StopsAtFirst(parsed, proposed, Scan(parsed, proposed))
    decreases |parsed|
  {
    if |parsed| > 0 {
      assert ClearBefore(parsed, 0, proposed);
      if parsed[0].Success? && !Conflicts(parsed[0].value, proposed) {
        ScanStopsAtFirst(parsed[1..], proposed);
        StopsAfterFirst(parsed, proposed, Scan(parsed[1..], proposed));
      }
    }
  }

  /** Past an event that parses and does not conflict, where the loop stops in
      the rest is where it stops in the whole list. */
  lemma StopsAfterFirst(parsed: seq<Result<Interval, ParseError>>, proposed: Interval, r: Result<bool, ParseError>)
    requires |parsed| > 0 && parsed[0].Success? && !Conflicts(parsed[0].value, proposed)
    requires StopsAtFirst(parsed[1..], proposed, r)
    ensures StopsAtFirst(parsed, proposed, r)
  {
    var rest := parsed[1..];
    forall i | 0 <= i < |rest|
      ensures parsed[i + 1] == rest[i]
      ensures ClearBefore(parsed, i + 1, proposed) <==> ClearBefore(rest, i, proposed)
    {
      if ClearBefore(rest, i, proposed) {
        forall j | 0 <= j < i + 1 ensures parsed[j].Success? && !Conflicts(parsed[j].value, proposed) {
          if j > 0 { assert parsed[j] == rest[j - 1]; }
        }
      }
      if ClearBefore(parsed, i + 1, proposed) {
        forall j | 0 <= j < i ensures rest[j].Success? && !Conflicts(rest[j].value, proposed) {
          assert rest[j] == parsed[j + 1];
        }
      }
    }
    if exists i :: 0 <= i < |parsed| && ClearBefore(parsed, i, proposed) && parsed[i].Success? && Conflicts(parsed[i].value, proposed) {
      var i :| 0 <= i < |parsed| && ClearBefore(parsed, i, proposed) && parsed[i].Success? && Conflicts(parsed[i].value, proposed);
      assert ClearBefore(rest, i - 1, proposed) && rest[i - 1] == parsed[i];
    }
    if r == Success(true) {
      var i :| 0 <= i < |rest| && ClearBefore(rest, i, proposed) && rest[i].Success? && Conflicts(rest[i].value, proposed);
      assert ClearBefore(parsed, i + 1, proposed) && parsed[i + 1] == rest[i];
    }
    if exists i :: 0 <= i < |parsed| && ClearBefore(parsed, i, proposed) && parsed[i].Failure? {
      var i :| 0 <= i < |parsed| && ClearBefore(parsed, i, proposed) && parsed[i].Failure?;
      assert ClearBefore(rest, i - 1, proposed) && rest[i - 1] == parsed[i];
    }
    if r.Failure? {
      var i :| 0 <= i < |rest| && ClearBefore(rest, i, proposed) && rest[i] == Failure(r.error);
      assert ClearBefore(parsed, i + 1, proposed) && parsed[i + 1] == rest[i];
    }
  }

  /** `is_overlapping(events, newEvent)`. */
  function IsOverlapping(events: seq<StampedEvent>, newEvent: StampedEvent): (r: Result<bool, ParseError>)
    ensures ParseEvent(newEvent).Failure? ==> r == Failure(ParseEvent(newEvent).error)
    ensures r == Success(false) <==>
      && ParseEvent(newEvent).Success?
      && forall i :: 0 <= i < |events| ==>
           ParseEvent(events[i]).Success? && !Conflicts(ParseEvent(events[i]).value, ParseEvent(newEvent).value)
  {
    match ParseEvent(newEvent)
    case Failure(err) => Failure(err)
    case Success(proposed) =>
      ScanOfEach(events, proposed);
      Scan(ParseEach(events), proposed)
  }

  /** The scan of the parsed events finds no overlap exactly when each event
      parses and does not conflict. */
  lemma ScanOfEach(events: seq<StampedEvent>, proposed: Interval)
    ensures Scan(ParseEach(events), proposed) == Success(false) <==>
      forall i :: 0 <= i < |events| ==> ParseEvent(events[i]).Success? && !Conflicts(ParseEvent(events[i]).value, proposed)
  {
    var parsed := ParseEach(events);
    if Scan(parsed, proposed) == Success(false) {
      forall i | 0 <= i < |events| ensures ParseEvent(events[i]).Success? && !Conflicts(ParseEvent(events[i]).value, proposed) {
        assert parsed[i] == ParseEvent(events[i]);
      }
    }
  }

  predicate AllParse(parsed: seq<Result<Interval, ParseError>>) {
    forall i :: 0 <= i < |parsed| ==> parsed[i].Success?
  }

  /** The integer intervals of a list whose stamps all parse. */
  function Values(parsed: seq<Result<Interval, ParseError>>): (r: seq<Interval>)
    requires AllParse(parsed)
    ensures |r| == |parsed| && forall i :: 0 <= i < |parsed| ==> r[i] == parsed[i].value
  {
    seq(|parsed|, i requires 0 <= i < |parsed| => parsed[i].value)
  }

  /** When every stamp parses, the scan answers the specification: some event
      conflicts under the three-way rule. */
  lemma ScanMeetsSpec(parsed: seq<Result<Interval, ParseError>>, proposed: Interval)
    requires AllParse(parsed)
    ensures Scan(parsed, proposed) == Success(AnyConflict(Values(parsed), proposed))
  {
    var ivs := Values(parsed);
    if AnyConflict(ivs, proposed) {
      var i :| 0 <= i < |ivs| && Conflicts(ivs[i], proposed);
      assert !(parsed[i].Success? && !Conflicts(parsed[i].value, proposed));
    }
  }

  /** `is_overlapping` itself: with parseable stamps it returns whether some
      event conflicts with the new one under the three-way rule. */
  lemma IsOverlappingMeetsSpec(events: seq<StampedEvent>, newEvent: StampedEvent)
    requires ParseEvent(newEvent).Success?
    requires forall i :: 0 <= i < |events| ==> ParseEvent(events[i]).Success?
    ensures AllParse(ParseEach(events))
    ensures IsOverlapping(events, newEvent) == Success(AnyConflict(Values(ParseEach(events)), ParseEvent(newEvent).value))
  {
    ScanMeetsSpec(ParseEach(events), ParseEvent(newEvent).value);
  }

  /** An empty list never overlaps, provided the new event's stamps parse. */
  lemma EmptyListNoOverlap(newEvent: StampedEvent)
    requires ParseEvent(newEvent).Success?
    ensures IsOverlapping([], newEvent) == Success(false)
  {
  }

  /** With every stamp parsed, one conflicting event decides the scan. */
  lemma ScanFindsWitness(parsed: seq<Result<Interval, ParseError>>, proposed: Interval, i: int)
    requires AllParse(parsed)
    requires 0 <= i < |parsed| && Conflicts(parsed[i].value, proposed)
    ensures Scan(parsed, proposed) == Success(true)
  {
    assert Scan(parsed, proposed).Success?;
    assert !(parsed[i].Success? && !Conflicts(parsed[i].value, proposed));
    assert Scan(parsed, proposed) != Success(false);
    var r := Scan(parsed, proposed);
    assert r.value == true;
    assert r == Success(true);
  }

  /** A conflict found in one list is found in any list that contains the
      same parse results, once every stamp there has parsed. */
  lemma OverlapCarriesOver(p1: seq<Result<Interval, ParseError>>, p2: seq<Result<Interval, ParseError>>, proposed: Interval)
    requires AllParse(p2)
    requires forall i :: 0 <= i < |p1| ==> p1[i] in p2
    requires Scan(p1, proposed) == Success(true)
    ensures Scan(p2, proposed) == Success(true)
  {
    var i :| 0 <= i < |p1| && p1[i].Success? && Conflicts(p1[i].value, proposed);
    var j :| 0 <= j < |p2| && p2[j] == p1[i];
    ScanFindsWitness(p2, proposed, j);
  }

  /** Two lists of parse results with the same elements scan alike, once every
      stamp has parsed. */
  lemma SameElementsSameScan(p1: seq<Result<Interval, ParseError>>, p2: seq<Result<Interval, ParseError>>, proposed: Interval)
    requires AllParse(p1) && AllParse(p2)
    requires forall i :: 0 <= i < |p1| ==> p1[i] in p2
    requires forall j :: 0 <= j < |p2| ==> p2[j] in p1
    ensures Scan(p1, proposed) == Scan(p2, proposed)
  {
    var r1, r2 := Scan(p1, proposed), Scan(p2, proposed);
    assert r1.Success? && r2.Success?;
    if r1.value {
      OverlapCarriesOver(p1, p2, proposed);
    } else if r2.value {
      OverlapCarriesOver(p2, p1, proposed);
    }
  }

  /** With parseable stamps, the answer does not depend on the order of the list. */
  lemma OrderIrrelevant(e1: seq<StampedEvent>, e2: seq<StampedEvent>, newEvent: StampedEvent)
    requires multiset(e1) == multiset(e2)
    requires forall i :: 0 <= i < |e1| ==> ParseEvent(e1[i]).Success?
    ensures IsOverlapping(e1, newEvent) == IsOverlapping(e2, newEvent)
  {
    if ParseEvent(newEvent).Success? {
      var p1, p2 := ParseEach(e1), ParseEach(e2);
      SameParseResults(e1, e2, p1, p2);
      SameElementsSameScan(p1, p2, ParseEvent(newEvent).value);
    }
  }

  /** Reordered events give the same parse results, reordered. */
  lemma SameParseResults(e1: seq<StampedEvent>, e2: seq<StampedEvent>,
                         p1: seq<Result<Interval, ParseError>>, p2: seq<Result<Interval, ParseError>>)
    requires multiset(e1) == multiset(e2)
    requires forall i :: 0 <= i < |e1| ==> ParseEvent(e1[i]).Success?
    requires p1 == ParseEach(e1) && p2 == ParseEach(e2)
    ensures AllParse(p1) && AllParse(p2)
    ensures forall i :: 0 <= i < |p1| ==> p1[i] in p2
    ensures forall j :: 0 <= j < |p2| ==> p2[j] in p1
  {
    forall j | 0 <= j < |p2| ensures p2[j].Success? && p2[j] in p1 {
      assert e2[j] in multiset(e1);
      var i :| 0 <= i < |e1| && e1[i] == e2[j];
      assert p1[i] == p2[j];
    }
    forall i | 0 <= i < |p1| ensures p1[i] in p2 {
      assert e1[i] in multiset(e2);
      var j :| 0 <= j < |e2| && e2[j] == e1[i];
      assert p2[j] == p1[i];
    }
  }

  /** Appending events never turns an overlap into none: the scan stops at the
      first conflict and never reaches what was appended. */
  lemma {:induction false} AppendKeepsOverlap(parsed: seq<Result<Interval, ParseError>>, more: seq<Result<Interval, ParseError>>, proposed: Interval)
    requires Scan(parsed, proposed) == Success(true)
    ensures Scan(parsed + more, proposed) == Success(true)
  {
    assert (parsed + more)[0] == parsed[0];
    if !Conflicts(parsed[0].value, proposed) {
      assert (parsed + more)[1..] == parsed[1..] + more;
      AppendKeepsOverlap(parsed[1..], more, proposed);
    }
  }

  /** With a malformed stamp in the list order does matter: a conflict met first
      hides the bad stamp, a bad stamp met first raises. */
  lemma OrderMattersWithBadStamp(good: Interval, bad: ParseError, proposed: Interval)
    requires Conflicts(good, proposed)
    ensures Scan([Success(good), Failure(bad)], proposed) == Success(true)
    ensures Scan([Failure(bad), Success(good)], proposed) == Failure(bad)
  {
  }
}
