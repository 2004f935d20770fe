/** The conflict rule that both overlap scans apply to one existing event,
    on integer timestamps. An interval is the half-open span [start, end). */
module Intervals {

  datatype Interval = Interval(start: int, end: int)

  predicate WellFormed(iv: Interval) {
    iv.start < iv.end
  }

  /** Branch (a): the proposed start lies strictly inside the existing event. */
  predicate StartInside(existing: Interval, proposed: Interval) {
    proposed.start > existing.start && proposed.start < existing.end
  }

  /** Branch (b): the proposed end lies strictly inside the existing event. */
  predicate EndInside(existing: Interval, proposed: Interval) {
    proposed.end > existing.start && proposed.end < existing.end
  }

  /** Branch (c): the existing event lies within the proposal, ends included. */
  predicate Swallows(existing: Interval, proposed: Interval) {
    proposed.start <= existing.start && proposed.end >= existing.end
  }

  /** The three-way test applied to each existing event. */
  predicate Conflicts(existing: Interval, proposed: Interval) {
    StartInside(existing, proposed) || EndInside(existing, proposed) || Swallows(existing, proposed)
  }

  /** The plain half-open intersection test. */
  predicate HalfOpenOverlap(a: Interval, b: Interval) {
    a.start < b.end && b.start < a.end
  }

  /** The specification both scans are measured against: some event of the list
      conflicts with the proposal. */
  predicate AnyConflict(events: seq<Interval>, proposed: Interval) {
    exists i :: 0 <= i < |events| && Conflicts(events[i], proposed)
  }

  /** For well-formed intervals the three-way test is exactly the half-open test. */
  lemma ConflictsIffHalfOpen(existing: Interval, proposed: Interval)
    requires WellFormed(existing) && WellFormed(proposed)
    ensures Conflicts(existing, proposed) <==> HalfOpenOverlap(existing, proposed)
  {
  }

  /** Hence, for well-formed intervals, which one is "existing" does not matter. */
  lemma ConflictsSymmetric(a: Interval, b: Interval)
    requires WellFormed(a) && WellFormed(b)
    ensures Conflicts(a, b) <==> Conflicts(b, a)
    ensures AnyConflict([a], b) <==> AnyConflict([b], a)
  {
    ConflictsIffHalfOpen(a, b);
    ConflictsIffHalfOpen(b, a);
    assert [a][0] == a && [b][0] == b;
    if Conflicts(a, b) {
      assert AnyConflict([a], b);
    }
    if Conflicts(b, a) {
      assert AnyConflict([b], a);
    }
  }

  /** Without well-formedness symmetry fails: an empty existing event at the
      proposal's start conflicts one way round but not the other. */
  lemma SymmetryNeedsWellFormed()
    ensures Conflicts(Interval(5, 5), Interval(5, 8))
    ensures !Conflicts(Interval(5, 8), Interval(5, 5))
  {
  }

  /** Intervals that only share an endpoint never conflict, in either order. */
  lemma TouchingDoNotConflict(a: Interval, b: Interval)
    requires WellFormed(a) && WellFormed(b) && a.end == b.start
    ensures !Conflicts(a, b) && !Conflicts(b, a)
  {
  }

  /** Identical intervals conflict, through branch (c). */
  lemma IdenticalConflict(a: Interval)
    ensures Swallows(a, a) && Conflicts(a, a)
  {
  }

  /** A proposal inside an existing event (ends included) is caught; with a later
      start it is branch (a) that catches it. */
  lemma ContainedProposalCaught(existing: Interval, proposed: Interval)
    requires WellFormed(proposed)
    requires existing.start <= proposed.start && proposed.end <= existing.end
    ensures Conflicts(existing, proposed)
    ensures existing.start < proposed.start ==> StartInside(existing, proposed)
  {
  }

  /** Each branch is needed: for each, a pair caught by it alone. */
  lemma EachBranchNeeded()
    ensures StartInside(Interval(10, 12), Interval(11, 13))
      && !EndInside(Interval(10, 12), Interval(11, 13)) && !Swallows(Interval(10, 12), Interval(11, 13))
    ensures EndInside(Interval(10, 12), Interval(9, 11))
      && !StartInside(Interval(10, 12), Interval(9, 11)) && !Swallows(Interval(10, 12), Interval(9, 11))
    ensures Swallows(Interval(10, 11), Interval(10, 11))
      && !StartInside(Interval(10, 11), Interval(10, 11)) && !EndInside(Interval(10, 11), Interval(10, 11))
  {
  }

  /** The empty list conflicts with nothing. */
  lemma NoEventsNoConflict(proposed: Interval)
    ensures !AnyConflict([], proposed)
  {
  }

  /** The answer depends only on which events are in the list, not their order. */
  lemma AnyConflictOrderIrrelevant(e1: seq<Interval>, e2: seq<Interval>, proposed: Interval)
    requires multiset(e1) == multiset(e2)
    ensures AnyConflict(e1, proposed) <==> AnyConflict(e2, proposed)
  {
    if AnyConflict(e1, proposed) {
      var i :| 0 <= i < |e1| && Conflicts(e1[i], proposed);
      assert e1[i] in multiset(e2);
      var j :| 0 <= j < |e2| && e2[j] == e1[i];
    }
    if AnyConflict(e2, proposed) {
      var j :| 0 <= j < |e2| && Conflicts(e2[j], proposed);
      assert e2[j] in multiset(e1);
      var i :| 0 <= i < |e1| && e1[i] == e2[j];
    }
  }

  /** Adding events, before or after, never turns a conflict into none. */
  lemma AnyConflictMonotone(events: seq<Interval>, before: seq<Interval>, after: seq<Interval>, proposed: Interval)
    requires AnyConflict(events, proposed)
    ensures AnyConflict(before + events + after, proposed)
  {
    var i :| 0 <= i < |events| && Conflicts(events[i], proposed);
    assert (before + events + after)[|before| + i] == events[i];
  }
}
