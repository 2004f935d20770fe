/** The browser-side overlap check `isOverlapping` (app/static/calendar.js) and
    the guard in the calendar's `select` callback that uses it. Moments are
    compared as integer instants; `isAfter`/`isBefore` are strict and
    `isSameOrBefore`/`isSameOrAfter` are not. */
module OverlapJs {
  import opened Intervals
  import OverlapPy
  import opened Wrappers

  /** `isOverlapping(events, eventToCheck)`: an index loop that returns at the
      first event one of the three tests catches. */
  method IsOverlapping(events: seq<Interval>, eventToCheck: Interval) returns (r: bool)
    ensures r <==> AnyConflict(events, eventToCheck)
    ensures OverlapPy.Scan(seq(|events|, i requires 0 <= i < |events| => Success(events[i])), eventToCheck) == Success(r)
  {
    ghost var parsed := seq(|events|, i requires 0 <= i < |events| => Success(events[i]));
    OverlapPy.ScanMeetsSpec(parsed, eventToCheck);
    assert OverlapPy.Values(parsed) == events;
    for i := 0 to |events|
      invariant forall j :: 0 <= j < i ==> !Conflicts(events[j], eventToCheck)
    {
      var eventA := events[i];
      if eventToCheck.start > eventA.start && eventToCheck.start < eventA.end {
        return true;
      }
      if eventToCheck.end > eventA.start && eventToCheck.end < eventA.end {
        return true;
      }
      if eventToCheck.start <= eventA.start && eventToCheck.end >= eventA.end {
        return true;
      }
    }
    return false;
  }

  /** What the `select` callback ends in. */
  datatype SelectOutcome =
    | OverlapAlert                 // alert, no request
    | Declined                     // the confirm dialog was cancelled
    | CreateRequested(span: Interval, resourceId: string, resourceName: string)

  /** The `select` callback: a selection that overlaps any event of the selected
      resource is refused before anything is sent; otherwise, if the user
      confirms, a create request for exactly the selection is posted. */
  method OnSelect(resourceEvents: seq<Interval>, selection: Interval, resourceId: string,
                  room: string, resourceTitle: string, confirmed: bool)
    returns (outcome: SelectOutcome)
    ensures outcome == OverlapAlert <==> AnyConflict(resourceEvents, selection)
    ensures outcome.CreateRequested? <==> !AnyConflict(resourceEvents, selection) && confirmed
    ensures outcome.CreateRequested? ==>
      outcome.span == selection && outcome.resourceId == resourceId && outcome.resourceName == room + " - " + resourceTitle
  {
    var overlapping := IsOverlapping(resourceEvents, selection);
    if overlapping {
      outcome := OverlapAlert;
    } else if confirmed {
      outcome := CreateRequested(selection, resourceId, room + " - " + resourceTitle);
    } else {
      outcome := Declined;
    }
  }
}
