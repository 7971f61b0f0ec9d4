/** Reconciling each event's required volunteers with its assignments, as the
    event summary table and the event details page show it. */
module Reconciliation {
  import opened Wrappers
  import opened Schedule

  /** The reconciliation columns of one summary row. */
  datatype SummaryRow = SummaryRow(eventId: string, required: int, assignedCount: nat, stillRequired: nat)

  /** What the details page shows for one event. */
  datatype Detail = Detail(event: Event, booked: seq<string>, assignedCount: nat, stillRequired: nat)

  /** The shortfall, floored at zero: `max(required - assigned, 0)`. */
  function StillRequired(required: int, count: nat): (still: nat)
    ensures still >= required - count
    ensures still == 0 || still == required - count
    ensures still == 0 <==> count >= required
  {
    if required - count > 0 then required - count else 0
  }

  /** `assignments_df.groupby("event_id").size().to_dict()`: how many rows carry each id. */
  function GroupSizes(assignments: seq<Assignment>): (sizes: map<string, nat>)
    ensures forall id :: id in sizes <==> exists a :: a in assignments && a.eventId == id
  {
    if assignments == [] then map[]
    else
      var a := assignments[|assignments| - 1];
      var sizes := GroupSizes(assignments[..|assignments| - 1]);
      assert assignments == assignments[..|assignments| - 1] + [a];
      sizes[a.eventId := (if a.eventId in sizes then sizes[a.eventId] else 0) + 1]
  }

  /** `filtered_events["event_id"].map(assigned_counts).fillna(0)`: the number
      of assignment rows of the event, 0 when it has none. */
  function AssignedFrom(assignments: seq<Assignment>, id: string): (n: nat)
    ensures n == |BookedFor(assignments, id)|
    ensures n == 0 <==> forall a :: a in assignments ==> a.eventId != id
  {
    var sizes := GroupSizes(assignments);
    GroupSizeIsBookedCount(assignments, id);
    if id in sizes then sizes[id] else 0
  }

  /** `assignments_df[assignments_df["event_id"] == event_id]["volunteer"].tolist()`. */
  function BookedFor(assignments: seq<Assignment>, id: string): (names: seq<string>)
    ensures |names| <= |assignments|
    ensures forall v :: v in names <==> Assignment(id, v) in assignments
  {
    if assignments == [] then []
    else
      var a := assignments[|assignments| - 1];
      assert assignments == assignments[..|assignments| - 1] + [a];
      BookedFor(assignments[..|assignments| - 1], id) + (if a.eventId == id then [a.volunteer] else [])
  }

  /** The summary table's reconciliation columns, one row per event shown: the
      event's assignment count and its shortfall. */
  function Summary(events: seq<Event>, assignments: seq<Assignment>): (rows: seq<SummaryRow>)
    ensures |rows| == |events|
    ensures forall i :: 0 <= i < |rows| ==>
      && rows[i].eventId == events[i].eventId
      && rows[i].required == events[i].required
      && rows[i].assignedCount == |BookedFor(assignments, events[i].eventId)|
      && rows[i].stillRequired == StillRequired(rows[i].required, rows[i].assignedCount)
  {
    seq(|events|, i requires 0 <= i < |events| =>
      var count := AssignedFrom(assignments, events[i].eventId);
      SummaryRow(events[i].eventId, events[i].required, count, StillRequired(events[i].required, count)))
  }

  /** The first event with the id (`event.iloc[0]`), if any. */
  function FirstWithId(events: seq<Event>, id: string): (r: Option<nat>)
    ensures r.None? <==> forall e :: e in events ==> e.eventId != id
    ensures r.Some? ==> r.value < |events| && events[r.value].eventId == id
    ensures r.Some? ==> forall k :: 0 <= k < r.value ==> events[k].eventId != id
  {
    if events == [] then None
    else if events[0].eventId == id then Some(0)
    else
      match FirstWithId(events[1..], id)
      case None =>
        assert events == [events[0]] + events[1..];
        None
      case Some(k) => Some(k + 1)
  }

  /** The details page for an event id: none when no event has the id ("Selected
      event not found"), otherwise the first such event, the volunteers booked on
      it, their number and the shortfall. */
  function EventDetail(events: seq<Event>, assignments: seq<Assignment>, id: string): (d: Option<Detail>)
    ensures d.None? <==> forall e :: e in events ==> e.eventId != id
    ensures d.Some? ==> d.value.event in events && d.value.event.eventId == id
    ensures d.Some? ==> FirstWithId(events, id).Some? && d.value.event == events[FirstWithId(events, id).value]
    ensures d.Some? ==> d.value.booked == BookedFor(assignments, id)
    ensures d.Some? ==> d.value.assignedCount == |d.value.booked|
    ensures d.Some? ==> d.value.stillRequired == StillRequired(d.value.event.required, d.value.assignedCount)
  {
    match FirstWithId(events, id)
    case None => None
    case Some(k) =>
      var booked := BookedFor(assignments, id);
      Some(Detail(events[k], booked, |booked|, StillRequired(events[k].required, |booked|)))
  }

  // ---------------------------------------------------------------------------
  // Properties

  /** The group size of an id, 0 when it has no group, is the number of
      assignments the details page lists for it. */
  lemma {:induction false} GroupSizeIsBookedCount(assignments: seq<Assignment>, id: string)
    ensures (if id in GroupSizes(assignments) then GroupSizes(assignments)[id] else 0) == |BookedFor(assignments, id)|
  {
    if assignments != [] {
      GroupSizeIsBookedCount(assignments[..|assignments| - 1], id);
    }
  }

  /** The summary row and the details page of an event report the same
      assigned and still-required numbers. */
  lemma SummaryAgreesWithDetail(events: seq<Event>, assignments: seq<Assignment>, i: nat)
    requires i < |events|
    requires forall k :: 0 <= k < i ==> events[k].eventId != events[i].eventId
    ensures var d := EventDetail(events, assignments, events[i].eventId);
      && d.Some?
      && d.value.event == events[i]
      && d.value.assignedCount == Summary(events, assignments)[i].assignedCount
      && d.value.stillRequired == Summary(events, assignments)[i].stillRequired
  {
    assert events[i] in events;
  }

  /** One more assignment of an event raises its count by one and lowers its
      shortfall by one, down to zero. */
  lemma {:induction false} AssignmentReducesShortfall(assignments: seq<Assignment>, id: string, volunteer: string, required: int)
    ensures |BookedFor(assignments + [Assignment(id, volunteer)], id)| == |BookedFor(assignments, id)| + 1
    ensures var n := |BookedFor(assignments, id)|;
      StillRequired(required, n + 1) == if StillRequired(required, n) > 0 then StillRequired(required, n) - 1 else 0
  {
    var more := assignments + [Assignment(id, volunteer)];
    assert more[..|more| - 1] == assignments;
  }

  /** Assignments of other events do not change an event's count. */
  lemma {:induction false} OtherAssignmentsIgnored(assignments: seq<Assignment>, id: string, other: Assignment)
    requires other.eventId != id
    ensures BookedFor(assignments + [other], id) == BookedFor(assignments, id)
  {
    var more := assignments + [other];
    assert more[..|more| - 1] == assignments;
  }

  /** An event needing 2 volunteers with 5 booked: 5 assigned, none still required. */
  lemma OverAssignedEvent(e: Event, assignments: seq<Assignment>)
    requires e.required == 2 && |assignments| == 5
    requires forall k :: 0 <= k < 5 ==> assignments[k].eventId == e.eventId
    ensures Summary([e], assignments) == [SummaryRow(e.eventId, 2, 5, 0)]
  {
    AllBooked(assignments, e.eventId);
  }

  lemma {:induction false} AllBooked(assignments: seq<Assignment>, id: string)
    requires forall k :: 0 <= k < |assignments| ==> assignments[k].eventId == id
    ensures |BookedFor(assignments, id)| == |assignments|
  {
    if assignments != [] {
      AllBooked(assignments[..|assignments| - 1], id);
    }
  }
}
