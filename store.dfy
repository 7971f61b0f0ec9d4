/** The dashboard's three tables and the two pages that change them: Add Event
    and Add Assignment. Every page view runs the whole script again, so the
    views are computed from the tables as they stand. */
module Store {
  import opened Wrappers
  import opened Text
  import opened EventIds
  import opened Schedule
  import opened ConflictDetector
  import opened Reconciliation

  /** What the Add Event page submits. */
  datatype EventForm = EventForm(
    eventType: string, schoolName: string, eventName: string, grade: string, numStudents: int,
    date: string, startTime: string, endTime: string, required: int)

  datatype AddEventError = EventNameRequired

  datatype AssignError = NoEventsAvailable | NoVolunteersAvailable | AlreadyAssigned

  /** The name GRG sessions get. */
  const GrgSessionName: string := "GRG Session"

  /** The form as submitted from what was typed: a GRG hides the school, name,
      grade and student inputs and submits fixed values instead, so its name
      check always passes; any other category submits what was typed. */
  function SubmittedForm(typed: EventForm): (f: EventForm)
    ensures typed.eventType != "grg" ==> f == typed
    ensures f.eventType == typed.eventType && f.date == typed.date && f.required == typed.required
    ensures f.startTime == typed.startTime && f.endTime == typed.endTime
    ensures typed.eventType == "grg" ==>
      && f.eventName == GrgSessionName && !IsBlank(f.eventName)
      && f.schoolName == "" && f.grade == "" && f.numStudents == 0
  {
    if typed.eventType != "grg" then typed
    else
      var f := typed.(schoolName := "", eventName := GrgSessionName, grade := "", numStudents := 0);
      assert !IsSpace(f.eventName[0]);
      f
  }

  /** `events["event_id"]`. */
  function IdsOf(events: seq<Event>): (ids: seq<string>)
    ensures |ids| == |events|
    ensures forall i :: 0 <= i < |events| ==> ids[i] == events[i].eventId
  {
    seq(|events|, i requires 0 <= i < |events| => events[i].eventId)
  }

  /** The event a valid form adds: an id no stored event has (the category's
      prefix and its next counter, see NewEventIdShape), then the form's fields. */
  function NewEvent(events: seq<Event>, form: EventForm): (e: Event)
    ensures e.eventId !in IdsOf(events)
    ensures forall i :: 0 <= i < |events| ==> events[i].eventId != e.eventId
    ensures e.eventType == form.eventType && e.schoolName == form.schoolName && e.eventName == form.eventName
    ensures e.grade == form.grade && e.numStudents == form.numStudents && e.date == form.date
    ensures e.startTime == form.startTime && e.endTime == form.endTime && e.required == form.required
  {
    var id := GenerateEventId(IdsOf(events), PrefixFor(form.eventType));
    GeneratedIdNotInTable(events, PrefixFor(form.eventType));
    Event(id, form.eventType, form.schoolName, form.eventName, form.grade, form.numStudents,
          form.date, form.startTime, form.endTime, form.required)
  }

  /** No (event, volunteer) pair is booked twice. */
  predicate NoDuplicateAssignments(assignments: seq<Assignment>) {
    forall i, j :: 0 <= i < j < |assignments| ==> assignments[i] != assignments[j]
  }

  class Repository {
    /** `volunteers_june.csv`; the pages never change it. */
    const volunteers: seq<Volunteer>
    /** `events_june.csv`. */
    var events: seq<Event>
    /** `assignments_june.csv`, volunteer names resolved through the roster. */
    var assignments: seq<Assignment>

    /** The tables as loaded; a missing file gives an empty table. Stored
        volunteer names are resolved to full names through the roster. */
    constructor Load(roster: seq<Volunteer>, storedEvents: seq<Event>, storedAssignments: seq<Assignment>)
      ensures volunteers == roster && events == storedEvents
      ensures assignments == ResolveAssignments(roster, storedAssignments)
    {
      volunteers := roster;
      events := storedEvents;
      assignments := ResolveAssignments(roster, storedAssignments);
    }

    /** The Add Event button on what was typed: the form is submitted as
        SubmittedForm says; a blank event name is refused and nothing changes;
        otherwise exactly one event, with a fresh id, is appended. A GRG is
        never refused. The assignments table is outside the frame. */
    method AddEvent(typed: EventForm) returns (result: Result<string, AddEventError>)
      modifies this`events
      ensures result.Failure? <==> IsBlank(SubmittedForm(typed).eventName)
      ensures typed.eventType == "grg" ==> result.Success?
      ensures result.Failure? ==> result.error == EventNameRequired && events == old(events)
      ensures result.Success? ==> events == old(events) + [NewEvent(old(events), SubmittedForm(typed))]
      ensures result.Success? ==> result.value == NewEvent(old(events), SubmittedForm(typed)).eventId
      ensures result.Success? ==> result.value !in IdsOf(old(events))
      ensures UniqueEventIds(old(events)) ==> UniqueEventIds(events)
    {
      var form := SubmittedForm(typed);
      if Strip(form.eventName) == [] {
        assert IsBlank(form.eventName) by {
          StripEmptyIffBlank(form.eventName);
        }
        result := Failure(EventNameRequired);
      } else {
        assert !IsBlank(form.eventName) by {
          StripEmptyIffBlank(form.eventName);
        }
        var e := NewEvent(events, form);
        if UniqueEventIds(events) {
          NewEventKeepsIdsUnique(events, form);
        }
        events := events + [e];
        result := Success(e.eventId);
      }
    }

    /** The Assign Volunteer button: refused when there are no events or no
        volunteers, or when the pair is already booked; otherwise exactly one
        row is appended. The events table is outside the frame. */
    method AddAssignment(eventId: string, volunteer: string) returns (outcome: Outcome<AssignError>)
      modifies this`assignments
      ensures old(events) == [] ==> outcome == Fail(NoEventsAvailable)
      ensures old(events) != [] && volunteers == [] ==> outcome == Fail(NoVolunteersAvailable)
      ensures old(events) != [] && volunteers != [] ==>
        (outcome == Fail(AlreadyAssigned) <==> Assignment(eventId, volunteer) in old(assignments))
      ensures outcome.Fail? ==> assignments == old(assignments)
      ensures old(events) != [] && volunteers != [] && Assignment(eventId, volunteer) !in old(assignments) ==>
        outcome == Pass
      ensures outcome.Pass? ==> assignments == old(assignments) + [Assignment(eventId, volunteer)]
      ensures NoDuplicateAssignments(old(assignments)) ==> NoDuplicateAssignments(assignments)
    {
      if events == [] {
        outcome := Fail(NoEventsAvailable);
      } else if volunteers == [] {
        outcome := Fail(NoVolunteersAvailable);
      } else if Assignment(eventId, volunteer) in assignments {
        outcome := Fail(AlreadyAssigned);
      } else {
        assignments := assignments + [Assignment(eventId, volunteer)];
        outcome := Pass;
      }
    }

    /** The dashboard's warnings for the tables as they stand. */
    method Conflicts(parse: string -> Option<int>) returns (conflicts: seq<Conflict>)
      ensures conflicts == ConflictsOf(Join(assignments, events, parse))
    {
      conflicts := FindConflicts(Join(assignments, events, parse));
    }
  }

  // ---------------------------------------------------------------------------
  // Properties

  /** A new event's id is not in use, so unique ids stay unique. */
  lemma NewEventKeepsIdsUnique(events: seq<Event>, form: EventForm)
    requires UniqueEventIds(events)
    ensures UniqueEventIds(events + [NewEvent(events, form)])
  {
    AppendKeepsUniqueIds(events, NewEvent(events, form));
  }

  /** No stored event carries the id generated from the id column. */
  lemma GeneratedIdNotInTable(events: seq<Event>, prefix: string)
    ensures var id := GenerateEventId(IdsOf(events), prefix);
      id !in IdsOf(events) && forall i :: 0 <= i < |events| ==> events[i].eventId != id
  {
    var ids := IdsOf(events);
    GeneratedIdIsFresh(ids, prefix);
    forall i | 0 <= i < |events|
      ensures events[i].eventId != GenerateEventId(ids, prefix)
    {
      assert ids[i] in ids;
    }
  }

  /** Appending an event whose id is not in use keeps ids unique. */
  lemma AppendKeepsUniqueIds(events: seq<Event>, e: Event)
    requires UniqueEventIds(events)
    requires forall i :: 0 <= i < |events| ==> events[i].eventId != e.eventId
    ensures UniqueEventIds(events + [e])
  {
    var more := events + [e];
    forall i, j | 0 <= i < j < |more|
      ensures more[i].eventId != more[j].eventId
    {
      assert more[i] == events[i];
      if j < |events| {
        assert more[j] == events[j];
      }
    }
  }

  /** A new event's id is its category's prefix and at least three digits; a GRG gets "GRG". */
  lemma NewEventIdShape(events: seq<Event>, form: EventForm)
    ensures var id := NewEvent(events, form).eventId;
      && PrefixFor(form.eventType) <= id
      && HasCounter(id, PrefixFor(form.eventType))
      && |id| >= 3 + CounterWidth
      && (form.eventType == "grg" ==> "GRG" <= id)
  {
    PrefixTable(form.eventType);
  }

  /** Appending a pair that is not booked keeps the bookings free of duplicates. */
  lemma AppendKeepsNoDuplicates(assignments: seq<Assignment>, a: Assignment)
    requires NoDuplicateAssignments(assignments) && a !in assignments
    ensures NoDuplicateAssignments(assignments + [a])
  {
    var more := assignments + [a];
    forall i, j | 0 <= i < j < |more|
      ensures more[i] != more[j]
    {
      if j == |assignments| {
        assert more[i] == assignments[i] && assignments[i] in assignments;
      }
    }
  }
}
