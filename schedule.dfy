/** The three record kinds, volunteer-name resolution and the
    assignment-event join the dashboard reads from. */
module Schedule {
  import opened Wrappers
  import opened Text

  /** A roster row; a missing first or last name is "" (fillna("")), a missing alias is None. */
  datatype Volunteer = Volunteer(firstName: string, lastName: string, alias: Option<string>)

  /** An events row. Dates are "YYYY-MM-DD" text and times "HH:MM" text, as stored. */
  datatype Event = Event(
    eventId: string, eventType: string, schoolName: string, eventName: string, grade: string,
    numStudents: int, date: string, startTime: string, endTime: string, required: int)

  /** An assignments row: a volunteer (by resolved name) booked onto an event. */
  datatype Assignment = Assignment(eventId: string, volunteer: string)

  /** A row of the joined view: the assignment, its event (None when no event has
      that id) and the parsed start and end instants (None for NaT). */
  datatype ScheduleEntry = ScheduleEntry(assignment: Assignment, event: Option<Event>, start: Option<int>, end: Option<int>)

  // ---------------------------------------------------------------------------
  // Name resolution

  /** `first_name.strip() + " " + last_name.strip()`: the stripped parts around
      one space, and no outer whitespace when neither part is blank. */
  function FullName(v: Volunteer): (name: string)
    ensures |name| == |Strip(v.firstName)| + 1 + |Strip(v.lastName)|
    ensures name[|Strip(v.firstName)|] == ' '
    ensures Strip(v.firstName) != [] && Strip(v.lastName) != [] ==> Strip(name) == name
  {
    var f, l := Strip(v.firstName), Strip(v.lastName);
    var name := f + " " + l;
    assert f != [] && l != [] ==> name[0] == f[0] && name[|name| - 1] == l[|l| - 1];
    if f != [] && l != [] then
      StripUnpadded(name);
      name
    else name
  }

  /** The roster key a volunteer is found under: the alias, or the full name when there is none. */
  function AliasKey(v: Volunteer): string {
    match v.alias
    case Some(a) => a
    case None => FullName(v)
  }

  /** The position of the last roster row filed under `key`, if any. */
  function LastWithKey(roster: seq<Volunteer>, key: string): (r: Option<nat>)
    ensures r.None? <==> forall i :: 0 <= i < |roster| ==> AliasKey(roster[i]) != key
    ensures r.Some? ==> r.value < |roster| && AliasKey(roster[r.value]) == key
    ensures r.Some? ==> forall j :: r.value < j < |roster| ==> AliasKey(roster[j]) != key
  {
    if roster == [] then None
    else if AliasKey(roster[|roster| - 1]) == key then Some(|roster| - 1)
    else
      var rest := roster[..|roster| - 1];
      assert forall i :: 0 <= i < |rest| ==> rest[i] == roster[i];
      LastWithKey(rest, key)
  }

  /** `name_map`: alias key -> full name, built in roster order, so a later
      volunteer with the same key replaces an earlier one: a key is in the map
      exactly when some row is filed under it, and maps to the last such row's
      full name. */
  function NameMap(roster: seq<Volunteer>): (m: map<string, string>)
    ensures forall k :: k in m <==> LastWithKey(roster, k).Some?
    ensures forall k :: k in m ==> m[k] == FullName(roster[LastWithKey(roster, k).value])
  {
    if roster == [] then map[]
    else
      var n := |roster| - 1;
      var rest, v := roster[..n], roster[n];
      var m := NameMap(rest)[AliasKey(v) := FullName(v)];
      assert forall k :: k != AliasKey(v) ==> LastWithKey(roster, k) == LastWithKey(rest, k);
      assert forall i :: 0 <= i < n ==> rest[i] == roster[i];
      m
  }

  /** Every roster key is a key of the map. */
  lemma NameMapHasRosterKeys(roster: seq<Volunteer>)
    ensures forall i :: 0 <= i < |roster| ==> AliasKey(roster[i]) in NameMap(roster)
  {
    forall i | 0 <= i < |roster|
      ensures AliasKey(roster[i]) in NameMap(roster)
    {
      assert LastWithKey(roster, AliasKey(roster[i])).Some?;
    }
  }

  /** Every key of the map is a roster key, mapped to the full name of a volunteer filed under it. */
  lemma NameMapKeysFromRoster(roster: seq<Volunteer>)
    ensures forall k :: k in NameMap(roster) ==>
              exists i :: 0 <= i < |roster| && AliasKey(roster[i]) == k && NameMap(roster)[k] == FullName(roster[i])
  {
    var m := NameMap(roster);
    forall k | k in m
      ensures exists i :: 0 <= i < |roster| && AliasKey(roster[i]) == k && m[k] == FullName(roster[i])
    {
      var i := LastWithKey(roster, k).value;
      assert AliasKey(roster[i]) == k && m[k] == FullName(roster[i]);
    }
  }

  /** The map's keys are exactly the roster's keys, and each maps to the full name
      of a volunteer filed under it. */
  lemma NameMapFromRoster(roster: seq<Volunteer>)
    ensures forall i :: 0 <= i < |roster| ==> AliasKey(roster[i]) in NameMap(roster)
    ensures forall k :: k in NameMap(roster) ==>
              exists i :: 0 <= i < |roster| && AliasKey(roster[i]) == k && NameMap(roster)[k] == FullName(roster[i])
  {
    NameMapHasRosterKeys(roster);
    NameMapKeysFromRoster(roster);
  }

  /** Line 43's lookup: the stripped raw name is looked up in the map; when it
      is not a key the raw value is kept as it was, unstripped. */
  function ResolveName(m: map<string, string>, raw: string): (name: string)
    ensures name == raw || name in m.Values
  {
    var key := Strip(raw);
    if key in m then m[key] else raw
  }

  /** Resolves every assignment row's volunteer name through the roster's name
      map: each row keeps its event; its name becomes the full name of the last
      roster row filed under the stripped name, or stays as it was when no row is. */
  function ResolveAssignments(roster: seq<Volunteer>, rows: seq<Assignment>): (r: seq<Assignment>)
    ensures |r| == |rows|
    ensures forall i :: 0 <= i < |rows| ==> r[i].eventId == rows[i].eventId
    ensures forall i :: 0 <= i < |rows| ==>
      r[i].volunteer == match LastWithKey(roster, Strip(rows[i].volunteer))
                        case Some(j) => FullName(roster[j])
                        case None => rows[i].volunteer
  {
    var m := NameMap(roster);
    seq(|rows|, i requires 0 <= i < |rows| => Assignment(rows[i].eventId, ResolveName(m, rows[i].volunteer)))
  }

  /** The last roster row with a given key decides what that key maps to. */
  lemma NameMapLastWins(roster: seq<Volunteer>, i: nat)
    requires i < |roster|
    requires forall j :: i < j < |roster| ==> AliasKey(roster[j]) != AliasKey(roster[i])
    ensures AliasKey(roster[i]) in NameMap(roster) && NameMap(roster)[AliasKey(roster[i])] == FullName(roster[i])
  {
    var r := LastWithKey(roster, AliasKey(roster[i]));
    assert r.Some?;
  }

  /** A raw name that strips to a volunteer's key resolves to that volunteer's full name. */
  lemma ResolveThroughRoster(roster: seq<Volunteer>, i: nat, raw: string)
    requires i < |roster| && Strip(raw) == AliasKey(roster[i])
    requires forall j :: i < j < |roster| ==> AliasKey(roster[j]) != AliasKey(roster[i])
    ensures ResolveName(NameMap(roster), raw) == FullName(roster[i])
  {
    NameMapLastWins(roster, i);
  }

  /** A raw name that matches no key is passed through unchanged. */
  lemma ResolveUnknownKeepsRaw(roster: seq<Volunteer>, raw: string)
    requires forall i :: 0 <= i < |roster| ==> AliasKey(roster[i]) != Strip(raw)
    ensures ResolveName(NameMap(roster), raw) == raw
  {
    NameMapFromRoster(roster);
  }

  /** Resolution yields either the raw value or some volunteer's full name. */
  lemma ResolvedNameIsKnownOrRaw(roster: seq<Volunteer>, raw: string)
    ensures var name := ResolveName(NameMap(roster), raw);
            name == raw || exists i :: 0 <= i < |roster| && name == FullName(roster[i])
  {
    NameMapFromRoster(roster);
  }

  /** Names are saved resolved and resolved again at every load; when every
      volunteer has both name parts and no full name is the key of a different
      full name, a second resolution changes nothing. */
  lemma ResolutionStableAcrossReloads(roster: seq<Volunteer>, raw: string)
    requires forall i :: 0 <= i < |roster| ==> Strip(roster[i].firstName) != [] && Strip(roster[i].lastName) != []
    requires forall i, j :: 0 <= i < |roster| && 0 <= j < |roster| && AliasKey(roster[j]) == FullName(roster[i]) ==>
               FullName(roster[j]) == FullName(roster[i])
    ensures ResolveName(NameMap(roster), ResolveName(NameMap(roster), raw)) == ResolveName(NameMap(roster), raw)
  {
    var m := NameMap(roster);
    var r := ResolveName(m, raw);
    if Strip(raw) in m {
      var i := LastWithKey(roster, Strip(raw)).value;
      assert r == FullName(roster[i]);
      assert Strip(r) == r;
      if r in m {
        var j := LastWithKey(roster, r).value;
        assert AliasKey(roster[j]) == FullName(roster[i]);
        assert m[r] == FullName(roster[j]);
      }
    }
  }

  // ---------------------------------------------------------------------------
  // The joined view

  /** The events whose id is `id`, in table order. */
  function EventsWithId(events: seq<Event>, id: string): (r: seq<Event>)
    ensures forall e :: e in r <==> e in events && e.eventId == id
    ensures (forall e :: e in events ==> e.eventId != id) ==> r == []
  {
    if events == [] then []
    else
      var rest := EventsWithId(events[..|events| - 1], id);
      var e := events[|events| - 1];
      assert events == events[..|events| - 1] + [e];
      if e.eventId == id then rest + [e] else rest
  }

  /** One joined row. `parse` stands for `pd.to_datetime(date + " " + time, errors='coerce')`. */
  function EntryFor(a: Assignment, event: Option<Event>, parse: string -> Option<int>): ScheduleEntry {
    match event
    case Some(e) => ScheduleEntry(a, event, parse(e.date + " " + e.startTime), parse(e.date + " " + e.endTime))
    case None => ScheduleEntry(a, None, None, None)
  }

  /** What every row of the join satisfies: its event, if any, carries the assignment's id; it has
      none only when no event does; its instants are the parsed date and times. */
  predicate JoinedFrom(x: ScheduleEntry, events: seq<Event>, parse: string -> Option<int>) {
    && (x.event.Some? ==> x.event.value in events && x.event.value.eventId == x.assignment.eventId)
    && (x.event.None? ==> forall e :: e in events ==> e.eventId != x.assignment.eventId)
    && x == EntryFor(x.assignment, x.event, parse)
  }

  /** The rows one assignment contributes to the left join: one per matching event, or one with no event. */
  function JoinOne(a: Assignment, events: seq<Event>, parse: string -> Option<int>): (rows: seq<ScheduleEntry>)
    ensures |rows| >= 1
    ensures forall i :: 0 <= i < |rows| ==> rows[i].assignment == a
  {
    var matches := EventsWithId(events, a.eventId);
    if matches == [] then [EntryFor(a, None, parse)]
    else seq(|matches|, i requires 0 <= i < |matches| => EntryFor(a, Some(matches[i]), parse))
  }

  /** `assignments_df.merge(events_df, on="event_id", how="left")` with the parsed instants. */
  function Join(assignments: seq<Assignment>, events: seq<Event>, parse: string -> Option<int>): (view: seq<ScheduleEntry>)
    ensures |view| >= |assignments|
  {
    if assignments == [] then []
    else Join(assignments[..|assignments| - 1], events, parse) + JoinOne(assignments[|assignments| - 1], events, parse)
  }

  /** Every row one assignment contributes is joined correctly. */
  lemma JoinOneJoinedFrom(a: Assignment, events: seq<Event>, parse: string -> Option<int>)
    ensures forall x :: x in JoinOne(a, events, parse) ==> JoinedFrom(x, events, parse)
  {
    var matches := EventsWithId(events, a.eventId);
    if matches != [] {
      forall x | x in JoinOne(a, events, parse) ensures JoinedFrom(x, events, parse) {
        var i :| 0 <= i < |matches| && x == EntryFor(a, Some(matches[i]), parse);
        assert matches[i] in matches;
      }
    }
  }

  /** Every row of the left join comes from an assignment and is joined correctly. */
  lemma {:induction false} JoinRowsJoinedFrom(assignments: seq<Assignment>, events: seq<Event>, parse: string -> Option<int>)
    ensures forall x :: x in Join(assignments, events, parse) ==> x.assignment in assignments && JoinedFrom(x, events, parse)
  {
    if assignments != [] {
      var n := |assignments| - 1;
      var rest, a := assignments[..n], assignments[n];
      JoinRowsJoinedFrom(rest, events, parse);
      JoinOneJoinedFrom(a, events, parse);
      var before, rows := Join(rest, events, parse), JoinOne(a, events, parse);
      forall x: ScheduleEntry | x in before + rows ensures x.assignment in assignments && JoinedFrom(x, events, parse) {
        if x in before {
          var k :| 0 <= k < n && rest[k] == x.assignment;
          assert assignments[k] == rest[k];
        } else {
          var i :| 0 <= i < |rows| && rows[i] == x;
        }
      }
    }
  }

  /** The left join keeps every assignment: each has at least one row. */
  lemma {:induction false} JoinKeepsEveryAssignment(assignments: seq<Assignment>, events: seq<Event>, parse: string -> Option<int>)
    ensures forall a :: a in assignments ==> exists x :: x in Join(assignments, events, parse) && x.assignment == a
  {
    if assignments != [] {
      var n := |assignments| - 1;
      var rest, a := assignments[..n], assignments[n];
      JoinKeepsEveryAssignment(rest, events, parse);
      var before, rows := Join(rest, events, parse), JoinOne(a, events, parse);
      var view := before + rows;
      forall b | b in assignments ensures exists x: ScheduleEntry :: x in view && x.assignment == b {
        if b == a {
          assert rows[0] in view;
        } else {
          var k :| 0 <= k < |assignments| && assignments[k] == b;
          assert k < n && rest[k] == b;
          assert b in rest;
          var x :| x in before && x.assignment == b;
          assert x in view;
        }
      }
    }
  }

  predicate UniqueEventIds(events: seq<Event>) {
    forall i, j :: 0 <= i < j < |events| ==> events[i].eventId != events[j].eventId
  }

  /** With unique event ids the join has exactly one row per assignment, in assignment order. */
  lemma {:induction false} JoinOneRowPerAssignment(assignments: seq<Assignment>, events: seq<Event>, parse: string -> Option<int>)
    requires UniqueEventIds(events)
    ensures |Join(assignments, events, parse)| == |assignments|
    ensures forall i :: 0 <= i < |assignments| ==> Join(assignments, events, parse)[i].assignment == assignments[i]
  {
    if assignments != [] {
      var n := |assignments| - 1;
      var rest, a := assignments[..n], assignments[n];
      JoinOneRowPerAssignment(rest, events, parse);
      AtMostOneEventWithId(events, a.eventId);
      RowsLineUp(Join(assignments, events, parse), Join(rest, events, parse), JoinOne(a, events, parse), assignments);
    }
  }

  /** Rows lined up with all assignments but the last, followed by one row for the last, line up with all. */
  lemma RowsLineUp(view: seq<ScheduleEntry>, before: seq<ScheduleEntry>, rows: seq<ScheduleEntry>, assignments: seq<Assignment>)
    requires assignments != [] && view == before + rows
    requires |before| == |assignments| - 1
    requires forall i :: 0 <= i < |before| ==> before[i].assignment == assignments[..|assignments| - 1][i]
    requires |rows| == 1 && rows[0].assignment == assignments[|assignments| - 1]
    ensures |view| == |assignments|
    ensures forall i :: 0 <= i < |assignments| ==> view[i].assignment == assignments[i]
  {
  }

  /** Unique ids leave at most one event per id. */
  lemma {:induction false} AtMostOneEventWithId(events: seq<Event>, id: string)
    requires UniqueEventIds(events)
    ensures |EventsWithId(events, id)| <= 1
  {
    if events != [] {
      var n := |events| - 1;
      var rest := events[..n];
      AtMostOneEventWithId(rest, id);
      var r := EventsWithId(rest, id);
      if events[n].eventId == id {
        forall e | e in rest ensures e.eventId != id {
          var k :| 0 <= k < n && rest[k] == e;
          assert events[k] == e;
        }
      }
    }
  }

  /** Appending an assignment appends its rows to the view and leaves earlier rows as they were. */
  lemma JoinAfterAppend(assignments: seq<Assignment>, a: Assignment, events: seq<Event>, parse: string -> Option<int>)
    ensures Join(assignments + [a], events, parse) == Join(assignments, events, parse) + JoinOne(a, events, parse)
  {
    assert (assignments + [a])[..|assignments|] == assignments;
  }
}
