/** The dashboard's conflict checker: per-volunteer overlaps between
    consecutive bookings, then GRG sessions with more than two volunteers. */
module ConflictDetector {
  import opened Wrappers
  import opened Text
  import opened Schedule

  /** One warning of the checker. Only the data it reports is modelled, not its wording. */
  datatype Conflict =
    | Overlap(volunteer: string, earlier: ScheduleEntry, later: ScheduleEntry)
    | Capacity(eventId: string, date: string, count: nat)

  /** How many volunteers one GRG session takes. */
  const GrgCapacity: nat := 2

  /** The sort key `datetime_start` (only read for rows that have one). */
  function StartOf(x: ScheduleEntry): int {
    x.start.GetOr(0)
  }

  /** `prev["datetime_end"] > curr["datetime_start"]`; a missing end compares
      false. For two well-formed bookings taken in start order this is exactly
      "they overlap". */
  predicate Clashes(prev: ScheduleEntry, curr: ScheduleEntry)
    ensures prev.end.None? ==> !Clashes(prev, curr)
    ensures
      (prev.start.Some? && curr.start.Some? && curr.end.Some? && StartOf(prev) <= StartOf(curr) &&
       StartOf(curr) < curr.end.value) ==> (Clashes(prev, curr) <==> Overlapping(prev, curr))
  {
    prev.end.Some? && prev.end.value > StartOf(curr)
  }

  /** Two bookings whose time spans intersect. */
  predicate Overlapping(x: ScheduleEntry, y: ScheduleEntry) {
    && x.start.Some? && x.end.Some? && y.start.Some? && y.end.Some?
    && StartOf(x) < y.end.value && StartOf(y) < x.end.value
  }

  // ---------------------------------------------------------------------------
  // Selections

  /** The rows with a start instant: a row whose start is NaT never passes the
      dashboard's date-range filter, so the checker never sees it. */
  function Timed(entries: seq<ScheduleEntry>): (r: seq<ScheduleEntry>)
    ensures forall x :: x in r <==> x in entries && x.start.Some?
  {
    if entries == [] then []
    else
      var x := entries[|entries| - 1];
      assert entries == entries[..|entries| - 1] + [x];
      Timed(entries[..|entries| - 1]) + (if x.start.Some? then [x] else [])
  }

  /** Some row before position q is booked for the volunteer. */
  predicate OccursBefore(entries: seq<ScheduleEntry>, name: string, q: nat) {
    exists p :: 0 <= p < q && p < |entries| && entries[p].assignment.volunteer == name
  }

  /** The names follow the rows' order of first appearance: wherever a later
      name occurs, every earlier name has occurred before. */
  predicate InFirstAppearanceOrder(entries: seq<ScheduleEntry>, names: seq<string>) {
    forall i, j, q :: 0 <= i < j < |names| && 0 <= q < |entries| && entries[q].assignment.volunteer == names[j] ==>
      OccursBefore(entries, names[i], q)
  }

  /** `filtered_df["volunteer"].unique()`: the rows' volunteers, each once, in
      order of first appearance. */
  function VolunteerNames(entries: seq<ScheduleEntry>): (names: seq<string>)
    ensures forall x :: x in entries ==> x.assignment.volunteer in names
    ensures forall i :: 0 <= i < |names| ==> OccursBefore(entries, names[i], |entries|)
    ensures forall i, j :: 0 <= i < j < |names| ==> names[i] != names[j]
    ensures InFirstAppearanceOrder(entries, names)
  {
    if entries == [] then []
    else
      var init, x := entries[..|entries| - 1], entries[|entries| - 1];
      var names := VolunteerNames(init);
      assert entries == init + [x];
      NamesSnoc(init, x, names);
      if x.assignment.volunteer in names then names
      else
        AppendNewName(names, x.assignment.volunteer);
        names + [x.assignment.volunteer]
  }

  /** A name not yet listed keeps the list free of repeats. */
  lemma AppendNewName(names: seq<string>, v: string)
    requires forall i, j :: 0 <= i < j < |names| ==> names[i] != names[j]
    requires v !in names
    ensures forall i, j :: 0 <= i < j < |names + [v]| ==> (names + [v])[i] != (names + [v])[j]
  {
    var more := names + [v];
    forall i, j | 0 <= i < j < |more|
      ensures more[i] != more[j]
    {
      assert more[i] == names[i];
      if j < |names| {
        assert more[j] == names[j];
      }
    }
  }

  /** An occurrence before q stays one when a row is added at the end. */
  lemma OccursBeforeSnoc(init: seq<ScheduleEntry>, x: ScheduleEntry, name: string, q: nat)
    requires OccursBefore(init, name, q)
    ensures OccursBefore(init + [x], name, q)
  {
    var p :| 0 <= p < q && p < |init| && init[p].assignment.volunteer == name;
    assert (init + [x])[p] == init[p];
  }

  /** One more row keeps the name list's properties, its volunteer added when new. */
  lemma NamesSnoc(init: seq<ScheduleEntry>, x: ScheduleEntry, names: seq<string>)
    requires forall p :: 0 <= p < |init| ==> init[p].assignment.volunteer in names
    requires forall i :: 0 <= i < |names| ==> OccursBefore(init, names[i], |init|)
    requires InFirstAppearanceOrder(init, names)
    ensures var v := x.assignment.volunteer;
      var more := if v in names then names else names + [v];
      && (forall i :: 0 <= i < |more| ==> OccursBefore(init + [x], more[i], |init| + 1))
      && InFirstAppearanceOrder(init + [x], more)
  {
    var v, rows, n := x.assignment.volunteer, init + [x], |init|;
    var more := if v in names then names else names + [v];
    assert rows[n] == x;
    forall i | 0 <= i < |more|
      ensures OccursBefore(rows, more[i], n + 1)
    {
      if i < |names| {
        OccursBeforeSnoc(init, x, names[i], n);
      }
    }
    forall i, j, q | 0 <= i < j < |more| && 0 <= q < |rows| && rows[q].assignment.volunteer == more[j]
      ensures OccursBefore(rows, more[i], q)
    {
      NameOrderSnoc(init, x, names, more, i, j, q);
    }
  }

  /** The order step of NamesSnoc for one pair of names and one occurrence. */
  lemma NameOrderSnoc(init: seq<ScheduleEntry>, x: ScheduleEntry, names: seq<string>, more: seq<string>, i: nat, j: nat, q: nat)
    requires forall p :: 0 <= p < |init| ==> init[p].assignment.volunteer in names
    requires forall k :: 0 <= k < |names| ==> OccursBefore(init, names[k], |init|)
    requires InFirstAppearanceOrder(init, names)
    requires more == if x.assignment.volunteer in names then names else names + [x.assignment.volunteer]
    requires i < j < |more| && q <= |init| && (init + [x])[q].assignment.volunteer == more[j]
    ensures OccursBefore(init + [x], more[i], q)
  {
    var n := |init|;
    assert more[i] == names[i];
    if j < |names| {
      assert more[j] == names[j];
      if q < n {
        assert (init + [x])[q] == init[q];
        EarlierNameBeforeOldRow(init, x, names, i, j, q);
      } else {
        var q' :| 0 <= q' < n && q' < |init| && init[q'].assignment.volunteer == names[j];
        EarlierNameBeforeOldRow(init, x, names, i, j, q');
        OccursBeforeWiden(init + [x], names[i], q', q);
      }
    } else if q == n {
      assert OccursBefore(init, names[i], n);
      OccursBeforeSnoc(init, x, names[i], n);
    }
  }

  /** An earlier name occurs before any stored row of a later name, also once a row is appended. */
  lemma EarlierNameBeforeOldRow(init: seq<ScheduleEntry>, x: ScheduleEntry, names: seq<string>, i: nat, j: nat, q: nat)
    requires InFirstAppearanceOrder(init, names)
    requires i < j < |names| && q < |init| && init[q].assignment.volunteer == names[j]
    ensures OccursBefore(init + [x], names[i], q)
  {
    assert OccursBefore(init, names[i], q);
    OccursBeforeSnoc(init, x, names[i], q);
  }

  /** Occurring before a position is occurring before any later one. */
  lemma OccursBeforeWiden(entries: seq<ScheduleEntry>, name: string, q: nat, q': nat)
    requires OccursBefore(entries, name, q) && q <= q'
    ensures OccursBefore(entries, name, q')
  {
    var p :| 0 <= p < q && p < |entries| && entries[p].assignment.volunteer == name;
    assert p < q';
  }

  /** `filtered_df[filtered_df["volunteer"] == name]`. */
  function EntriesOf(entries: seq<ScheduleEntry>, name: string): (r: seq<ScheduleEntry>)
    ensures forall x :: x in r <==> x in entries && x.assignment.volunteer == name
  {
    if entries == [] then []
    else
      var x := entries[|entries| - 1];
      assert entries == entries[..|entries| - 1] + [x];
      EntriesOf(entries[..|entries| - 1], name) + (if x.assignment.volunteer == name then [x] else [])
  }

  // ---------------------------------------------------------------------------
  // Sorting by start

  predicate SortedByStart(s: seq<ScheduleEntry>) {
    forall i, j :: 0 <= i < j < |s| ==> StartOf(s[i]) <= StartOf(s[j])
  }

  /** Inserts x after every element that does not start later than it. */
  function InsertByStart(x: ScheduleEntry, s: seq<ScheduleEntry>): (r: seq<ScheduleEntry>)
    requires SortedByStart(s)
    ensures SortedByStart(r)
    ensures multiset(r) == multiset(s) + multiset{x}
  {
    if s == [] then [x]
    else if StartOf(x) < StartOf(s[0]) then [x] + s
    else
      var rest := InsertByStart(x, s[1..]);
      assert s == [s[0]] + s[1..];
      InsertedAfterHead(x, s, rest);
      ConsSorted(s[0], rest);
      [s[0]] + rest
  }

  /** Putting an element that starts no later than any of a sorted list in front keeps it sorted. */
  lemma ConsSorted(h: ScheduleEntry, t: seq<ScheduleEntry>)
    requires SortedByStart(t)
    requires forall j :: 0 <= j < |t| ==> StartOf(h) <= StartOf(t[j])
    ensures SortedByStart([h] + t)
  {
    var r := [h] + t;
    forall i, j | 0 <= i < j < |r|
      ensures StartOf(r[i]) <= StartOf(r[j])
    {
      assert r[j] == t[j - 1];
      if i > 0 {
        assert r[i] == t[i - 1];
      }
    }
  }

  /** What is inserted behind the head of a sorted list starts no earlier than the head. */
  lemma InsertedAfterHead(x: ScheduleEntry, s: seq<ScheduleEntry>, rest: seq<ScheduleEntry>)
    requires s != [] && SortedByStart(s) && StartOf(s[0]) <= StartOf(x)
    requires multiset(rest) == multiset(s[1..]) + multiset{x}
    ensures forall j :: 0 <= j < |rest| ==> StartOf(s[0]) <= StartOf(rest[j])
  {
    forall j | 0 <= j < |rest|
      ensures StartOf(s[0]) <= StartOf(rest[j])
    {
      var y := rest[j];
      assert y in multiset(rest);
      if y != x {
        assert y in multiset(s[1..]);
        var k :| 0 <= k < |s[1..]| && s[1..][k] == y;
        assert s[k + 1] == y;
      }
    }
  }

  /** `sort_values(by="datetime_start")`, stable. */
  function SortByStart(s: seq<ScheduleEntry>): (r: seq<ScheduleEntry>)
    ensures SortedByStart(r)
    ensures multiset(r) == multiset(s)
  {
    if s == [] then []
    else
      assert s == s[..|s| - 1] + [s[|s| - 1]];
      InsertByStart(s[|s| - 1], SortByStart(s[..|s| - 1]))
  }

  // ---------------------------------------------------------------------------
  // Overlap conflicts

  /** The overlap warnings from the consecutive pairs (sub[i-1], sub[i]) with 1 <= i < n. */
  function AdjacentClashes(name: string, sub: seq<ScheduleEntry>, n: nat): (r: seq<Conflict>)
    requires n <= 1 || n <= |sub|
    ensures forall c :: c in r ==> c.Overlap?
    ensures forall c :: c in r ==> c.volunteer == name && Clashes(c.earlier, c.later)
  {
    if n <= 1 then []
    else
      AdjacentClashes(name, sub, n - 1) +
      (if Clashes(sub[n - 2], sub[n - 1]) then [Overlap(name, sub[n - 2], sub[n - 1])] else [])
  }

  /** One volunteer's bookings in start order. */
  function Bookings(timed: seq<ScheduleEntry>, name: string): seq<ScheduleEntry> {
    SortByStart(EntriesOf(timed, name))
  }

  /** The overlap warnings for one volunteer. */
  function VolunteerOverlaps(timed: seq<ScheduleEntry>, name: string): seq<Conflict> {
    AdjacentClashes(name, Bookings(timed, name), |Bookings(timed, name)|)
  }

  /** The overlap warnings for the listed volunteers, in list order. */
  function OverlapConflicts(timed: seq<ScheduleEntry>, names: seq<string>): (r: seq<Conflict>)
    ensures forall c :: c in r ==> c.Overlap?
    ensures forall c :: c in r ==> c.volunteer in names && Clashes(c.earlier, c.later)
  {
    if names == [] then []
    else OverlapConflicts(timed, names[..|names| - 1]) + VolunteerOverlaps(timed, names[|names| - 1])
  }

  // ---------------------------------------------------------------------------
  // Capacity conflicts

  /** `filtered_df["type"].str.lower() == "grg"`: the row's event is of type
      "grg" written in any mix of upper and lower case. */
  predicate IsGrg(x: ScheduleEntry)
    ensures IsGrg(x) <==> x.event.Some? && GrgIgnoringCase(x.event.value.eventType)
  {
    if x.event.None? then false
    else
      LowerIsGrg(x.event.value.eventType);
      Lower(x.event.value.eventType) == "grg"
  }

  /** The letters g, r, g, each in either case. */
  predicate GrgIgnoringCase(t: string) {
    && |t| == 3
    && (t[0] == 'g' || t[0] == 'G')
    && (t[1] == 'r' || t[1] == 'R')
    && (t[2] == 'g' || t[2] == 'G')
  }

  lemma LowerIsGrg(t: string)
    ensures Lower(t) == "grg" <==> GrgIgnoringCase(t)
  {
    var l := Lower(t);
    if GrgIgnoringCase(t) {
      assert l[0] == 'g' && l[1] == 'r' && l[2] == 'g';
      assert l == "grg";
    }
    if l == "grg" {
      assert l[0] == 'g' && l[1] == 'r' && l[2] == 'g';
    }
  }

  /** A GRG group: (event_id, date). */
  type GroupKey = (string, string)

  function KeyOf(x: ScheduleEntry): GroupKey
    requires x.event.Some?
  {
    (x.assignment.eventId, x.event.value.date)
  }

  /** The group keys of the GRG rows, in row order, repeats included. */
  function GrgKeys(timed: seq<ScheduleEntry>): (keys: seq<GroupKey>)
    ensures forall k :: k in keys <==> exists x :: x in timed && IsGrg(x) && KeyOf(x) == k
  {
    if timed == [] then []
    else
      var x := timed[|timed| - 1];
      assert timed == timed[..|timed| - 1] + [x];
      GrgKeys(timed[..|timed| - 1]) + (if IsGrg(x) then [KeyOf(x)] else [])
  }

  /** groupby's key order: by event_id, then by date, both as Python compares strings. */
  predicate KeyLess(a: GroupKey, b: GroupKey) {
    LexLess(a.0, b.0) || (a.0 == b.0 && LexLess(a.1, b.1))
  }

  lemma KeyLessIrreflexive(a: GroupKey)
    ensures !KeyLess(a, a)
  {
    LexLessIrreflexive(a.0);
    LexLessIrreflexive(a.1);
  }

  lemma KeyLessTransitive(a: GroupKey, b: GroupKey, c: GroupKey)
    requires KeyLess(a, b) && KeyLess(b, c)
    ensures KeyLess(a, c)
  {
    if LexLess(a.0, b.0) && LexLess(b.0, c.0) {
      LexLessTransitive(a.0, b.0, c.0);
    } else if a.0 == b.0 && b.0 == c.0 {
      LexLessTransitive(a.1, b.1, c.1);
    }
  }

  lemma KeyLessTotal(a: GroupKey, b: GroupKey)
    ensures a == b || KeyLess(a, b) || KeyLess(b, a)
  {
    LexLessTotal(a.0, b.0);
    LexLessTotal(a.1, b.1);
  }

  predicate Ascending(keys: seq<GroupKey>) {
    forall i, j :: 0 <= i < j < |keys| ==> KeyLess(keys[i], keys[j])
  }

  /** Adds k to an ascending key list unless it is already there. */
  function InsertKey(k: GroupKey, keys: seq<GroupKey>): (r: seq<GroupKey>)
    requires Ascending(keys)
    ensures Ascending(r)
    ensures forall y :: y in r <==> y in keys || y == k
  {
    if keys == [] then [k]
    else if k == keys[0] then keys
    else if KeyLess(k, keys[0]) then
      var r := [k] + keys;
      assert forall j :: 0 < j < |r| ==> KeyLess(k, r[j]) by {
        forall j | 0 < j < |r| ensures KeyLess(k, r[j]) {
          if j > 1 {
            KeyLessTransitive(k, keys[0], r[j]);
          }
        }
      }
      r
    else
      KeyLessTotal(k, keys[0]);
      var rest := InsertKey(k, keys[1..]);
      assert keys == [keys[0]] + keys[1..];
      var r := [keys[0]] + rest;
      assert forall j :: 0 < j < |r| ==> KeyLess(keys[0], r[j]) by {
        forall j | 0 < j < |r| ensures KeyLess(keys[0], r[j]) {
          assert r[j] == rest[j - 1];
          assert r[j] in rest;
        }
      }
      r
  }

  /** `groupby(["event_id", "date"])` keys: each once, ascending. */
  function GroupOrder(keys: seq<GroupKey>): (r: seq<GroupKey>)
    ensures Ascending(r)
    ensures forall y :: y in r <==> y in keys
  {
    if keys == [] then []
    else
      assert keys == keys[..|keys| - 1] + [keys[|keys| - 1]];
      InsertKey(keys[|keys| - 1], GroupOrder(keys[..|keys| - 1]))
  }

  /** `volunteer.nunique()` of a GRG group. */
  function Headcount(timed: seq<ScheduleEntry>, key: GroupKey): (n: nat)
    ensures n > 0 <==> key in GrgKeys(timed)
  {
    var people := set x | x in timed && IsGrg(x) && KeyOf(x) == key :: x.assignment.volunteer;
    if key in GrgKeys(timed) then
      var x :| x in timed && IsGrg(x) && KeyOf(x) == key;
      assert x.assignment.volunteer in people;
      |people|
    else
      assert people == {};
      |people|
  }

  /** The overbooking warnings for the listed groups, in list order. */
  function CapacityConflicts(timed: seq<ScheduleEntry>, keys: seq<GroupKey>): (r: seq<Conflict>)
    ensures forall c :: c in r ==> c.Capacity?
    ensures forall c :: c in r ==> c.count > GrgCapacity
  {
    if keys == [] then []
    else
      var k := keys[|keys| - 1];
      CapacityConflicts(timed, keys[..|keys| - 1]) +
      (if Headcount(timed, k) > GrgCapacity then [Capacity(k.0, k.1, Headcount(timed, k))] else [])
  }

  // ---------------------------------------------------------------------------
  // The checker

  /** Everything the checker warns about for the rows shown. */
  function ConflictsOf(entries: seq<ScheduleEntry>): (r: seq<Conflict>)
    ensures forall c :: c in r ==>
      || (c.Overlap? && Clashes(c.earlier, c.later))
      || (c.Capacity? && c.count > GrgCapacity)
  {
    var timed := Timed(entries);
    OverlapConflicts(timed, VolunteerNames(timed)) + CapacityConflicts(timed, GroupOrder(GrgKeys(timed)))
  }

  /** The inner loop of the checker: walk one volunteer's bookings in start
      order and warn about each consecutive pair that clashes. */
  method ScanBookings(name: string, sub: seq<ScheduleEntry>) returns (found: seq<Conflict>)
    ensures found == AdjacentClashes(name, sub, |sub|)
  {
    found := [];
    var i := 1;
    while i < |sub|
      invariant 1 <= i && (i <= |sub| || i == 1)
      invariant found == AdjacentClashes(name, sub, i)
    {
      if Clashes(sub[i - 1], sub[i]) {
        found := found + [Overlap(name, sub[i - 1], sub[i])];
      }
      i := i + 1;
    }
  }

  /** The first conflict loop: per volunteer, in order of first appearance, the
      overlap warnings of ScanBookings. */
  method ScanOverlaps(timed: seq<ScheduleEntry>, names: seq<string>) returns (found: seq<Conflict>)
    ensures found == OverlapConflicts(timed, names)
  {
    found := [];
    var k := 0;
    while k < |names|
      invariant 0 <= k <= |names|
      invariant found == OverlapConflicts(timed, names[..k])
    {
      var more := ScanBookings(names[k], Bookings(timed, names[k]));
      assert names[..k + 1][..k] == names[..k];
      found := found + more;
      k := k + 1;
    }
    assert names[..k] == names;
  }

  /** The second conflict loop: a warning for each GRG group, in key order,
      with more distinct volunteers than it takes. */
  method ScanCapacity(timed: seq<ScheduleEntry>, groups: seq<GroupKey>) returns (found: seq<Conflict>)
    ensures found == CapacityConflicts(timed, groups)
  {
    found := [];
    var j := 0;
    while j < |groups|
      invariant 0 <= j <= |groups|
      invariant found == CapacityConflicts(timed, groups[..j])
    {
      var count := Headcount(timed, groups[j]);
      if count > GrgCapacity {
        found := found + [Capacity(groups[j].0, groups[j].1, count)];
      }
      assert groups[..j + 1][..j] == groups[..j];
      j := j + 1;
    }
    assert groups[..j] == groups;
  }

  /** The checker: the overlap warnings, then the capacity warnings. */
  method FindConflicts(entries: seq<ScheduleEntry>) returns (conflicts: seq<Conflict>)
    ensures conflicts == ConflictsOf(entries)
  {
    var timed := Timed(entries);
    var overlaps := ScanOverlaps(timed, VolunteerNames(timed));
    var capacity := ScanCapacity(timed, GroupOrder(GrgKeys(timed)));
    conflicts := overlaps + capacity;
  }
}
