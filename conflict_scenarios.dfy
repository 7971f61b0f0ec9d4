/** Worked examples of the conflict checker. Times are minutes after midnight. */
module ConflictScenarios {
  import opened Wrappers
  import opened Schedule
  import opened ConflictDetector

  /** A non-GRG booking of `name` from `s` to `e`. */
  predicate PlainBooking(x: ScheduleEntry, name: string, s: int, e: int) {
    x.assignment.volunteer == name && x.start == Some(s) && x.end == Some(e) && !IsGrg(x)
  }

  /** Rows that all belong to one volunteer, all timed, none GRG. */
  predicate OneVolunteer(rows: seq<ScheduleEntry>, name: string) {
    forall i :: 0 <= i < |rows| ==> rows[i].start.Some? && rows[i].assignment.volunteer == name && !IsGrg(rows[i])
  }

  lemma {:induction false} OneVolunteerNames(rows: seq<ScheduleEntry>, name: string)
    requires rows != [] && OneVolunteer(rows, name)
    ensures VolunteerNames(rows) == [name]
  {
    if |rows| > 1 {
      OneVolunteerNames(rows[..|rows| - 1], name);
    }
  }

  lemma {:induction false} OneVolunteerEntries(rows: seq<ScheduleEntry>, name: string)
    requires OneVolunteer(rows, name)
    ensures EntriesOf(rows, name) == rows
  {
    if rows != [] {
      var init := rows[..|rows| - 1];
      OneVolunteerEntries(init, name);
      assert rows == init + [rows[|rows| - 1]];
    }
  }

  lemma {:induction false} OneVolunteerNoGroups(rows: seq<ScheduleEntry>, name: string)
    requires OneVolunteer(rows, name)
    ensures GrgKeys(rows) == []
  {
    if rows != [] {
      OneVolunteerNoGroups(rows[..|rows| - 1], name);
    }
  }

  /** The checker's output for one volunteer's rows, none of them GRG. */
  lemma {:induction false} OneVolunteerConflicts(rows: seq<ScheduleEntry>, name: string)
    requires rows != [] && OneVolunteer(rows, name)
    ensures ConflictsOf(rows) == VolunteerOverlaps(rows, name)
  {
    AllTimed(rows);
    OneVolunteerNames(rows, name);
    OneVolunteerNoGroups(rows, name);
    SingleNameOverlaps(rows, name);
    NoGroupsNoCapacity(rows);
  }

  /** With one volunteer name, the overlap part is that volunteer's warnings. */
  lemma SingleNameOverlaps(timed: seq<ScheduleEntry>, name: string)
    ensures OverlapConflicts(timed, [name]) == VolunteerOverlaps(timed, name)
  {
    assert [name][..0] == [];
  }

  /** Without GRG groups there is no capacity part. */
  lemma NoGroupsNoCapacity(timed: seq<ScheduleEntry>)
    requires GrgKeys(timed) == []
    ensures CapacityConflicts(timed, GroupOrder(GrgKeys(timed))) == []
  {
    assert GroupOrder([]) == [];
  }

  /** Bookings with pairwise distinct starts, in start order: the only case in
      which the order of a sort by start is fixed whatever the sort's tie rule. */
  predicate StrictlyByStart(s: seq<ScheduleEntry>) {
    forall i, j :: 0 <= i < j < |s| ==> StartOf(s[i]) < StartOf(s[j])
  }

  /** A booking that starts later than every other goes to the end. */
  lemma {:induction false} InsertAtEnd(x: ScheduleEntry, s: seq<ScheduleEntry>)
    requires SortedByStart(s)
    requires forall i :: 0 <= i < |s| ==> StartOf(s[i]) < StartOf(x)
    ensures InsertByStart(x, s) == s + [x]
  {
    if s != [] {
      InsertAtEnd(x, s[1..]);
      assert s == [s[0]] + s[1..];
    }
  }

  /** Sorting bookings already in strict start order keeps them as they are. */
  lemma {:induction false} SortKeepsSorted(s: seq<ScheduleEntry>)
    requires StrictlyByStart(s)
    ensures SortByStart(s) == s
  {
    if s != [] {
      var init := s[..|s| - 1];
      SortKeepsSorted(init);
      InsertAtEnd(s[|s| - 1], init);
      assert init + [s[|s| - 1]] == s;
    }
  }

  lemma {:induction false} SortsPair(a: ScheduleEntry, b: ScheduleEntry)
    requires StartOf(a) < StartOf(b)
    ensures SortByStart([b, a]) == [a, b]
  {
    assert [b, a][..1] == [b];
    SortKeepsSorted([b]);
  }

  /** The checker's output for one volunteer's rows, from their order by start. */
  lemma {:induction false} OneVolunteerWarnings(rows: seq<ScheduleEntry>, name: string, sorted: seq<ScheduleEntry>)
    requires rows != [] && OneVolunteer(rows, name)
    requires SortByStart(rows) == sorted
    ensures ConflictsOf(rows) == AdjacentClashes(name, sorted, |sorted|)
  {
    OneVolunteerConflicts(rows, name);
    OneVolunteerEntries(rows, name);
  }

  /** A volunteer booked 10:00-11:00 and 10:30-11:30, listed later one first:
      exactly one warning, naming the volunteer and the two bookings in start
      order. */
  lemma {:induction false} TwoOverlappingBookingsOneWarning(name: string, a: ScheduleEntry, b: ScheduleEntry)
    requires PlainBooking(a, name, 600, 660) && PlainBooking(b, name, 630, 690)
    ensures ConflictsOf([b, a]) == [Overlap(name, a, b)]
  {
    PairRows(name, a, b);
    SortsPair(a, b);
    OneVolunteerWarnings([b, a], name, [a, b]);
    PairClash(name, a, b);
  }

  /** The two-booking scenario's rows: one volunteer, a before b, the pair clashing. */
  lemma PairRows(name: string, a: ScheduleEntry, b: ScheduleEntry)
    requires PlainBooking(a, name, 600, 660) && PlainBooking(b, name, 630, 690)
    ensures OneVolunteer([b, a], name)
    ensures StartOf(a) < StartOf(b) && Clashes(a, b)
  {
    forall i | 0 <= i < 2
      ensures [b, a][i].start.Some? && [b, a][i].assignment.volunteer == name && !IsGrg([b, a][i])
    {
    }
  }

  lemma PairClash(name: string, a: ScheduleEntry, b: ScheduleEntry)
    requires Clashes(a, b)
    ensures AdjacentClashes(name, [a, b], 2) == [Overlap(name, a, b)]
  {
    assert AdjacentClashes(name, [a, b], 1) == [];
  }

  /** The limitation of checking consecutive bookings only: a long booking
      09:00-17:00 overlaps both 10:00-11:00 and 12:00-13:00, but only the first
      pair is warned about. */
  lemma {:induction false} NestedBookingMissed(name: string, a: ScheduleEntry, b: ScheduleEntry, c: ScheduleEntry)
    requires PlainBooking(a, name, 540, 1020)
    requires PlainBooking(b, name, 600, 660)
    requires PlainBooking(c, name, 720, 780)
    ensures Overlapping(a, c)
    ensures ConflictsOf([a, b, c]) == [Overlap(name, a, b)]
  {
    NestedRows(name, a, b, c);
    SortsTriple(a, b, c);
    OneVolunteerWarnings([a, b, c], name, [a, b, c]);
    OnlyFirstPairClashes(name, a, b, c);
  }

  /** The nested scenario's rows: one volunteer, in start order, only the first pair clashing. */
  lemma NestedRows(name: string, a: ScheduleEntry, b: ScheduleEntry, c: ScheduleEntry)
    requires PlainBooking(a, name, 540, 1020)
    requires PlainBooking(b, name, 600, 660)
    requires PlainBooking(c, name, 720, 780)
    ensures OneVolunteer([a, b, c], name)
    ensures StartOf(a) < StartOf(b) < StartOf(c)
    ensures Clashes(a, b) && !Clashes(b, c)
  {
    forall i | 0 <= i < 3
      ensures [a, b, c][i].start.Some? && [a, b, c][i].assignment.volunteer == name && !IsGrg([a, b, c][i])
    {
    }
  }

  lemma {:induction false} SortsTriple(a: ScheduleEntry, b: ScheduleEntry, c: ScheduleEntry)
    requires StartOf(a) < StartOf(b) < StartOf(c)
    ensures SortByStart([a, b, c]) == [a, b, c]
  {
    var s := [a, b, c];
    assert StrictlyByStart(s) by {
      forall i, j | 0 <= i < j < 3
        ensures StartOf(s[i]) < StartOf(s[j])
      {
      }
    }
    SortKeepsSorted(s);
  }

  lemma {:induction false} OnlyFirstPairClashes(name: string, a: ScheduleEntry, b: ScheduleEntry, c: ScheduleEntry)
    requires Clashes(a, b) && !Clashes(b, c)
    ensures AdjacentClashes(name, [a, b, c], 3) == [Overlap(name, a, b)]
  {
    assert AdjacentClashes(name, [a, b, c], 1) == [];
  }

  /** A timed GRG booking of `name` in group `key`. */
  predicate GrgBooking(x: ScheduleEntry, name: string, key: GroupKey) {
    x.assignment.volunteer == name && x.start.Some? && IsGrg(x) && KeyOf(x) == key
  }

  /** With every row timed, the checker looks at all of them. */
  lemma {:induction false} AllTimed(rows: seq<ScheduleEntry>)
    requires forall i :: 0 <= i < |rows| ==> rows[i].start.Some?
    ensures Timed(rows) == rows
  {
    if rows != [] {
      var init, x := rows[..|rows| - 1], rows[|rows| - 1];
      assert rows == init + [x];
      AllTimed(init);
      TimedSnoc(init, x);
    }
  }

  /** Filtering a list is filtering all but its last row, then the last row. */
  lemma TimedSnoc(init: seq<ScheduleEntry>, x: ScheduleEntry)
    ensures Timed(init + [x]) == Timed(init) + (if x.start.Some? then [x] else [])
  {
    assert (init + [x])[..|init|] == init;
  }

  /** Rows of pairwise different volunteers. */
  predicate DistinctVolunteers(rows: seq<ScheduleEntry>) {
    forall i, j :: 0 <= i < j < |rows| ==> rows[i].assignment.volunteer != rows[j].assignment.volunteer
  }

  lemma {:induction false} NoEntries(rows: seq<ScheduleEntry>, name: string)
    requires forall i :: 0 <= i < |rows| ==> rows[i].assignment.volunteer != name
    ensures EntriesOf(rows, name) == []
  {
    if rows != [] {
      NoEntries(rows[..|rows| - 1], name);
    }
  }

  lemma {:induction false} AtMostOneEach(rows: seq<ScheduleEntry>, name: string)
    requires DistinctVolunteers(rows)
    ensures |EntriesOf(rows, name)| <= 1
  {
    if rows != [] {
      var init := rows[..|rows| - 1];
      AtMostOneEach(init, name);
      if rows[|rows| - 1].assignment.volunteer == name {
        NoEntries(init, name);
      }
    }
  }

  /** A volunteer with at most one booking gets no overlap warning. */
  lemma {:induction false} SoloNoClash(timed: seq<ScheduleEntry>, name: string)
    requires |EntriesOf(timed, name)| <= 1
    ensures VolunteerOverlaps(timed, name) == []
  {
    var sub := Bookings(timed, name);
    assert |sub| == |multiset(sub)| == |multiset(EntriesOf(timed, name))|;
  }

  lemma {:induction false} NoOverlapConflicts(timed: seq<ScheduleEntry>, names: seq<string>)
    requires DistinctVolunteers(timed)
    ensures OverlapConflicts(timed, names) == []
  {
    if names != [] {
      NoOverlapConflicts(timed, names[..|names| - 1]);
      AtMostOneEach(timed, names[|names| - 1]);
      SoloNoClash(timed, names[|names| - 1]);
    }
  }

  /** Rows all in one GRG group form exactly that group. */
  lemma {:induction false} SingleGroup(rows: seq<ScheduleEntry>, key: GroupKey)
    requires rows != []
    requires forall i :: 0 <= i < |rows| ==> IsGrg(rows[i]) && KeyOf(rows[i]) == key
    ensures GroupOrder(GrgKeys(rows)) == [key]
  {
    var keys := GroupOrder(GrgKeys(rows));
    assert rows[0] in rows;
    assert key in keys;
    forall k | k in keys
      ensures k == key
    {
      var x :| x in rows && IsGrg(x) && KeyOf(x) == k;
    }
    if |keys| > 1 {
      assert KeyLess(keys[0], keys[1]);
      assert keys[0] in keys && keys[1] in keys;
      KeyLessIrreflexive(key);
    }
  }

  lemma {:induction false} HeadcountOfThree(x: ScheduleEntry, y: ScheduleEntry, z: ScheduleEntry, key: GroupKey)
    requires GrgBooking(x, x.assignment.volunteer, key)
    requires GrgBooking(y, y.assignment.volunteer, key)
    requires GrgBooking(z, z.assignment.volunteer, key)
    requires x.assignment.volunteer != y.assignment.volunteer
    requires x.assignment.volunteer != z.assignment.volunteer
    requires y.assignment.volunteer != z.assignment.volunteer
    ensures Headcount([x, y, z], key) == 3
  {
    var rows := [x, y, z];
    var people := set r | r in rows && IsGrg(r) && KeyOf(r) == key :: r.assignment.volunteer;
    assert people == {x.assignment.volunteer, y.assignment.volunteer, z.assignment.volunteer};
    ThreeNames(x.assignment.volunteer, y.assignment.volunteer, z.assignment.volunteer);
    assert Headcount(rows, key) == |people|;
  }

  /** Three different names make a set of three. */
  lemma ThreeNames(a: string, b: string, c: string)
    requires a != b && a != c && b != c
    ensures |{a, b, c}| == 3
  {
    assert {a, b, c} == {a, b} + {c};
  }

  /** Three different volunteers on the same GRG session: one capacity warning
      with count 3, and nothing else. */
  lemma {:induction false} OverbookedGrgSession(x: ScheduleEntry, y: ScheduleEntry, z: ScheduleEntry, key: GroupKey)
    requires GrgBooking(x, x.assignment.volunteer, key)
    requires GrgBooking(y, y.assignment.volunteer, key)
    requires GrgBooking(z, z.assignment.volunteer, key)
    requires x.assignment.volunteer != y.assignment.volunteer
    requires x.assignment.volunteer != z.assignment.volunteer
    requires y.assignment.volunteer != z.assignment.volunteer
    ensures ConflictsOf([x, y, z]) == [Capacity(key.0, key.1, 3)]
  {
    OneGroupConflicts([x, y, z], key);
    HeadcountOfThree(x, y, z, key);
    assert [key][..0] == [];
  }

  /** Rows of different volunteers, all timed and all in one GRG group: the
      only possible warning is that group's. */
  lemma {:induction false} OneGroupConflicts(rows: seq<ScheduleEntry>, key: GroupKey)
    requires rows != [] && DistinctVolunteers(rows)
    requires forall i :: 0 <= i < |rows| ==> rows[i].start.Some? && IsGrg(rows[i]) && KeyOf(rows[i]) == key
    ensures ConflictsOf(rows) == CapacityConflicts(rows, [key])
  {
    AllTimed(rows);
    NoOverlapConflicts(rows, VolunteerNames(rows));
    SingleGroup(rows, key);
  }
}
