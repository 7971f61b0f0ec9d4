/** What the conflict checker guarantees, and what it misses. */
module ConflictProperties {
  import opened Wrappers
  import opened Schedule
  import opened ConflictDetector

  /** Rows without a start are never looked at: with none timed, there is no warning. */
  lemma {:induction false} UntimedRowsGiveNoConflicts(entries: seq<ScheduleEntry>)
    requires forall i :: 0 <= i < |entries| ==> entries[i].start.None?
    ensures ConflictsOf(entries) == []
  {
  }

  /** All overlap warnings come before all capacity warnings. */
  lemma {:induction false} OverlapsBeforeCapacity(entries: seq<ScheduleEntry>, i: nat, j: nat)
    requires i < j < |ConflictsOf(entries)|
    requires ConflictsOf(entries)[j].Overlap?
    ensures ConflictsOf(entries)[i].Overlap?
  {
    var timed := Timed(entries);
    var o := OverlapConflicts(timed, VolunteerNames(timed));
    var caps := CapacityConflicts(timed, GroupOrder(GrgKeys(timed)));
    assert ConflictsOf(entries) == o + caps;
    OverlapsThenCapacities(o, caps, i, j);
  }

  lemma {:induction false} OverlapsThenCapacities(o: seq<Conflict>, caps: seq<Conflict>, i: nat, j: nat)
    requires forall c :: c in o ==> c.Overlap?
    requires forall c :: c in caps ==> c.Capacity?
    requires i < j < |o + caps| && (o + caps)[j].Overlap?
    ensures (o + caps)[i].Overlap?
  {
    forall k | |o| <= k < |o + caps|
      ensures (o + caps)[k].Capacity?
    {
      assert caps[k - |o|] in caps;
    }
    assert (o + caps)[i] == o[i];
    assert o[i] in o;
  }

  /** An overlap warning comes from the per-volunteer part of the checker. */
  lemma {:induction false} InOverlapPart(entries: seq<ScheduleEntry>, c: Conflict)
    requires c in ConflictsOf(entries) && c.Overlap?
    ensures c in OverlapConflicts(Timed(entries), VolunteerNames(Timed(entries)))
  {
    var timed := Timed(entries);
    var o := OverlapConflicts(timed, VolunteerNames(timed));
    var caps := CapacityConflicts(timed, GroupOrder(GrgKeys(timed)));
    assert ConflictsOf(entries) == o + caps;
    assert c !in caps;
  }

  lemma {:induction false} AdjacentClashMember(name: string, sub: seq<ScheduleEntry>, n: nat, c: Conflict) returns (i: nat)
    requires n <= 1 || n <= |sub|
    requires c in AdjacentClashes(name, sub, n)
    ensures 1 <= i < n
    ensures c.Overlap? && c.volunteer == name && c.earlier == sub[i - 1] && c.later == sub[i]
    ensures Clashes(sub[i - 1], sub[i])
  {
    if c in AdjacentClashes(name, sub, n - 1) {
      i := AdjacentClashMember(name, sub, n - 1, c);
    } else {
      i := n - 1;
    }
  }

  lemma {:induction false} AdjacentClashPresent(name: string, sub: seq<ScheduleEntry>, n: nat, i: nat)
    requires 1 <= i < n <= |sub|
    requires Clashes(sub[i - 1], sub[i])
    ensures Overlap(name, sub[i - 1], sub[i]) in AdjacentClashes(name, sub, n)
  {
    if i < n - 1 {
      AdjacentClashPresent(name, sub, n - 1, i);
    }
  }

  lemma {:induction false} OverlapMember(timed: seq<ScheduleEntry>, names: seq<string>, c: Conflict) returns (k: nat)
    requires c in OverlapConflicts(timed, names)
    ensures k < |names| && c in VolunteerOverlaps(timed, names[k])
  {
    var last := |names| - 1;
    if c in VolunteerOverlaps(timed, names[last]) {
      k := last;
    } else {
      k := OverlapMember(timed, names[..last], c);
      assert names[..last][k] == names[k];
    }
  }

  lemma {:induction false} OverlapPresent(timed: seq<ScheduleEntry>, names: seq<string>, k: nat, c: Conflict)
    requires k < |names|
    requires c in VolunteerOverlaps(timed, names[k])
    ensures c in OverlapConflicts(timed, names)
  {
    var last := |names| - 1;
    if k < last {
      assert names[..last][k] == names[k];
      OverlapPresent(timed, names[..last], k, c);
    }
  }

  /** The bookings of a volunteer are exactly that volunteer's timed rows. */
  lemma {:induction false} BookingIsRow(entries: seq<ScheduleEntry>, name: string, x: ScheduleEntry)
    ensures x in Bookings(Timed(entries), name) <==> x in entries && x.start.Some? && x.assignment.volunteer == name
  {
    var timed := Timed(entries);
    assert x in multiset(Bookings(timed, name)) <==> x in multiset(EntriesOf(timed, name));
  }

  /** Where a warning for a volunteer comes from: a clashing consecutive pair of
      that volunteer's bookings. */
  lemma {:induction false} OverlapSource(entries: seq<ScheduleEntry>, c: Conflict) returns (sub: seq<ScheduleEntry>, i: nat)
    requires c in ConflictsOf(entries) && c.Overlap?
    ensures sub == Bookings(Timed(entries), c.volunteer)
    ensures 1 <= i < |sub| && c.earlier == sub[i - 1] && c.later == sub[i] && Clashes(sub[i - 1], sub[i])
  {
    var timed := Timed(entries);
    var names := VolunteerNames(timed);
    InOverlapPart(entries, c);
    var k := OverlapMember(timed, names, c);
    sub := Bookings(timed, names[k]);
    i := AdjacentClashMember(names[k], sub, |sub|, c);
  }

  /** Every overlap warning is real: two of the volunteer's timed rows, the
      earlier starting no later than the later, which starts before the
      earlier ends. */
  lemma {:induction false} ReportedOverlapIsReal(entries: seq<ScheduleEntry>, c: Conflict)
    requires c in ConflictsOf(entries) && c.Overlap?
    ensures c.earlier in entries && c.later in entries
    ensures c.earlier.assignment.volunteer == c.volunteer == c.later.assignment.volunteer
    ensures c.earlier.start.Some? && c.later.start.Some? && c.earlier.end.Some?
    ensures StartOf(c.earlier) <= StartOf(c.later) < c.earlier.end.value
  {
    var sub, i := OverlapSource(entries, c);
    BookingIsRow(entries, c.volunteer, sub[i - 1]);
    BookingIsRow(entries, c.volunteer, sub[i]);
  }

  /** When the later booking of a warning is itself well formed (it ends after it
      starts), the two bookings overlap. */
  lemma {:induction false} ReportedPairsOverlap(entries: seq<ScheduleEntry>, c: Conflict)
    requires c in ConflictsOf(entries) && c.Overlap?
    requires c.later.end.Some? && StartOf(c.later) < c.later.end.value
    ensures Overlapping(c.earlier, c.later)
  {
    ReportedOverlapIsReal(entries, c);
  }

  /** In a list sorted by start, two distinct overlapping bookings make some
      consecutive pair clash: if bookings p < q overlap, so do p and p + 1. */
  lemma {:induction false} ConsecutiveClash(sub: seq<ScheduleEntry>, x: ScheduleEntry, y: ScheduleEntry) returns (i: nat)
    requires SortedByStart(sub)
    requires x in sub && y in sub && x != y
    requires Overlapping(x, y)
    ensures 1 <= i < |sub| && Clashes(sub[i - 1], sub[i])
  {
    var p :| 0 <= p < |sub| && sub[p] == x;
    var q :| 0 <= q < |sub| && sub[q] == y;
    var lo := if p < q then p else q;
    var hi := if p < q then q else p;
    assert StartOf(sub[lo + 1]) <= StartOf(sub[hi]);
    i := lo + 1;
  }

  /** Checking only consecutive bookings still flags every volunteer who has two
      overlapping bookings. */
  lemma {:induction false} OverlappingVolunteerIsFlagged(entries: seq<ScheduleEntry>, x: ScheduleEntry, y: ScheduleEntry)
    requires x in entries && y in entries && x != y
    requires x.assignment.volunteer == y.assignment.volunteer
    requires Overlapping(x, y)
    ensures exists c :: c in ConflictsOf(entries) && c.Overlap? && c.volunteer == x.assignment.volunteer
  {
    var timed := Timed(entries);
    var name := x.assignment.volunteer;
    var sub := Bookings(timed, name);
    BookingIsRow(entries, name, x);
    BookingIsRow(entries, name, y);
    var i := ConsecutiveClash(sub, x, y);
    AdjacentClashPresent(name, sub, |sub|, i);
    var c := Overlap(name, sub[i - 1], sub[i]);
    var names := VolunteerNames(timed);
    assert x in timed;
    var k :| 0 <= k < |names| && names[k] == name;
    OverlapPresent(timed, names, k, c);
    assert c in ConflictsOf(entries);
  }

  // ---------------------------------------------------------------------------
  // Capacity warnings

  /** The group a capacity warning is about. */
  function WarnedGroup(c: Conflict): GroupKey
    requires c.Capacity?
  {
    (c.eventId, c.date)
  }

  /** Capacity warnings listed in ascending group order. */
  predicate InGroupOrder(cs: seq<Conflict>) {
    forall i, j :: 0 <= i < j < |cs| && cs[i].Capacity? && cs[j].Capacity? ==> KeyLess(WarnedGroup(cs[i]), WarnedGroup(cs[j]))
  }

  lemma {:induction false} CapacityMember(timed: seq<ScheduleEntry>, keys: seq<GroupKey>, c: Conflict) returns (k: nat)
    requires c in CapacityConflicts(timed, keys)
    ensures k < |keys| && Headcount(timed, keys[k]) > GrgCapacity
    ensures c == Capacity(keys[k].0, keys[k].1, Headcount(timed, keys[k]))
  {
    var last := |keys| - 1;
    if c in CapacityConflicts(timed, keys[..last]) {
      k := CapacityMember(timed, keys[..last], c);
      assert keys[..last][k] == keys[k];
    } else {
      k := last;
    }
  }

  lemma {:induction false} CapacityPresent(timed: seq<ScheduleEntry>, keys: seq<GroupKey>, k: nat)
    requires k < |keys| && Headcount(timed, keys[k]) > GrgCapacity
    ensures Capacity(keys[k].0, keys[k].1, Headcount(timed, keys[k])) in CapacityConflicts(timed, keys)
  {
    var last := |keys| - 1;
    if k < last {
      assert keys[..last][k] == keys[k];
      CapacityPresent(timed, keys[..last], k);
    }
  }

  /** A capacity warning is in the checker's output exactly when it names a
      GRG group (event id, date) of the shown rows whose number of distinct
      volunteers exceeds two, and carries that number. */
  lemma {:induction false} CapacityWarningIff(entries: seq<ScheduleEntry>, id: string, date: string, n: nat)
    ensures Capacity(id, date, n) in ConflictsOf(entries) <==>
      && (exists x :: x in entries && x.start.Some? && IsGrg(x) && KeyOf(x) == (id, date))
      && n == Headcount(Timed(entries), (id, date))
      && n > GrgCapacity
  {
    var timed := Timed(entries);
    CapacityWarningsAreCapacityPart(entries, Capacity(id, date, n));
    CapacityPartIff(timed, id, date, n);
    if (id, date) in GrgKeys(timed) {
      var x :| x in timed && IsGrg(x) && KeyOf(x) == (id, date);
      assert x in entries && x.start.Some?;
    }
    if exists x :: x in entries && x.start.Some? && IsGrg(x) && KeyOf(x) == (id, date) {
      var x :| x in entries && x.start.Some? && IsGrg(x) && KeyOf(x) == (id, date);
      assert x in timed;
    }
  }

  /** A capacity warning is among the conflicts exactly when the capacity part has it. */
  lemma CapacityWarningsAreCapacityPart(entries: seq<ScheduleEntry>, w: Conflict)
    requires w.Capacity?
    ensures w in ConflictsOf(entries) <==> w in CapacityConflicts(Timed(entries), GroupOrder(GrgKeys(Timed(entries))))
  {
    var timed := Timed(entries);
    var o := OverlapConflicts(timed, VolunteerNames(timed));
    assert ConflictsOf(entries) == o + CapacityConflicts(timed, GroupOrder(GrgKeys(timed)));
    assert w !in o;
  }

  /** The capacity part warns about a group exactly when it is a GRG group of the
      rows with more volunteers than it takes, and carries their number. */
  lemma CapacityPartIff(timed: seq<ScheduleEntry>, id: string, date: string, n: nat)
    ensures Capacity(id, date, n) in CapacityConflicts(timed, GroupOrder(GrgKeys(timed))) <==>
      (id, date) in GrgKeys(timed) && n == Headcount(timed, (id, date)) && n > GrgCapacity
  {
    var keys := GroupOrder(GrgKeys(timed));
    var w := Capacity(id, date, n);
    if w in CapacityConflicts(timed, keys) {
      var k := CapacityMember(timed, keys, w);
      assert keys[k] == (id, date) && keys[k] in keys;
    }
    if (id, date) in GrgKeys(timed) && n == Headcount(timed, (id, date)) && n > GrgCapacity {
      assert (id, date) in keys;
      var k :| 0 <= k < |keys| && keys[k] == (id, date);
      CapacityPresent(timed, keys, k);
    }
  }

  lemma {:induction false} CapacityWarningsFollowKeys(timed: seq<ScheduleEntry>, keys: seq<GroupKey>)
    requires Ascending(keys)
    ensures InGroupOrder(CapacityConflicts(timed, keys))
  {
    if keys != [] {
      var last := |keys| - 1;
      var front := CapacityConflicts(timed, keys[..last]);
      CapacityWarningsFollowKeys(timed, keys[..last]);
      var r := CapacityConflicts(timed, keys);
      forall i, j | 0 <= i < j < |r| && r[i].Capacity? && r[j].Capacity?
        ensures KeyLess(WarnedGroup(r[i]), WarnedGroup(r[j]))
      {
        if j >= |front| {
          assert r[i] == front[i];
          var k := CapacityMember(timed, keys[..last], front[i]);
          assert keys[..last][k] == keys[k];
          assert r[j] == Capacity(keys[last].0, keys[last].1, Headcount(timed, keys[last]));
        } else {
          assert r[i] == front[i] && r[j] == front[j];
        }
      }
    }
  }

  /** Capacity warnings come in the order of their groups (event id, then date),
      so no group is warned about twice. */
  lemma {:induction false} CapacityWarningsInGroupOrder(entries: seq<ScheduleEntry>, i: nat, j: nat)
    requires i < j < |ConflictsOf(entries)|
    requires ConflictsOf(entries)[i].Capacity? && ConflictsOf(entries)[j].Capacity?
    ensures KeyLess(WarnedGroup(ConflictsOf(entries)[i]), WarnedGroup(ConflictsOf(entries)[j]))
    ensures WarnedGroup(ConflictsOf(entries)[i]) != WarnedGroup(ConflictsOf(entries)[j])
  {
    var timed := Timed(entries);
    var o := OverlapConflicts(timed, VolunteerNames(timed));
    var keys := GroupOrder(GrgKeys(timed));
    var caps := CapacityConflicts(timed, keys);
    assert ConflictsOf(entries) == o + caps;
    CapacityWarningsFollowKeys(timed, keys);
    CapacityOrderAfterOverlaps(o, caps, i, j);
    KeyLessIrreflexive(WarnedGroup(ConflictsOf(entries)[i]));
  }

  lemma {:induction false} CapacityOrderAfterOverlaps(o: seq<Conflict>, caps: seq<Conflict>, i: nat, j: nat)
    requires forall c :: c in o ==> c.Overlap?
    requires InGroupOrder(caps)
    requires i < j < |o + caps| && (o + caps)[i].Capacity? && (o + caps)[j].Capacity?
    ensures KeyLess(WarnedGroup((o + caps)[i]), WarnedGroup((o + caps)[j]))
  {
    forall k | 0 <= k < |o|
      ensures (o + caps)[k].Overlap?
    {
      assert o[k] in o;
    }
    assert (o + caps)[i] == caps[i - |o|] && (o + caps)[j] == caps[j - |o|];
  }
}
