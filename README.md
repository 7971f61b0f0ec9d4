# Volunteer booking dashboard: a verified model of its scheduling core

The dashboard keeps three tables:
- volunteers: first name, last name and an optional alias;
- events: id, type, school, name, grade, students, date, start and end time, and the number of volunteers required;
- assignments: which volunteer is booked onto which event.

Five pages read and change these tables. This project models the part of the dashboard that decides things:
- how a new event gets its id (a type prefix and a zero-padded counter: `GRG004`);
- the half-hour grid of start and end times;
- how stored volunteer names are resolved through the roster and joined with their events;
- the Add Event and Add Assignment pages as operations on a repository of tables;
- the conflict checker: overlapping bookings of one volunteer, and GRG sessions with more than two volunteers;
- the "still required" count on the summary and detail pages.

Modules, one per file:
- `Wrappers`: Option, Result and Outcome.
- `Text`: Python's `strip`, `lower`, `isdigit` and string ordering.
- `EventIds`, `TimeGrid`.
- `Schedule`: the records, the name map and the join.
- `ConflictDetector`: the checker and the functions that specify it.
- `ConflictProperties` and `ConflictScenarios`: what the checker guarantees, and worked examples.
- `Reconciliation`, and `Store`, whose class `Repository` holds the tables.

Conventions:
- Times of day are minutes after midnight.
- Parsing a date and time into an instant (`pd.to_datetime(..., errors='coerce')`) is a parameter `parse: string -> Option<int>`. `None` stands for NaT.
- The conflict checker receives the rows the dashboard shows after its filters.

Where the code differs from what one might expect, the model follows the code:
- Add Assignment does not check that the chosen event id exists.
- Add Event does not check that the end time is after the start time. The time picker offers only later times (`TimeGrid.EndTimesFollowStart`), but when the start is the last slot, 17:00, it offers none: the end selectbox then yields no value and the event is stored without an end time.

The conflict checker compares consecutive bookings only. `ConflictProperties.OverlappingVolunteerIsFlagged` proves that it still warns every volunteer who has two overlapping bookings. It just does not list every overlapping pair, as `ConflictScenarios.NestedBookingMissed` shows.

## Model

| member | source | states |
|---|---|---|
| Text.Strip | streamlit_dashboard.py:43 | `strip()` never lengthens a string and leaves no whitespace at either end |
| Text.TrimStartSpec | streamlit_dashboard.py:43 | dropping leading whitespace removes exactly a whitespace prefix, and what is left is empty or starts with a non-space |
| Text.TrimEndSpec | streamlit_dashboard.py:43 | dropping trailing whitespace removes exactly a whitespace suffix, and what is left is empty or ends with a non-space |
| Text.StripEmptyIffBlank | streamlit_dashboard.py:194 | `not s.strip()` holds exactly when every character of s is whitespace |
| Text.StripIdempotent | streamlit_dashboard.py:43 | stripping twice is stripping once |
| Text.StripUnpadded | streamlit_dashboard.py:15 | a string with no whitespace at either end is left unchanged |
| Text.Lower | streamlit_dashboard.py:153 | `str.lower()` keeps the length, leaves no upper-case letter, shifts each upper-case letter to its lower-case partner and keeps every other character |
| Schedule.FullName | streamlit_dashboard.py:15 | the full name is the stripped first name, a space and the stripped last name; with both parts non-blank it has no outer whitespace |
| Text.LexLessIrreflexive | streamlit_dashboard.py:188 | no string is less than itself in Python's order |
| Text.LexLessTransitive | streamlit_dashboard.py:188 | Python's string order is transitive |
| Text.LexLessTotal | streamlit_dashboard.py:154 | any two different strings are ordered one way or the other |
| Text.LexLessConcat | streamlit_dashboard.py:188 | behind equal-length prefixes, the prefixes decide the order unless they are equal |
| EventIds.PrefixFor | streamlit_dashboard.py:197 | the prefix `type_prefix_map.get(type, "EVT")` is three upper-case letters |
| EventIds.PrefixTable | streamlit_dashboard.py:69-73 | grg gives GRG, course gives COR, guiding gives GUI, and any other type gives EVT |
| EventIds.PrefixesDistinguishCategories | streamlit_dashboard.py:69-73 | two types share a prefix only when they are equal or both unknown |
| EventIds.StartingWith | streamlit_dashboard.py:78 | keeps exactly the existing ids that start with the prefix |
| EventIds.Counters | streamlit_dashboard.py:82 | the counters are exactly the numeric remainders of the kept ids; ids with non-digit remainders contribute nothing |
| EventIds.Max | streamlit_dashboard.py:83 | `max(nums)` is in nums and bounds every element |
| EventIds.NextCounter | streamlit_dashboard.py:79-83 | the next counter is at least 1; it exceeds every counter in use; it is 1 or one past a counter in use |
| EventIds.NextCounterDetermined | streamlit_dashboard.py:79-83 | those three properties fix the next counter uniquely |
| EventIds.Numeral | streamlit_dashboard.py:84 | `str(n)` is a digit string with value n and no leading zero |
| EventIds.ZeroPad | streamlit_dashboard.py:84 | `:03d` padding: length max(len, 3), the digits at the end, zeros in front |
| EventIds.PadStep | streamlit_dashboard.py:84 | adding one zero in front of a padded numeral keeps the digits at the end and zeros in front |
| EventIds.ZeroPadValue | streamlit_dashboard.py:84 | padding keeps a numeral's value |
| EventIds.LeadingZeroValue | streamlit_dashboard.py:84 | a leading zero does not change a numeral's value |
| EventIds.GenerateEventId | streamlit_dashboard.py:76-84 | the id is the prefix and at least 3 digits; its counter is the next counter; beyond 3 digits there is no leading zero |
| EventIds.GeneratedIdIsFresh | streamlit_dashboard.py:76-84 | a generated id is never among the existing ids |
| EventIds.GeneratedCounterExceedsExisting | streamlit_dashboard.py:82-83 | gaps are not reused: the new counter exceeds every counter in use for the prefix |
| EventIds.NonNumericIdsIgnored | streamlit_dashboard.py:82 | adding an id whose remainder is not all digits does not change the generated id |
| EventIds.ConsecutiveIdsCountUp | streamlit_dashboard.py:76-84 | generating, storing and generating again counts up by exactly one |
| EventIds.AppendTopCounter | streamlit_dashboard.py:82-83 | storing an id that carries the next counter moves the next counter one further |
| EventIds.NextCounterAfterGrg003 | streamlit_dashboard.py:79-83 | with GRG001 and GRG003 stored, the next GRG counter is 4 |
| EventIds.GeneratedFromCounter | streamlit_dashboard.py:84 | the id is the prefix followed by the zero-padded next counter |
| EventIds.CounterFourPadded | streamlit_dashboard.py:84 | counter 4 prints as 004 |
| EventIds.NextAfterGrg003 | streamlit_dashboard.py:76-84 | with GRG001 and GRG003 stored, the next GRG id is GRG004 |
| TimeGrid.ClockText | streamlit_dashboard.py:64 | `strftime("%H:%M")` gives five characters, two digits, a colon and two digits, reading the hour and the minute of the time |
| TimeGrid.Grid | streamlit_dashboard.py:59-66 | the grid has one slot per half hour from the start hour to the end hour, both included |
| TimeGrid.GridEnds | streamlit_dashboard.py:59-66 | the grid is empty exactly when the start hour is after the end hour; otherwise it runs from start hour:00 to end hour:00 |
| TimeGrid.TimeOptions | streamlit_dashboard.py:59-66 | the loop returns the grid: slot i is start hour plus 30·i minutes, both ends included, empty when start > end |
| TimeGrid.TwoDigitsOrder | streamlit_dashboard.py:64 | two-digit numerals compare as the numbers do and are equal only for equal numbers |
| TimeGrid.ClockTextOrder | streamlit_dashboard.py:188 | comparing two "HH:MM" texts as strings agrees with comparing the times |
| TimeGrid.GridStrictlyIncreasing | streamlit_dashboard.py:59-66 | every grid is strictly increasing in string order |
| TimeGrid.GridSlot | streamlit_dashboard.py:59-66 | slot i reads start hour plus 30·i minutes, which is still within the day, and later slots are later times |
| TimeGrid.SlotsOrdered | streamlit_dashboard.py:59-66 | an earlier slot is less than a later slot in string order |
| TimeGrid.ReadingsOrdered | streamlit_dashboard.py:188 | the readings of an earlier and a later time of day compare in that order as strings |
| TimeGrid.DefaultGridShape | streamlit_dashboard.py:59 | the default grid has 19 slots, from 08:00 to 17:00 |
| TimeGrid.LaterThan | streamlit_dashboard.py:188 | the end-time filter keeps exactly the options later than the start |
| TimeGrid.LaterThanSnoc | streamlit_dashboard.py:188 | filtering a list is filtering all but its last entry, then the last entry |
| TimeGrid.SliceSnoc | streamlit_dashboard.py:188 | a slice extended by the next entry is the longer slice |
| TimeGrid.LaterThanAfter | streamlit_dashboard.py:188 | when exactly the entries after position k are later than the start, the filter keeps exactly those |
| TimeGrid.LaterThanInSortedList | streamlit_dashboard.py:188 | in a strictly increasing list, the entries later than entry k are exactly those after it |
| TimeGrid.EndTimesFollowStart | streamlit_dashboard.py:187-189 | the end choices after picking slot k are exactly the slots after k; for the last slot there are none |
| Schedule.LastWithKey | streamlit_dashboard.py:41-42 | none exactly when no roster row has the key; otherwise a row with the key and no later row has it |
| Schedule.NameMap | streamlit_dashboard.py:41-42 | the keys are exactly the roster keys, and each maps to the full name of the last row filed under it (`to_dict`) |
| Schedule.NameMapHasRosterKeys | streamlit_dashboard.py:41-42 | every roster key (the alias, else the full name) is a key of the name map |
| Schedule.NameMapKeysFromRoster | streamlit_dashboard.py:41-42 | every key of the name map is a roster key, mapped to the full name of a volunteer filed under it |
| Schedule.NameMapFromRoster | streamlit_dashboard.py:41-42 | the name map's keys are exactly the roster keys, each mapped to a matching full name |
| Schedule.NameMapLastWins | streamlit_dashboard.py:41-42 | with duplicate keys, the last roster row wins (`to_dict`) |
| Schedule.ResolveName | streamlit_dashboard.py:43 | a resolved name is either the raw name or a full name from the map |
| Schedule.ResolveAssignments | streamlit_dashboard.py:43 | one row per stored row with its event id; a name that strips to a roster key becomes the full name of the last roster row with that key, any other name is kept as it was |
| Schedule.ResolveThroughRoster | streamlit_dashboard.py:43 | a name that strips to a roster key resolves to that volunteer's full name (last row with the key) |
| Schedule.ResolveUnknownKeepsRaw | streamlit_dashboard.py:43 | a name matching no key is kept as it was, unstripped (`fillna`) |
| Schedule.ResolvedNameIsKnownOrRaw | streamlit_dashboard.py:43 | a resolved name is a roster full name or the raw value |
| Schedule.ResolutionStableAcrossReloads | streamlit_dashboard.py:41-43 | when every volunteer has both name parts and no roster key equal to a full name belongs to a different full name, resolving an already resolved name (as the next load does) changes nothing |
| Schedule.EventsWithId | streamlit_dashboard.py:44 | the events matching an id are exactly those carrying it, and none when no event does |
| Schedule.JoinOne | streamlit_dashboard.py:44-50 | an assignment gives at least one joined row, and every row carries that assignment |
| Schedule.Join | streamlit_dashboard.py:44 | the left merge has at least one row per assignment |
| Schedule.JoinOneJoinedFrom | streamlit_dashboard.py:44-50 | each row's event carries the assignment's id; rows without an event occur only when no event has it; times are the parsed date and time |
| Schedule.JoinRowsJoinedFrom | streamlit_dashboard.py:44-50 | every joined row comes from a stored assignment and is joined correctly |
| Schedule.JoinKeepsEveryAssignment | streamlit_dashboard.py:44 | a left merge drops no assignment |
| Schedule.AtMostOneEventWithId | streamlit_dashboard.py:44 | with unique ids, at most one event matches an id |
| Schedule.JoinOneRowPerAssignment | streamlit_dashboard.py:44 | with unique event ids, the join has exactly one row per assignment, in assignment order |
| Schedule.RowsLineUp | streamlit_dashboard.py:44 | rows in line with all assignments but the last, plus one row for the last, are in line with all of them |
| Schedule.JoinAfterAppend | streamlit_dashboard.py:44 | appending an assignment appends its rows and leaves the earlier rows as they were |
| ConflictDetector.Timed | streamlit_dashboard.py:130-133 | keeps exactly the rows with a start instant (a NaT start fails the date comparison); the date bounds themselves, and the other filters, are applied before the rows reach the model |
| ConflictDetector.VolunteerNames | streamlit_dashboard.py:144 | `unique()` lists every volunteer of the rows, only those, each once, in order of first appearance |
| ConflictDetector.NamesSnoc | streamlit_dashboard.py:144 | one more row keeps every earlier name and its position, and adds its volunteer at the end when new |
| ConflictDetector.NameOrderSnoc | streamlit_dashboard.py:144 | appending a row keeps the names in order of first appearance |
| ConflictDetector.OccursBeforeSnoc | streamlit_dashboard.py:144 | a volunteer seen before a position stays seen when a row is appended |
| ConflictDetector.AppendNewName | streamlit_dashboard.py:144 | appending a name not yet listed keeps the names distinct |
| ConflictDetector.Clashes | streamlit_dashboard.py:149 | a booking without an end never clashes; for two well-formed bookings in start order, clashing is exactly overlapping |
| ConflictDetector.EntriesOf | streamlit_dashboard.py:145 | selects exactly the volunteer's rows |
| ConflictDetector.InsertByStart | streamlit_dashboard.py:145 | inserting into a start-sorted list keeps it sorted and adds exactly the element |
| ConflictDetector.ConsSorted | streamlit_dashboard.py:145 | an element starting no later than a sorted list can go in front |
| ConflictDetector.InsertedAfterHead | streamlit_dashboard.py:145 | what is inserted behind the head of a sorted list starts no earlier than the head |
| ConflictDetector.SortByStart | streamlit_dashboard.py:145 | `sort_values(by="datetime_start")` is sorted and a permutation of its input |
| ConflictDetector.AdjacentClashes | streamlit_dashboard.py:146-151 | every entry is an overlap warning for the named volunteer about a pair that clashes |
| ConflictDetector.OverlapConflicts | streamlit_dashboard.py:144-151 | every entry is an overlap warning for a listed volunteer about a pair that clashes |
| ConflictDetector.IsGrg | streamlit_dashboard.py:153 | a row counts as GRG exactly when its event's type is "grg" in any mix of letter case |
| ConflictDetector.LowerIsGrg | streamlit_dashboard.py:153 | `lower() == "grg"` holds exactly for g, r, g each in either case |
| ConflictDetector.GrgKeys | streamlit_dashboard.py:153-154 | the keys are exactly the (event id, date) pairs of the GRG rows |
| ConflictDetector.KeyLessIrreflexive | streamlit_dashboard.py:154 | the groupby key order is irreflexive |
| ConflictDetector.KeyLessTransitive | streamlit_dashboard.py:154 | the groupby key order is transitive |
| ConflictDetector.KeyLessTotal | streamlit_dashboard.py:154 | the groupby key order is total |
| ConflictDetector.InsertKey | streamlit_dashboard.py:154 | inserting a key keeps the group list strictly ascending, with exactly the old keys and the new one |
| ConflictDetector.GroupOrder | streamlit_dashboard.py:154 | `groupby` visits each group once, in ascending key order |
| ConflictDetector.Headcount | streamlit_dashboard.py:154 | a group's `volunteer.nunique()` is positive exactly for the keys of GRG rows |
| ConflictDetector.CapacityConflicts | streamlit_dashboard.py:155-158 | every entry is a capacity warning whose count is above the limit of 2 |
| ConflictDetector.ConflictsOf | streamlit_dashboard.py:141-158 | every warning is an overlap of a clashing pair or a capacity warning with more than 2 volunteers |
| ConflictDetector.ScanBookings | streamlit_dashboard.py:146-151 | the inner loop returns one warning per consecutive pair where the earlier end is after the later start, in order |
| ConflictDetector.ScanOverlaps | streamlit_dashboard.py:144-151 | the volunteer loop returns the overlap warnings of each volunteer in order of first appearance |
| ConflictDetector.ScanCapacity | streamlit_dashboard.py:153-158 | the group loop returns a warning with the count for each group with more than two volunteers |
| ConflictDetector.FindConflicts | streamlit_dashboard.py:141-158 | the checker's output is the specification `ConflictsOf`: overlap warnings, then capacity warnings |
| ConflictProperties.UntimedRowsGiveNoConflicts | streamlit_dashboard.py:130-158 | rows without a start instant give no warnings at all |
| ConflictProperties.OverlapsBeforeCapacity | streamlit_dashboard.py:141-158 | every overlap warning comes before every capacity warning |
| ConflictProperties.OverlapsThenCapacities | streamlit_dashboard.py:150-157 | in overlaps followed by capacity warnings, anything before an overlap is an overlap |
| ConflictProperties.InOverlapPart | streamlit_dashboard.py:144-151 | an overlap warning comes from the volunteer loop |
| ConflictProperties.AdjacentClashMember | streamlit_dashboard.py:146-151 | every warning of the inner loop names a consecutive pair that clashes |
| ConflictProperties.AdjacentClashPresent | streamlit_dashboard.py:146-151 | every consecutive clashing pair is warned about |
| ConflictProperties.OverlapMember | streamlit_dashboard.py:144-151 | every overlap warning comes from one volunteer's scan |
| ConflictProperties.OverlapPresent | streamlit_dashboard.py:144-151 | every volunteer's warnings appear in the output |
| ConflictProperties.BookingIsRow | streamlit_dashboard.py:145 | a volunteer's sorted bookings are exactly that volunteer's timed rows |
| ConflictProperties.OverlapSource | streamlit_dashboard.py:144-151 | an overlap warning names two consecutive bookings of its volunteer that clash |
| ConflictProperties.ReportedOverlapIsReal | streamlit_dashboard.py:144-151 | a warning names two shown, timed rows of its volunteer, with the earlier start ≤ the later start < the earlier end |
| ConflictProperties.ReportedPairsOverlap | streamlit_dashboard.py:149 | when the later booking is well formed, the two warned bookings really overlap |
| ConflictProperties.ConsecutiveClash | streamlit_dashboard.py:145-149 | any overlapping pair in a start-sorted list forces some consecutive pair to clash |
| ConflictProperties.OverlappingVolunteerIsFlagged | streamlit_dashboard.py:144-151 | a volunteer with two different overlapping bookings always gets at least one warning |
| ConflictProperties.CapacityMember | streamlit_dashboard.py:155-158 | every capacity warning names a group over capacity with its count |
| ConflictProperties.CapacityPresent | streamlit_dashboard.py:155-158 | every group over capacity is warned about |
| ConflictProperties.CapacityPartIff | streamlit_dashboard.py:153-158 | a capacity warning (id, date, n) appears iff (id, date) is a GRG group, n is its number of distinct volunteers, and n > 2 |
| ConflictProperties.CapacityWarningIff | streamlit_dashboard.py:153-158 | the same holds for the whole output, stated over the shown rows |
| ConflictProperties.CapacityWarningsAreCapacityPart | streamlit_dashboard.py:153-158 | a capacity warning is in the output exactly when it is in the capacity part |
| ConflictProperties.CapacityWarningsFollowKeys | streamlit_dashboard.py:154-157 | capacity warnings follow the ascending key order |
| ConflictProperties.CapacityWarningsInGroupOrder | streamlit_dashboard.py:154-157 | in the output, capacity warnings are in strictly ascending (event id, date) order, so no group is warned twice |
| ConflictProperties.CapacityOrderAfterOverlaps | streamlit_dashboard.py:154-157 | putting overlap warnings in front keeps the capacity warnings' order |
| ConflictScenarios.OneVolunteerConflicts | streamlit_dashboard.py:141-158 | for one volunteer's timed, non-GRG rows, the output is that volunteer's overlap warnings |
| ConflictScenarios.OneVolunteerWarnings | streamlit_dashboard.py:144-151 | for one volunteer, the output is the consecutive clashes of the rows in start order |
| ConflictScenarios.SortKeepsSorted | streamlit_dashboard.py:145 | sorting bookings whose starts strictly increase changes nothing (ties, whose order pandas does not fix, are not relied on) |
| ConflictScenarios.InsertAtEnd | streamlit_dashboard.py:145 | a booking starting strictly later than all others goes to the end |
| ConflictScenarios.SortsPair | streamlit_dashboard.py:145 | two bookings listed later one first are swapped |
| ConflictScenarios.TwoOverlappingBookingsOneWarning | streamlit_dashboard.py:141-158 | 10:00-11:00 and 10:30-11:30 of one volunteer give exactly one warning, naming the two bookings in start order |
| ConflictScenarios.NestedBookingMissed | streamlit_dashboard.py:146-151 | 09:00-17:00, 10:00-11:00 and 12:00-13:00: the long booking overlaps the third, but only the first pair is warned about |
| ConflictScenarios.SoloNoClash | streamlit_dashboard.py:146 | a volunteer with at most one booking gets no overlap warning |
| ConflictScenarios.NoOverlapConflicts | streamlit_dashboard.py:144-151 | rows of pairwise different volunteers give no overlap warnings |
| ConflictScenarios.SingleGroup | streamlit_dashboard.py:154 | rows all in one GRG group form exactly that group |
| ConflictScenarios.HeadcountOfThree | streamlit_dashboard.py:154 | three different volunteers on one GRG session count 3 |
| ConflictScenarios.OverbookedGrgSession | streamlit_dashboard.py:153-158 | three different volunteers on one GRG session give exactly one warning, with count 3 |
| ConflictScenarios.OneGroupConflicts | streamlit_dashboard.py:141-158 | different volunteers all in one GRG group get only that group's capacity warning |
| Reconciliation.StillRequired | streamlit_dashboard.py:340-341 | the count is never negative and never below required − assigned; it is 0 exactly when assigned ≥ required, and otherwise the difference |
| Reconciliation.GroupSizes | streamlit_dashboard.py:336 | the per-event counts have an entry exactly for the event ids that have assignments |
| Reconciliation.AssignedFrom | streamlit_dashboard.py:337 | `map(assigned_counts).fillna(0)` is the number of assignments for the event, 0 exactly when it has none |
| Reconciliation.BookedFor | streamlit_dashboard.py:385 | the booked list holds exactly the volunteers assigned to the event |
| Reconciliation.Summary | streamlit_dashboard.py:336-341 | one row per event, with its id and requirement, assigned = the number of assignments for it, and still required = max(required − assigned, 0) |
| Reconciliation.FirstWithId | streamlit_dashboard.py:364-369 | none exactly when no event has the id, otherwise the first event that has it |
| Reconciliation.EventDetail | streamlit_dashboard.py:384-388 | none exactly when no event has the id ("not found"); otherwise the first event with the id, its booked volunteers, assigned = their number, still required = max(required − assigned, 0) |
| Reconciliation.GroupSizeIsBookedCount | streamlit_dashboard.py:336-337 | the summary's `groupby().size()` with `fillna(0)` equals the detail page's count of booked names |
| Reconciliation.SummaryAgreesWithDetail | streamlit_dashboard.py:336-341 | for an event whose id no earlier event has, the summary row and the detail page agree on assigned and still required |
| Reconciliation.AssignmentReducesShortfall | streamlit_dashboard.py:384-388 | one more assignment raises the count by one and lowers still required by one, down to 0 |
| Reconciliation.OtherAssignmentsIgnored | streamlit_dashboard.py:385 | assignments to other events do not change an event's booked list |
| Reconciliation.OverAssignedEvent | streamlit_dashboard.py:340-341 | 5 assignments for 2 required show 5 assigned and 0 still required |
| Reconciliation.AllBooked | streamlit_dashboard.py:385-386 | when every assignment is for the event, all of them are counted |
| Store.SubmittedForm | streamlit_dashboard.py:175-184 | a GRG submits "GRG Session", an empty school and grade, and 0 students, so its name is never blank; any other type submits what was typed |
| Store.NewEvent | streamlit_dashboard.py:197-210 | the new event has an id no stored event has and the form's fields |
| Store.Repository.Load | streamlit_dashboard.py:37-43 | loading keeps the roster and the events, and stores the assignments with their names resolved |
| Store.Repository.AddEvent | streamlit_dashboard.py:167-213 | the typed form is submitted as `SubmittedForm`; a blank name is rejected and nothing changes; otherwise exactly one event with the form's fields and a fresh id is appended; a GRG is never refused; unique ids stay unique |
| Store.Repository.AddAssignment | streamlit_dashboard.py:216-283 | no events, or no volunteers, or a booked pair: refused with that reason and nothing changes; otherwise the booking succeeds and exactly the pair is appended; no duplicate pairs stays true |
| Store.Repository.Conflicts | streamlit_dashboard.py:141-158 | the warnings are the checker's specification applied to the joined tables |
| Store.NewEventKeepsIdsUnique | streamlit_dashboard.py:197-211 | appending a new event to a table with unique ids keeps them unique |
| Store.GeneratedIdNotInTable | streamlit_dashboard.py:76-84 | the id generated from the id column matches no stored event |
| Store.AppendKeepsUniqueIds | streamlit_dashboard.py:211 | appending an event with an unused id keeps ids unique |
| Store.NewEventIdShape | streamlit_dashboard.py:197-198 | a new id is the type's prefix followed by at least three digits; a GRG id starts with GRG |
| Store.AppendKeepsNoDuplicates | streamlit_dashboard.py:273-281 | appending an unbooked pair keeps the bookings free of duplicates |

## Left out

- Streamlit rendering is not modelled: widgets, page selection, messages and their wording, and the `display` column.
- The CSV files are not modelled. Reading them (and the empty tables when a file is missing) is the `Load` constructor's parameters; writing them back after each change is left out.
- Date parsing (`pd.to_datetime` with `errors='coerce'`) is the parameter `parse`; the formats it accepts are not modelled.
- The form's date (`date.strftime`) and the required-volunteer input are plain form fields; their widget bounds are not modelled.
- Store.EventForm: the end time is a string field, so the missing end time (the selectbox's `None`) that results from choosing 17:00 as the start is not told apart from a chosen one; `TimeGrid.EndTimesFollowStart` shows that no end time is offered in that case.
- The dashboard's filters are not modelled:
  - volunteer, type and date range (lines 93-133);
  - the summary page's type and date filters and its sort (lines 310-346).

  The conflict checker takes the rows after these filters; `Summary` reports every event, in stored order.
- The sort of the displayed table (line 138) is left out; it does not affect the checker.
- ConflictDetector.SortByStart: among bookings with equal start, pandas' sort order is unspecified. The model keeps input order there (a stable sort).
- The event picker on Add Assignment and Event Details is not modelled: building the display strings, mapping them back to ids, and `split(" - ")`. The event id and the volunteer are parameters.
- The code never checks that the chosen event id exists. The model follows the code.
- Text.Strip and Text.Lower cover ASCII characters only (`str.strip`, `str.lower`). Unicode whitespace and case folding are not modelled.
- EventIds.Counters: `str.isdigit` is modelled on ASCII digits only. A Unicode digit such as "²" makes the original `int()` raise an exception; that failure is not modelled.
- Missing values are not modelled:
  - NaN event ids (dropped by `dropna`, line 77);
  - NaN volunteer names and NaN event types;
  - assignments whose event id is NaN.

  Ids and names are plain strings. A row with no matching event has no type, so it is not a GRG row.
- Conflict messages keep the two bookings rather than the formatted text (lines 151 and 158).
- Dead code is not part of this model: the commented-out lines 228-230, 249, 252 and 285-302.
