/** The half-hour grid of "HH:MM" choices offered for start and end times
    (time_options, and the end-time list built from it). Times are minutes
    since midnight. */
module TimeGrid {
  import opened Text

  const DefaultStartHour: nat := 8
  const DefaultEndHour: nat := 17
  const StepMinutes: nat := 30
  const MinutesPerDay: nat := 1440

  /** A number below 100 as two digits, as `%H` and `%M` print it. */
  function TwoDigits(n: nat): (t: string)
    requires n < 100
    ensures |t| == 2
  {
    [DigitChar(n / 10), DigitChar(n % 10)]
  }

  /** `strftime("%H:%M")` of a time of day. */
  function ClockText(m: nat): (t: string)
    requires m < MinutesPerDay
    ensures |t| == 5 && t[2] == ':'
    ensures IsDigit(t[0]) && IsDigit(t[1]) && IsDigit(t[3]) && IsDigit(t[4])
    ensures DigitValue(t[0]) * 10 + DigitValue(t[1]) == m / 60
    ensures DigitValue(t[3]) * 10 + DigitValue(t[4]) == m % 60
  {
    TwoDigits(m / 60) + ":" + TwoDigits(m % 60)
  }

  /** How many slots the loop yields: both ends included, none when start > end. */
  function SlotCount(startHour: nat, endHour: nat): nat {
    if startHour <= endHour then 2 * (endHour - startHour) + 1 else 0
  }

  /** The grid as a function of the hours: slot i is startHour:00 plus 30*i minutes. */
  function Grid(startHour: nat, endHour: nat): (g: seq<string>)
    requires startHour <= 23 && endHour <= 23
    ensures |g| == SlotCount(startHour, endHour)
  {
    seq(SlotCount(startHour, endHour),
        i requires 0 <= i < SlotCount(startHour, endHour) => ClockText(startHour * 60 + StepMinutes * i))
  }

  /** The grid runs from startHour:00 to endHour:00 inclusive, and is empty when start > end. */
  lemma GridEnds(startHour: nat, endHour: nat)
    requires startHour <= 23 && endHour <= 23
    ensures var g := Grid(startHour, endHour);
      && (g == [] <==> startHour > endHour)
      && (startHour <= endHour ==> g[0] == ClockText(startHour * 60) && g[|g| - 1] == ClockText(endHour * 60))
  {
    var n := SlotCount(startHour, endHour);
    if startHour <= endHour {
      assert startHour * 60 + StepMinutes * (n - 1) == endHour * 60;
    }
  }

  /** `time_options(start_hour, end_hour)`: step a clock from start to end
      inclusive in 30-minute steps, recording each reading. */
  method TimeOptions(startHour: nat, endHour: nat) returns (times: seq<string>)
    requires startHour <= 23 && endHour <= 23  // datetime() rejects other hours
    ensures times == Grid(startHour, endHour)
  {
    times := [];
    var current := startHour * 60;
    var end := endHour * 60;
    while current <= end
      invariant current == startHour * 60 + StepMinutes * |times|
      invariant |times| <= SlotCount(startHour, endHour)
      invariant forall i :: 0 <= i < |times| ==> times[i] == ClockText(startHour * 60 + StepMinutes * i)
    {
      times := times + [ClockText(current)];
      current := current + StepMinutes;
    }
  }

  /** Two-digit numerals compare as the numbers do. */
  lemma TwoDigitsOrder(a: nat, b: nat)
    requires a < 100 && b < 100
    ensures LexLess(TwoDigits(a), TwoDigits(b)) <==> a < b
    ensures TwoDigits(a) == TwoDigits(b) <==> a == b
  {
    var da, db := TwoDigits(a), TwoDigits(b);
    assert LexLess(da, db) == (da[0] < db[0] || (da[0] == db[0] && LexLess(da[1..], db[1..])));
    assert LexLess(da[1..], db[1..]) == (da[1] < db[1] || (da[1] == db[1] && LexLess(da[2..], db[2..])));
    assert da[2..] == [] && db[2..] == [];
    assert a == 10 * (a / 10) + a % 10 && b == 10 * (b / 10) + b % 10;
    if da == db {
      assert da[0] == db[0] && da[1] == db[1];
    }
  }

  /** Python's ordering of two clock readings agrees with the order of the times. */
  lemma ClockTextOrder(x: nat, y: nat)
    requires x < MinutesPerDay && y < MinutesPerDay
    ensures LexLess(ClockText(x), ClockText(y)) <==> x < y
  {
    var hx, mx, hy, my := x / 60, x % 60, y / 60, y % 60;
    var tx, ty := ":" + TwoDigits(mx), ":" + TwoDigits(my);
    assert ClockText(x) == TwoDigits(hx) + tx && ClockText(y) == TwoDigits(hy) + ty;
    LexLessConcat(TwoDigits(hx), TwoDigits(hy), tx, ty);
    assert tx[1..] == TwoDigits(mx) && ty[1..] == TwoDigits(my);
    assert LexLess(tx, ty) == LexLess(TwoDigits(mx), TwoDigits(my));
    TwoDigitsOrder(hx, hy);
    TwoDigitsOrder(mx, my);
    assert x == 60 * hx + mx && y == 60 * hy + my && mx < 60 && my < 60;
    assert x < y <==> hx < hy || (hx == hy && mx < my);
  }

  /** Slot i of a grid is the reading at startHour:00 plus 30*i minutes, within the day. */
  lemma GridSlot(startHour: nat, endHour: nat, i: nat)
    requires startHour <= 23 && endHour <= 23 && i < SlotCount(startHour, endHour)
    ensures startHour * 60 + StepMinutes * i <= endHour * 60 < MinutesPerDay
    ensures Grid(startHour, endHour)[i] == ClockText(startHour * 60 + StepMinutes * i)
    ensures forall j :: i < j < SlotCount(startHour, endHour) ==> StepMinutes * i < StepMinutes * j
  {
  }

  /** Every grid is strictly increasing in Python's string order. */
  lemma GridStrictlyIncreasing(startHour: nat, endHour: nat)
    requires startHour <= 23 && endHour <= 23
    ensures forall i, j :: 0 <= i < j < |Grid(startHour, endHour)| ==>
              LexLess(Grid(startHour, endHour)[i], Grid(startHour, endHour)[j])
  {
    var g := Grid(startHour, endHour);
    forall i, j | 0 <= i < j < |g| ensures LexLess(g[i], g[j]) {
      SlotsOrdered(startHour, endHour, i, j);
    }
  }

  /** A later slot reads later. */
  lemma SlotsOrdered(startHour: nat, endHour: nat, i: nat, j: nat)
    requires startHour <= 23 && endHour <= 23 && i < j < SlotCount(startHour, endHour)
    ensures LexLess(Grid(startHour, endHour)[i], Grid(startHour, endHour)[j])
  {
    GridSlot(startHour, endHour, i);
    GridSlot(startHour, endHour, j);
    var g := Grid(startHour, endHour);
    ReadingsOrdered(g[i], g[j], startHour * 60 + StepMinutes * i, startHour * 60 + StepMinutes * j);
  }

  /** Readings of an earlier and a later time are in string order. */
  lemma ReadingsOrdered(a: string, b: string, x: nat, y: nat)
    requires x < y < MinutesPerDay && a == ClockText(x) && b == ClockText(y)
    ensures LexLess(a, b)
  {
    ClockTextOrder(x, y);
  }

  /** `time_options()`: 19 slots, 08:00 first, 17:00 last, each 30 minutes after the one before. */
  lemma DefaultGridShape()
    ensures |Grid(DefaultStartHour, DefaultEndHour)| == 19
    ensures Grid(DefaultStartHour, DefaultEndHour)[0] == "08:00"
    ensures Grid(DefaultStartHour, DefaultEndHour)[18] == "17:00"
  {
    var g := Grid(DefaultStartHour, DefaultEndHour);
    assert g[0] == ClockText(480);
    assert g[18] == ClockText(1020);
  }

  /** `[t for t in options if t > start]`. */
  function LaterThan(options: seq<string>, start: string): (r: seq<string>)
    ensures forall t :: t in r <==> t in options && LexLess(start, t)
  {
    if options == [] then []
    else
      var rest := LaterThan(options[..|options| - 1], start);
      var t := options[|options| - 1];
      assert options == options[..|options| - 1] + [t];
      if LexLess(start, t) then rest + [t] else rest
  }

  /** Filtering a list is filtering all but its last entry, then the last entry. */
  lemma LaterThanSnoc(options: seq<string>, start: string)
    requires options != []
    ensures LaterThan(options, start) ==
            LaterThan(options[..|options| - 1], start) +
            (if LexLess(start, options[|options| - 1]) then [options[|options| - 1]] else [])
  {
  }

  /** Extending a slice by one entry. */
  lemma SliceSnoc(s: seq<string>, i: nat, j: nat)
    requires i < j <= |s|
    ensures s[i..j - 1] + [s[j - 1]] == s[i..j]
  {
  }

  /** When exactly the entries after position k are later than start, filtering the
      first n entries keeps those among them after position k. */
  lemma {:induction false} LaterThanAfter(options: seq<string>, start: string, k: nat, n: nat)
    requires forall i :: 0 <= i < |options| ==> (LexLess(start, options[i]) <==> k < i)
    requires n <= |options|
    ensures n <= k ==> LaterThan(options[..n], start) == []
    ensures k < n ==> LaterThan(options[..n], start) == options[k + 1..n]
  {
    if n > 0 {
      LaterThanSnoc(options[..n], start);
      assert options[..n][..n - 1] == options[..n - 1];
      LaterThanAfter(options, start, k, n - 1);
      if k < n - 1 {
        SliceSnoc(options, k + 1, n);
      }
    }
  }

  /** In a strictly increasing list, the entries later than entry k are exactly those after position k. */
  lemma LaterThanInSortedList(options: seq<string>, k: nat, n: nat)
    requires forall i, j :: 0 <= i < j < |options| ==> LexLess(options[i], options[j])
    requires k < n <= |options|
    ensures LaterThan(options[..n], options[k]) == options[k + 1..n]
  {
    forall i | 0 <= i < |options|
      ensures LexLess(options[k], options[i]) <==> k < i
    {
      if i == k {
        LexLessIrreflexive(options[k]);
      } else if i < k && LexLess(options[k], options[i]) {
        LexLessTransitive(options[k], options[i], options[k]);
        LexLessIrreflexive(options[k]);
      }
    }
    LaterThanAfter(options, options[k], k, n);
  }

  /** The end-time choices offered after picking grid slot k are exactly the slots after it. */
  lemma EndTimesFollowStart(startHour: nat, endHour: nat, k: nat)
    requires startHour <= 23 && endHour <= 23
    requires k < |Grid(startHour, endHour)|
    ensures LaterThan(Grid(startHour, endHour), Grid(startHour, endHour)[k]) == Grid(startHour, endHour)[k + 1..]
  {
    var g := Grid(startHour, endHour);
    GridStrictlyIncreasing(startHour, endHour);
    LaterThanInSortedList(g, k, |g|);
    assert g[..|g|] == g;
  }
}
