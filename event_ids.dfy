/** Event identifiers: a category prefix followed by a zero-padded counter,
    e.g. GRG004 (generate_event_id and type_prefix_map). */
module EventIds {
  import opened Text

  /** The category -> prefix table; any other category falls back to EVT. */
  const TypePrefixes: map<string, string> := map["grg" := "GRG", "course" := "COR", "guiding" := "GUI"]
  const FallbackPrefix: string := "EVT"
  /** Width of the counter in `f"{n:03d}"`. */
  const CounterWidth: nat := 3

  /** `type_prefix_map.get(event_type, "EVT")`. */
  function PrefixFor(eventType: string): (p: string)
    ensures |p| == 3
    ensures forall i :: 0 <= i < |p| ==> 'A' <= p[i] <= 'Z'
  {
    if eventType in TypePrefixes then TypePrefixes[eventType] else FallbackPrefix
  }

  /** The prefix table: GRG, COR and GUI for the three categories, EVT for anything else. */
  lemma PrefixTable(eventType: string)
    ensures PrefixFor("grg") == "GRG" && PrefixFor("course") == "COR" && PrefixFor("guiding") == "GUI"
    ensures eventType !in {"grg", "course", "guiding"} ==> PrefixFor(eventType) == FallbackPrefix
  {
  }

  /** Different categories get different prefixes; only unknown categories share EVT. */
  lemma PrefixesDistinguishCategories(t1: string, t2: string)
    requires PrefixFor(t1) == PrefixFor(t2)
    ensures t1 == t2 || (t1 !in TypePrefixes && t2 !in TypePrefixes)
  {
  }

  // ---------------------------------------------------------------------------
  // Decimal numerals

  /** A non-empty run of digits, as str.isdigit() demands. */
  predicate IsNumeral(s: string) {
    |s| > 0 && forall i :: 0 <= i < |s| ==> IsDigit(s[i])
  }

  /** `int(s)` on a run of digits (leading zeros allowed). */
  function NumeralValue(s: string): nat
    requires forall i :: 0 <= i < |s| ==> IsDigit(s[i])
  {
    if s == [] then 0 else 10 * NumeralValue(s[..|s| - 1]) + DigitValue(s[|s| - 1])
  }

  /** The decimal numeral of n without leading zeros (`str(n)`). */
  function Numeral(n: nat): (s: string)
    ensures IsNumeral(s) && NumeralValue(s) == n
    ensures n > 0 ==> s[0] != '0'
  {
    if n < 10 then [DigitChar(n)]
    else
      var s := Numeral(n / 10) + [DigitChar(n % 10)];
      assert s[..|s| - 1] == Numeral(n / 10);
      s
  }

  /** Left-pads s with '0' up to the given width, as the `0N` format spec does. */
  function ZeroPad(s: string, width: nat): (r: string)
    ensures |r| == if |s| >= width then |s| else width
    ensures r[|r| - |s|..] == s
    ensures forall i :: 0 <= i < |r| - |s| ==> r[i] == '0'
    decreases width - |s|
  {
    if |s| >= width then s
    else
      var r := ZeroPad(['0'] + s, width);
      PadStep(r, s);
      r
  }

  /** Zeros in front of '0' + s are zeros in front of s. */
  lemma PadStep(r: string, s: string)
    requires |r| >= |s| + 1 && r[|r| - |s| - 1..] == ['0'] + s
    requires forall i :: 0 <= i < |r| - |s| - 1 ==> r[i] == '0'
    ensures r[|r| - |s|..] == s
    ensures forall i :: 0 <= i < |r| - |s| ==> r[i] == '0'
  {
    var k := |r| - |s| - 1;
    assert r[k] == (['0'] + s)[0];
    assert r[k + 1..] == r[k..][1..];
  }

  /** A leading zero does not change a numeral's value. */
  lemma {:induction false} LeadingZeroValue(s: string)
    requires forall i :: 0 <= i < |s| ==> IsDigit(s[i])
    ensures NumeralValue(['0'] + s) == NumeralValue(s)
  {
    if s != [] {
      var z := ['0'] + s;
      assert z[..|z| - 1] == ['0'] + s[..|s| - 1];
      LeadingZeroValue(s[..|s| - 1]);
    }
  }

  /** Zero padding keeps a numeral a numeral with the same value. */
  lemma {:induction false} ZeroPadValue(s: string, width: nat)
    requires IsNumeral(s)
    ensures IsNumeral(ZeroPad(s, width)) && NumeralValue(ZeroPad(s, width)) == NumeralValue(s)
    decreases width - |s|
  {
    if |s| < width {
      LeadingZeroValue(s);
      ZeroPadValue(['0'] + s, width);
    }
  }

  // ---------------------------------------------------------------------------
  // The generator

  /** An id carries a counter for this prefix when what follows the prefix is all digits. */
  predicate HasCounter(id: string, prefix: string) {
    prefix <= id && IsNumeral(id[|prefix|..])
  }

  function CounterOf(id: string, prefix: string): nat
    requires HasCounter(id, prefix)
  {
    NumeralValue(id[|prefix|..])
  }

  /** `[eid for eid in existing_ids if eid.startswith(prefix)]`. */
  function StartingWith(ids: seq<string>, prefix: string): (r: seq<string>)
    ensures forall id :: id in r <==> id in ids && prefix <= id
    ensures forall i :: 0 <= i < |r| ==> prefix <= r[i]
  {
    if ids == [] then []
    else
      var rest := StartingWith(ids[..|ids| - 1], prefix);
      var id := ids[|ids| - 1];
      assert ids == ids[..|ids| - 1] + [id];
      if prefix <= id then rest + [id] else rest
  }

  /** `[int(eid[len(prefix):]) for eid in filtered if eid[len(prefix):].isdigit()]`. */
  function Counters(filtered: seq<string>, prefix: string): (nums: seq<nat>)
    requires forall i :: 0 <= i < |filtered| ==> prefix <= filtered[i]
    ensures forall id :: id in filtered && HasCounter(id, prefix) ==> CounterOf(id, prefix) in nums
    ensures forall n :: n in nums ==> exists id :: id in filtered && HasCounter(id, prefix) && CounterOf(id, prefix) == n
  {
    if filtered == [] then []
    else
      var id := filtered[|filtered| - 1];
      assert filtered == filtered[..|filtered| - 1] + [id];
      var rest := Counters(filtered[..|filtered| - 1], prefix);
      if IsNumeral(id[|prefix|..]) then rest + [CounterOf(id, prefix)] else rest
  }

  /** `max(nums)`. */
  function Max(nums: seq<nat>): (m: nat)
    requires nums != []
    ensures m in nums
    ensures forall n :: n in nums ==> n <= m
  {
    if |nums| == 1 then nums[0]
    else
      var m := Max(nums[1..]);
      assert nums == [nums[0]] + nums[1..];
      if nums[0] >= m then nums[0] else m
  }

  /** The counter the next id gets: one past the largest counter in use for the
      prefix, or 1 when there is none. */
  function NextCounter(ids: seq<string>, prefix: string): (next: nat)
    ensures next >= 1
    ensures forall id :: id in ids && HasCounter(id, prefix) ==> CounterOf(id, prefix) < next
    ensures next == 1 || exists id :: id in ids && HasCounter(id, prefix) && CounterOf(id, prefix) == next - 1
  {
    var filtered := StartingWith(ids, prefix);
    if filtered == [] then 1
    else
      var nums := Counters(filtered, prefix);
      if nums == [] then 1 else Max(nums) + 1
  }

  /** `generate_event_id(events, prefix)`: the prefix, then the next counter
      zero-padded to at least three digits. */
  function GenerateEventId(ids: seq<string>, prefix: string): (id: string)
    ensures prefix <= id
    ensures |id| >= |prefix| + CounterWidth
    ensures HasCounter(id, prefix) && CounterOf(id, prefix) == NextCounter(ids, prefix)
    ensures |id| > |prefix| + CounterWidth ==> id[|prefix|] != '0'
  {
    var n := NextCounter(ids, prefix);
    var digits := ZeroPad(Numeral(n), CounterWidth);
    ZeroPadValue(Numeral(n), CounterWidth);
    var id := prefix + digits;
    assert id[|prefix|..] == digits;
    id
  }

  /** A generated id is not among the existing ids. */
  lemma GeneratedIdIsFresh(ids: seq<string>, prefix: string)
    ensures GenerateEventId(ids, prefix) !in ids
  {
  }

  /** Gaps are never filled: the new counter exceeds every counter in use. */
  lemma GeneratedCounterExceedsExisting(ids: seq<string>, prefix: string, old_id: string)
    requires old_id in ids && HasCounter(old_id, prefix)
    ensures CounterOf(old_id, prefix) < CounterOf(GenerateEventId(ids, prefix), prefix)
  {
  }

  /** Ids whose remainder after the prefix is not all digits are ignored:
      adding one changes nothing. */
  lemma NonNumericIdsIgnored(ids: seq<string>, prefix: string, junk: string)
    requires !HasCounter(junk, prefix)
    ensures GenerateEventId(ids + [junk], prefix) == GenerateEventId(ids, prefix)
  {
    NextCounterDetermined(ids + [junk], prefix, NextCounter(ids, prefix));
  }

  /** Generating twice in a row counts up by one. */
  lemma ConsecutiveIdsCountUp(ids: seq<string>, prefix: string)
    ensures NextCounter(ids + [GenerateEventId(ids, prefix)], prefix) == NextCounter(ids, prefix) + 1
  {
    var g := GenerateEventId(ids, prefix);
    AppendTopCounter(ids, prefix, g);
  }

  /** Appending an id whose counter is the next one moves the next counter one further. */
  lemma AppendTopCounter(ids: seq<string>, prefix: string, g: string)
    requires HasCounter(g, prefix) && CounterOf(g, prefix) == NextCounter(ids, prefix)
    ensures NextCounter(ids + [g], prefix) == NextCounter(ids, prefix) + 1
  {
    var n := NextCounter(ids, prefix);
    var more := ids + [g];
    forall id | id in more && HasCounter(id, prefix)
      ensures CounterOf(id, prefix) < n + 1
    {
      if id != g {
        assert id in ids;
      }
    }
    assert g in more;
    NextCounterDetermined(more, prefix, n + 1);
  }

  /** NextCounter's three properties pin it down. */
  lemma NextCounterDetermined(ids: seq<string>, prefix: string, n: nat)
    requires n >= 1
    requires forall id :: id in ids && HasCounter(id, prefix) ==> CounterOf(id, prefix) < n
    requires n == 1 || exists id :: id in ids && HasCounter(id, prefix) && CounterOf(id, prefix) == n - 1
    ensures NextCounter(ids, prefix) == n
  {
    var m := NextCounter(ids, prefix);
    if m != 1 {
      var id :| id in ids && HasCounter(id, prefix) && CounterOf(id, prefix) == m - 1;
      assert m - 1 < n;
    }
    if n != 1 {
      var id :| id in ids && HasCounter(id, prefix) && CounterOf(id, prefix) == n - 1;
      assert n - 1 < m;
    }
  }

  /** With GRG001 and GRG003 in use, the next GRG counter is 4 ... */
  lemma NextCounterAfterGrg003()
    ensures NextCounter(["GRG001", "GRG003"], "GRG") == 4
  {
    var ids := ["GRG001", "GRG003"];
    assert "001"[..2] == "00" && "003"[..2] == "00" && "00"[..1] == "0" && "0"[..0] == "";
    assert NumeralValue("001") == 1 && NumeralValue("003") == 3;
    assert ids[0][3..] == "001" && ids[1][3..] == "003";
    forall id | id in ids && HasCounter(id, "GRG") ensures CounterOf(id, "GRG") < 4 {
      assert id == ids[0] || id == ids[1];
    }
    assert HasCounter(ids[1], "GRG") && CounterOf(ids[1], "GRG") == 3;
    NextCounterDetermined(ids, "GRG", 4);
  }

  /** The id generated when the next counter is known. */
  lemma GeneratedFromCounter(ids: seq<string>, prefix: string, n: nat)
    requires NextCounter(ids, prefix) == n
    ensures GenerateEventId(ids, prefix) == prefix + ZeroPad(Numeral(n), CounterWidth)
  {
  }

  /** ... so the next GRG id is GRG004. */
  lemma NextAfterGrg003()
    ensures GenerateEventId(["GRG001", "GRG003"], "GRG") == "GRG004"
  {
    NextCounterAfterGrg003();
    CounterFourPadded();
    assert "GRG" + "004" == "GRG004";
    GeneratedFromCounter(["GRG001", "GRG003"], "GRG", 4);
  }

  /** Counter 4 prints as 004. */
  lemma CounterFourPadded()
    ensures ZeroPad(Numeral(4), CounterWidth) == "004"
  {
    assert Numeral(4) == "4";
    assert ZeroPad("4", 3) == ZeroPad("04", 3) == "004";
  }
}
