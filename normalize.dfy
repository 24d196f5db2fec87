/** Turning loose holiday records into strict ones: out-of-range or
    non-integer month and day values invalidate a date predicate, and a
    record left with no date predicate at all is dropped. */
module Normalize {
  import opened HolidayTypes

  predicate ValidDay(d: int) {
    1 <= d <= 31
  }

  /** Accepts exactly the integers that are months. */
  function IsValidMonth(m: Num): (r: bool)
    ensures r <==> exists k: Month :: m == Int(k)
  {
    m.Int? && 1 <= m.value <= 12
  }

  /** Accepts exactly the integers that are days of a month. */
  function IsValidDay(d: Num): (r: bool)
    ensures r <==> exists k: DayOfMonth :: d == Int(k)
  {
    d.Int? && ValidDay(d.value)
  }

  /** Accepts a single-day predicate only when it is tagged "single" and its
      month and day are integers in range; the month and day are kept. */
  function NormalizeSingle(src: Option<DateSingleLoose>): (r: Option<MonthDay>)
    ensures r.Some? <==> (src.Some? && src.value.kind == "single"
      && src.value.month.Int? && 1 <= src.value.month.value <= 12
      && src.value.day.Int? && 1 <= src.value.day.value <= 31)
    ensures r.Some? ==> LooseMonthDay(r.value) == MonthDayLoose(src.value.month, src.value.day)
  {
    if src.None? then None
    else if src.value.kind != "single" then None
    else if !IsValidMonth(src.value.month) then None
    else if !IsValidDay(src.value.day) then None
    else Some(MonthDay(src.value.month.value, src.value.day.value))
  }

  /** Accepts a range only when both bounds are present and all four numbers
      are valid; `inclusive` is passed through, absent or not. */
  function NormalizeRange(src: Option<DateRangeLoose>): (r: Option<DateRange>)
    ensures r.Some? <==> (src.Some? && src.value.start.Some? && src.value.end.Some?
      && IsValidMonth(src.value.start.value.month) && IsValidMonth(src.value.end.value.month)
      && IsValidDay(src.value.start.value.day) && IsValidDay(src.value.end.value.day))
    ensures r.Some? ==> (Some(LooseMonthDay(r.value.start)) == src.value.start
      && Some(LooseMonthDay(r.value.end)) == src.value.end
      && r.value.inclusive == src.value.inclusive)
  {
    if src.None? then None
    else
      var s := src.value.start;
      var e := src.value.end;
      if s.None? || e.None? then None
      else if !IsValidMonth(s.value.month) || !IsValidMonth(e.value.month) then None
      else if !IsValidDay(s.value.day) || !IsValidDay(e.value.day) then None
      else Some(DateRange(
        MonthDay(s.value.month.value, s.value.day.value),
        MonthDay(e.value.month.value, e.value.day.value),
        src.value.inclusive))
  }

  predicate IsValidEntry(e: MonthDayLoose) {
    IsValidMonth(e.month) && IsValidDay(e.day)
  }

  /** The valid multi-day entries, converted, in their original order. */
  function ValidEntries(arr: seq<MonthDayLoose>): (r: seq<MonthDay>)
    ensures |r| <= |arr|
    ensures forall md :: md in r ==> ValidDay(md.day) && LooseMonthDay(md) in arr
    ensures forall e :: e in arr && IsValidEntry(e) ==> MonthDay(e.month.value, e.day.value) in r
  {
    if arr == [] then []
    else
      var last := arr[|arr| - 1];
      var init := arr[..|arr| - 1];
      assert arr == init + [last];
      ValidEntries(init)
        + (if IsValidEntry(last) then [MonthDay(last.month.value, last.day.value)] else [])
  }

  /** Filtering keeps the relative order of the entries. */
  lemma {:induction false} ValidEntriesConcat(a: seq<MonthDayLoose>, b: seq<MonthDayLoose>)
    ensures ValidEntries(a + b) == ValidEntries(a) + ValidEntries(b)
    decreases |b|
  {
    if b == [] {
      assert a + b == a;
    } else {
      var last := b[|b| - 1];
      var step := if IsValidEntry(last) then [MonthDay(last.month.value, last.day.value)] else [];
      assert (a + b)[..|a + b| - 1] == a + b[..|b| - 1];
      ValidEntriesConcat(a, b[..|b| - 1]);
      calc {
        ValidEntries(a + b);
        ValidEntries(a + b[..|b| - 1]) + step;
        (ValidEntries(a) + ValidEntries(b[..|b| - 1])) + step;
        ValidEntries(a) + (ValidEntries(b[..|b| - 1]) + step);
      }
    }
  }

  /** Entries that are all valid survive unchanged. */
  lemma {:induction false} ValidEntriesOfValid(s: seq<MonthDay>)
    requires forall md :: md in s ==> ValidDay(md.day)
    ensures ValidEntries(LooseMonthDays(s)) == s
  {
    if s != [] {
      var init, last := s[..|s| - 1], s[|s| - 1];
      var loose := LooseMonthDays(s);
      assert loose[..|s| - 1] == LooseMonthDays(init);
      assert loose[|s| - 1] == LooseMonthDay(last) && IsValidEntry(LooseMonthDay(last));
      ValidEntriesOfValid(init);
      calc {
        ValidEntries(loose);
        ValidEntries(LooseMonthDays(init)) + [last];
        init + [last];
        s;
      }
    }
  }

  /** The multi-day predicate: absent when the input is absent or empty or
      when no entry is valid, never an empty list. */
  function NormalizedMulti(arr: Option<seq<MonthDayLoose>>): (r: Option<seq<MonthDay>>)
    ensures r.None? <==> arr.None? || ValidEntries(arr.value) == []
    ensures r.Some? ==> r.value != [] && r.value == ValidEntries(arr.value)
  {
    if arr.None? || |arr.value| == 0 then None
    else
      var out := ValidEntries(arr.value);
      if |out| > 0 then Some(out) else None
  }

  method NormalizeMulti(arr: Option<seq<MonthDayLoose>>) returns (r: Option<seq<MonthDay>>)
    ensures r == NormalizedMulti(arr)
  {
    if arr.None? || |arr.value| == 0 {
      return None;
    }
    var items := arr.value;
    var out: seq<MonthDay> := [];
    for i := 0 to |items|
      invariant out == ValidEntries(items[..i])
    {
      var it := items[i];
      assert items[..i + 1] == items[..i] + [it];
      if IsValidMonth(it.month) && IsValidDay(it.day) {
        out := out + [MonthDay(it.month.value, it.day.value)];
      }
    }
    assert items[..|items|] == items;
    r := if |out| > 0 then Some(out) else None;
  }

  /** A strict record as the normalizer leaves it: at least one date
      predicate, every day in range (months are in range by type), and a
      multi list that is never empty. */
  predicate Canonical(h: Holiday) {
    && (h.date.Some? || h.range.Some? || h.multi.Some?)
    && (h.date.Some? ==> ValidDay(h.date.value.day))
    && (h.range.Some? ==> ValidDay(h.range.value.start.day) && ValidDay(h.range.value.end.day))
    && (h.multi.Some? ==> h.multi.value != [] && forall md :: md in h.multi.value ==> ValidDay(md.day))
  }

  /** One record: null when none of the three date predicates survives,
      otherwise the surviving predicates and every other field unchanged. */
  function NormalizeOne(src: HolidayLoose): (r: Option<Holiday>)
    ensures r.None? <==>
      NormalizeSingle(src.date).None? && NormalizeRange(src.range).None? && NormalizedMulti(src.multi).None?
    ensures r.Some? ==> Canonical(r.value)
    ensures r.Some? ==>
      && r.value.date == NormalizeSingle(src.date)
      && r.value.range == NormalizeRange(src.range)
      && r.value.multi == NormalizedMulti(src.multi)
    ensures r.Some? ==>
      && r.value.id == src.id && r.value.title == src.title && r.value.active == src.active
      && r.value.schedule == src.schedule && r.value.display == src.display
      && r.value.content == src.content && r.value.style == src.style
      && r.value.priority == src.priority && r.value.tags == src.tags && r.value.notes == src.notes
  {
    var date := NormalizeSingle(src.date);
    var range := NormalizeRange(src.range);
    var multi := NormalizedMulti(src.multi);
    if date.None? && range.None? && multi.None? then None
    else Some(Holiday(
      src.id, src.title, src.active, date, range, multi,
      src.schedule, src.display, src.content, src.style, src.priority, src.tags, src.notes))
  }

  /** A canonical record survives normalization unchanged. */
  lemma NormalizeOneRoundTrip(h: Holiday)
    requires Canonical(h)
    ensures NormalizeOne(ToLoose(h)) == Some(h)
  {
    var l := ToLoose(h);
    assert NormalizeSingle(l.date) == h.date;
    assert NormalizeRange(l.range) == h.range by {
      if h.range.Some? {
        var r := h.range.value;
        assert l.range == Some(DateRangeLoose(Some(LooseMonthDay(r.start)), Some(LooseMonthDay(r.end)), r.inclusive));
      }
    }
    assert NormalizedMulti(l.multi) == h.multi by {
      if h.multi.Some? {
        ValidEntriesOfValid(h.multi.value);
      }
    }
  }

  /** The surviving normalized records, in input order. */
  function NormalizedList(input: seq<HolidayLoose>): (r: seq<Holiday>)
    ensures |r| <= |input|
    ensures forall h :: h in r ==> Canonical(h)
  {
    if input == [] then []
    else
      var init := input[..|input| - 1];
      var n := NormalizeOne(input[|input| - 1]);
      NormalizedList(init) + (if n.Some? then [n.value] else [])
  }

  /** Every record that survives normalization is in the output. */
  lemma {:induction false} NormalizedListKeepsSurvivors(input: seq<HolidayLoose>, i: nat)
    requires i < |input| && NormalizeOne(input[i]).Some?
    ensures NormalizeOne(input[i]).value in NormalizedList(input)
  {
    var init := input[..|input| - 1];
    if i < |input| - 1 {
      assert input[i] == init[i];
      NormalizedListKeepsSurvivors(init, i);
    }
  }

  /** One more input record adds its normalization, if any, at the end. */
  lemma NormalizedListSnoc(init: seq<HolidayLoose>, last: HolidayLoose)
    ensures NormalizedList(init + [last]) ==
      NormalizedList(init) + (if NormalizeOne(last).Some? then [NormalizeOne(last).value] else [])
  {
    assert (init + [last])[..|init|] == init;
  }

  /** The same step for a list of strict records seen as loose ones. */
  lemma NormalizedStrictListSnoc(l: seq<Holiday>)
    requires l != []
    ensures NormalizedList(ToLooseList(l)) ==
      NormalizedList(ToLooseList(l[..|l| - 1]))
        + (var n := NormalizeOne(ToLoose(l[|l| - 1])); if n.Some? then [n.value] else [])
  {
    assert ToLooseList(l) == ToLooseList(l[..|l| - 1]) + [ToLoose(l[|l| - 1])];
    NormalizedListSnoc(ToLooseList(l[..|l| - 1]), ToLoose(l[|l| - 1]));
  }

  /** Every output record is the normalization of some input record. */
  lemma {:induction false} NormalizedListFromInput(input: seq<HolidayLoose>, h: Holiday)
    requires h in NormalizedList(input)
    ensures exists i :: 0 <= i < |input| && NormalizeOne(input[i]) == Some(h)
  {
    var init := input[..|input| - 1];
    var n := NormalizeOne(input[|input| - 1]);
    if h in NormalizedList(init) {
      NormalizedListFromInput(init, h);
      var i :| 0 <= i < |init| && NormalizeOne(init[i]) == Some(h);
      assert input[i] == init[i];
    } else {
      assert n == Some(h);
    }
  }

  /** Normalization keeps the relative order of the records. */
  lemma {:induction false} NormalizedListConcat(a: seq<HolidayLoose>, b: seq<HolidayLoose>)
    ensures NormalizedList(a + b) == NormalizedList(a) + NormalizedList(b)
    decreases |b|
  {
    if b == [] {
      assert a + b == a;
    } else {
      var n := NormalizeOne(b[|b| - 1]);
      var step := if n.Some? then [n.value] else [];
      assert (a + b)[..|a + b| - 1] == a + b[..|b| - 1];
      assert (a + b)[|a + b| - 1] == b[|b| - 1];
      NormalizedListConcat(a, b[..|b| - 1]);
      calc {
        NormalizedList(a + b);
        NormalizedList(a + b[..|b| - 1]) + step;
        (NormalizedList(a) + NormalizedList(b[..|b| - 1])) + step;
        NormalizedList(a) + (NormalizedList(b[..|b| - 1]) + step);
      }
    }
  }

  /** A list of canonical records is a fixed point of normalization. */
  lemma {:induction false} NormalizedListOfCanonical(l: seq<Holiday>)
    requires forall h :: h in l ==> Canonical(h)
    ensures NormalizedList(ToLooseList(l)) == l
  {
    if l != [] {
      var init := l[..|l| - 1];
      assert ToLooseList(l)[..|l| - 1] == ToLooseList(init);
      NormalizedListOfCanonical(init);
      NormalizeOneRoundTrip(l[|l| - 1]);
      assert l == init + [l[|l| - 1]];
    }
  }

  /** Normalizing an already normalized list changes nothing. */
  lemma NormalizeIdempotent(input: seq<HolidayLoose>)
    ensures NormalizedList(ToLooseList(NormalizedList(input))) == NormalizedList(input)
  {
    NormalizedListOfCanonical(NormalizedList(input));
  }

  /** The list entry point: undefined or empty input gives the empty list. */
  method NormalizeHolidayList(input: Option<seq<HolidayLoose>>) returns (out: seq<Holiday>)
    ensures out == if input.None? then [] else NormalizedList(input.value)
  {
    if input.None? || |input.value| == 0 {
      return [];
    }
    var items := input.value;
    out := [];
    for i := 0 to |items|
      invariant out == NormalizedList(items[..i])
    {
      var item := items[i];
      assert items[..i + 1] == items[..i] + [item];
      var n := NormalizeOne(item);
      if n.Some? {
        out := out + [n.value];
      }
    }
    assert items[..|items|] == items;
  }
}
