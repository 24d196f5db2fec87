/** Deciding whether one holiday record applies at a reference instant, and
    choosing the single winner among all records that do. */
module Match {
  import opened HolidayTypes
  import opened JsText

  /** Converts the platform weekday (Sunday = 0) to the ISO weekday (Monday = 1). */
  function JsDayToIso(d: JsWeekday): (r: IsoWeekday)
    ensures d == 0 ==> r == 7
    ensures 1 <= d <= 6 ==> r == d
  {
    ((d + 6) % 7) + 1
  }

  /** The range check on an hour and a minute already read from the string. */
  function HourMinuteToMinutes(h: nat, min: nat): (r: Option<int>)
    ensures r.Some? <==> h <= 23 && min <= 59
    ensures r.Some? ==> r.value == h * 60 + min && 0 <= r.value <= 1439
  {
    // Digit strings never read as NaN or as a negative number, so only the
    // upper bounds of the check can fail.
    if h > 23 || min > 59 then None else Some(h * 60 + min)
  }

  /** The pattern `^(\d{1,2}):(\d{2})$` and the range checks, on a string
      that is already trimmed. */
  function ParseTrimmedHm(t: string): (r: Option<int>)
    ensures r.Some? ==> 0 <= r.value <= 1439
  {
    if |t| == 4 && IsDigit(t[0]) && t[1] == ':' && IsDigit(t[2]) && IsDigit(t[3]) then
      HourMinuteToMinutes(DigitValue(t[0]), 10 * DigitValue(t[2]) + DigitValue(t[3]))
    else if |t| == 5 && IsDigit(t[0]) && IsDigit(t[1]) && t[2] == ':' && IsDigit(t[3]) && IsDigit(t[4]) then
      HourMinuteToMinutes(10 * DigitValue(t[0]) + DigitValue(t[1]), 10 * DigitValue(t[3]) + DigitValue(t[4]))
    else
      None
  }

  /** "HH:mm" to minutes since midnight. The trimmed string must be one or two
      digits, a colon and exactly two digits; the hour must be at most 23 and
      the minute at most 59. */
  function ParseHmToMinutes(hm: string): (r: Option<int>)
    ensures r.Some? ==> 0 <= r.value <= 1439
  {
    ParseTrimmedHm(Trim(hm))
  }

  /** A value is parsed only from a trimmed string of the form `hs:ms` with one
      or two hour digits and two minute digits, both in range. */
  lemma ParseHmSound(hm: string)
    requires ParseHmToMinutes(hm).Some?
    ensures exists hs: string, ms: string ::
      && Trim(hm) == hs + ":" + ms
      && 1 <= |hs| <= 2 && |ms| == 2 && AllDigits(hs) && AllDigits(ms)
      && DecimalValue(hs) <= 23 && DecimalValue(ms) <= 59
      && ParseHmToMinutes(hm).value == 60 * DecimalValue(hs) + DecimalValue(ms)
  {
    var t := Trim(hm);
    var k := if t[1] == ':' then 1 else 2;
    var hs, ms := t[..k], t[k + 1..];
    assert t == hs + ":" + ms;
    assert AllDigits(hs) && AllDigits(ms);
  }

  /** A trimmed string parses only when it has the pattern's shape, and then
      to what the range check makes of its two fields. */
  lemma ParseTrimmedHmSound(t: string)
    ensures ParseTrimmedHm(t).Some? ==> exists hs: string, ms: string ::
      && t == hs + ":" + ms
      && 1 <= |hs| <= 2 && |ms| == 2 && AllDigits(hs) && AllDigits(ms)
      && ParseTrimmedHm(t) == HourMinuteToMinutes(DecimalValue(hs), DecimalValue(ms))
  {
    if ParseTrimmedHm(t).None? { return; }
    var k := if t[1] == ':' then 1 else 2;
    var hs, ms := t[..k], t[k + 1..];
    assert t == hs + ":" + ms;
    assert AllDigits(hs) && AllDigits(ms);
    ParseTrimmedHmFields(t, hs, ms);
  }

  /** The matched fields are read as decimal numbers. */
  lemma ParseTrimmedHmFields(t: string, hs: string, ms: string)
    requires t == hs + ":" + ms
    requires 1 <= |hs| <= 2 && |ms| == 2 && AllDigits(hs) && AllDigits(ms)
    ensures ParseTrimmedHm(t) == HourMinuteToMinutes(DecimalValue(hs), DecimalValue(ms))
  {
    assert IsDigit(hs[0]) && IsDigit(ms[0]) && IsDigit(ms[1]);
    if |hs| == 1 {
      assert t[0] == hs[0] && t[1] == ':' && t[2] == ms[0] && t[3] == ms[1];
    } else {
      assert IsDigit(hs[1]);
      assert t[0] == hs[0] && t[1] == hs[1] && t[2] == ':' && t[3] == ms[0] && t[4] == ms[1];
    }
  }

  lemma ParseTrimmedHmComplete(t: string, hs: string, ms: string)
    requires t == hs + ":" + ms
    requires 1 <= |hs| <= 2 && |ms| == 2 && AllDigits(hs) && AllDigits(ms)
    ensures ParseTrimmedHm(t) ==
      if DecimalValue(hs) <= 23 && DecimalValue(ms) <= 59
      then Some(60 * DecimalValue(hs) + DecimalValue(ms))
      else None
  {
    ParseTrimmedHmFields(t, hs, ms);
  }

  /** Every string of the form `hs:ms`, surrounded by any whitespace, parses,
      and to the expected value exactly when both fields are in range. */
  lemma ParseHmComplete(hm: string, hs: string, ms: string)
    requires Trim(hm) == hs + ":" + ms
    requires 1 <= |hs| <= 2 && |ms| == 2 && AllDigits(hs) && AllDigits(ms)
    ensures ParseHmToMinutes(hm) ==
      if DecimalValue(hs) <= 23 && DecimalValue(ms) <= 59
      then Some(60 * DecimalValue(hs) + DecimalValue(ms))
      else None
  {
    ParseTrimmedHmComplete(Trim(hm), hs, ms);
  }

  /** Calendar order on year-independent days: strictly earlier in the year. */
  predicate Before(a: MonthDay, b: MonthDay) {
    a.month < b.month || (a.month == b.month && a.day < b.day)
  }

  /** Lexicographic comparison of (month, day) pairs, as a signed difference. */
  function CmpMonthDay(a: MonthDay, b: MonthDay): (r: int)
    ensures r == 0 <==> a == b
    ensures r < 0 <==> Before(a, b)
    ensures r > 0 <==> Before(b, a)
  {
    if a.month != b.month then a.month - b.month else a.day - b.day
  }

  lemma CmpMonthDayAntisymmetric(a: MonthDay, b: MonthDay)
    ensures CmpMonthDay(b, a) == -CmpMonthDay(a, b)
  {
  }

  function MatchSingle(today: MonthDay, spec: MonthDay): (r: bool)
    ensures r <==> today == spec
  {
    today.month == spec.month && today.day == spec.day
  }

  function MatchMulti(today: MonthDay, multi: Option<seq<MonthDay>>): (r: bool)
    ensures r <==> multi.Some? && today in multi.value
  {
    if multi.None? || |multi.value| == 0 then false
    else exists i :: 0 <= i < |multi.value| && today.month == multi.value[i].month && today.day == multi.value[i].day
  }

  /** An absent `inclusive` counts as true. */
  predicate Inclusive(range: DateRange) {
    range.inclusive != Some(false)
  }

  /** A year-independent range; when the start comes after the end it wraps
      across the new year. */
  function MatchRange(today: MonthDay, range: Option<DateRange>): (r: bool)
    ensures r ==> range.Some?
    ensures range.Some? && range.value.start == range.value.end ==>
      (r <==> Inclusive(range.value) && today == range.value.start)
  {
    if range.None? then false
    else
      var inc := Inclusive(range.value);
      var s := range.value.start;
      var e := range.value.end;
      if CmpMonthDay(s, e) <= 0 then
        var left := CmpMonthDay(today, s);
        var right := CmpMonthDay(today, e);
        if inc then left >= 0 && right <= 0 else left > 0 && right < 0
      else
        var leftPart := CmpMonthDay(today, s) >= (if inc then 0 else 1);
        var rightPart := CmpMonthDay(today, e) <= (if inc then 0 else -1);
        leftPart || rightPart
  }

  /** A range whose start is not after its end is the interval between them,
      closed or open as `inclusive` says. */
  lemma RangeWithinYear(today: MonthDay, range: DateRange)
    requires !Before(range.end, range.start)
    ensures Inclusive(range) ==>
      (MatchRange(today, Some(range)) <==> !Before(today, range.start) && !Before(range.end, today))
    ensures !Inclusive(range) ==>
      (MatchRange(today, Some(range)) <==> Before(range.start, today) && Before(today, range.end))
  {
  }

  /** A wrapping range is the union of the tail of the year from its start
      and the head of the year up to its end. */
  lemma RangeAcrossYearEnd(today: MonthDay, range: DateRange)
    requires Before(range.end, range.start)
    ensures Inclusive(range) ==>
      (MatchRange(today, Some(range)) <==> !Before(today, range.start) || !Before(range.end, today))
    ensures !Inclusive(range) ==>
      (MatchRange(today, Some(range)) <==> Before(range.start, today) || Before(today, range.end))
  {
  }

  /** The two arcs of the year: a wrapping range from s to e matches exactly
      the days the non-wrapping range from e to s, with the opposite
      `inclusive` flag, does not. */
  lemma RangeWrapIsComplement(today: MonthDay, s: MonthDay, e: MonthDay, inc: bool)
    requires Before(e, s)
    ensures MatchRange(today, Some(DateRange(s, e, Some(inc))))
        == !MatchRange(today, Some(DateRange(e, s, Some(!inc))))
  {
  }

  lemma RangeExclusiveSingleDayIsEmpty(today: MonthDay, d: MonthDay)
    ensures !MatchRange(today, Some(DateRange(d, d, Some(false))))
  {
  }

  lemma RangeInclusiveDefaultsToTrue(today: MonthDay, s: MonthDay, e: MonthDay)
    ensures MatchRange(today, Some(DateRange(s, e, None))) == MatchRange(today, Some(DateRange(s, e, Some(true))))
  {
  }

  /** The time-window test on minutes since midnight; a start after the end
      wraps past midnight. */
  function InTimeWindow(minutesNow: int, sMin: int, eMin: int): (r: bool)
    ensures sMin <= eMin ==> (r <==> sMin <= minutesNow <= eMin)
    ensures sMin > eMin ==> (r <==> minutesNow >= sMin || minutesNow <= eMin)
  {
    if sMin <= eMin then !(minutesNow < sMin || minutesNow > eMin)
    else
      var inLeft := minutesNow >= sMin;
      var inRight := minutesNow <= eMin;
      !(!inLeft && !inRight)
  }

  function MinutesOfDay(now: Instant): (r: int)
    ensures 0 <= r <= 1439
  {
    now.hour * 60 + now.minute
  }

  /** The optional year, weekday and time-of-day refinement. */
  function MatchSchedule(now: Instant, schedule: Option<Schedule>): (r: bool)
    ensures schedule.None? ==> r
    ensures r && schedule.Some? && schedule.value.years.Some? && schedule.value.years.value != [] ==>
      now.year in schedule.value.years.value
    ensures r && schedule.Some? && schedule.value.timeWindow.Some? ==>
      ParseHmToMinutes(schedule.value.timeWindow.value.start).Some?
      && ParseHmToMinutes(schedule.value.timeWindow.value.end).Some?
  {
    if schedule.None? then true
    else
      var s := schedule.value;
      if s.years.Some? && |s.years.value| > 0 && now.year !in s.years.value then false
      else if s.daysOfWeek.Some? && |s.daysOfWeek.value| > 0 && JsDayToIso(now.weekday) !in s.daysOfWeek.value then false
      else if s.timeWindow.Some? then
        var sMin := ParseHmToMinutes(s.timeWindow.value.start);
        var eMin := ParseHmToMinutes(s.timeWindow.value.end);
        if sMin.None? || eMin.None? then false
        else InTimeWindow(MinutesOfDay(now), sMin.value, eMin.value)
      else true
  }

  /** What a present schedule demands, one component at a time: an absent or
      empty list restricts nothing, an unparseable window admits nothing, and
      a parsed window is a closed interval or, when it wraps, the two ends of
      the day. */
  lemma ScheduleMeaning(now: Instant, s: Schedule)
    ensures MatchSchedule(now, None)
    ensures MatchSchedule(now, Some(s)) <==>
      && (s.years.None? || s.years.value == [] || now.year in s.years.value)
      && (s.daysOfWeek.None? || s.daysOfWeek.value == [] || JsDayToIso(now.weekday) in s.daysOfWeek.value)
      && (s.timeWindow.Some? ==>
            var sMin := ParseHmToMinutes(s.timeWindow.value.start);
            var eMin := ParseHmToMinutes(s.timeWindow.value.end);
            && sMin.Some? && eMin.Some?
            && (sMin.value <= eMin.value ==> sMin.value <= MinutesOfDay(now) <= eMin.value)
            && (sMin.value > eMin.value ==> MinutesOfDay(now) >= sMin.value || MinutesOfDay(now) <= eMin.value))
  {
  }

  /** A wrapping window matches exactly the minutes outside the open interval
      from its end to its start. */
  lemma TimeWindowWrapIsComplement(m: int, sMin: int, eMin: int)
    requires sMin > eMin
    ensures InTimeWindow(m, sMin, eMin) <==> !(eMin < m < sMin)
  {
  }

  /** Only an explicit `false` switches a record off. */
  function IsActive(h: Holiday): (r: bool)
    ensures r <==> h.active.GetOr(true)
  {
    h.active != Some(false)
  }

  /** The day of the instant, without its year. */
  function Today(now: Instant): MonthDay {
    MonthDay(now.month, now.day)
  }

  /** A record matches when it is active, its one date predicate (single day,
      else range, else a non-empty multi list) holds today, and its schedule
      admits the instant. */
  function MatchesToday(h: Holiday, now: Instant): (r: bool)
    ensures r ==> IsActive(h) && MatchSchedule(now, h.schedule)
    ensures r ==> h.date.Some? || h.range.Some? || (h.multi.Some? && h.multi.value != [])
  {
    if !IsActive(h) then false
    else
      var today := Today(now);
      var dateOk :=
        if h.date.Some? then MatchSingle(today, h.date.value)
        else if h.range.Some? then MatchRange(today, h.range)
        else if h.multi.Some? && |h.multi.value| > 0 then MatchMulti(today, h.multi)
        else false;
      if !dateOk then false else MatchSchedule(now, h.schedule)
  }

  /** Only the first present date predicate decides: a single day hides the
      range and the multi list, a range hides the multi list. */
  lemma MatchesTodayPrecedence(h: Holiday, now: Instant, r: Option<DateRange>, m: Option<seq<MonthDay>>)
    ensures h.active == Some(false) ==> !MatchesToday(h, now)
    ensures h.date.Some? ==>
      (MatchesToday(h, now) <==> IsActive(h) && Today(now) == h.date.value && MatchSchedule(now, h.schedule))
    ensures h.date.Some? ==> MatchesToday(h.(range := r, multi := m), now) == MatchesToday(h, now)
    ensures h.date.None? && h.range.Some? ==>
      (MatchesToday(h, now) <==> IsActive(h) && MatchRange(Today(now), h.range) && MatchSchedule(now, h.schedule))
    ensures h.date.None? && h.range.Some? ==> MatchesToday(h.(multi := m), now) == MatchesToday(h, now)
    ensures h.date.None? && h.range.None? ==>
      (MatchesToday(h, now) <==> IsActive(h) && MatchMulti(Today(now), h.multi) && MatchSchedule(now, h.schedule))
  {
  }

  function Priority(h: Holiday): int {
    h.priority.GetOr(0)
  }

  /** The sort comparator: higher priority first, then the lower-cased id in
      ascending order. */
  function Compare(a: Holiday, b: Holiday): (r: int)
    ensures r < 0 <==> (Priority(a) > Priority(b)
      || (Priority(a) == Priority(b) && LexLess(ToLower(a.id), ToLower(b.id))))
    ensures r == 0 <==> Priority(a) == Priority(b) && ToLower(a.id) == ToLower(b.id)
  {
    var pa := Priority(a);
    var pb := Priority(b);
    if pb != pa then pb - pa
    else
      var ia := ToLower(a.id);
      var ib := ToLower(b.id);
      LexLessTotal(ia, ib);
      LexLessIrreflexive(ia);
      if LexLess(ia, ib) then LexLessAsymmetric(ia, ib); -1
      else if LexLess(ib, ia) then 1
      else 0
  }

  /** `a` sorts strictly before `b`. */
  predicate Precedes(a: Holiday, b: Holiday) {
    Compare(a, b) < 0
  }

  lemma CompareAntisymmetric(a: Holiday, b: Holiday)
    ensures Compare(a, b) < 0 <==> Compare(b, a) > 0
    ensures Compare(a, b) == 0 <==> Compare(b, a) == 0
  {
    var ia, ib := ToLower(a.id), ToLower(b.id);
    LexLessTotal(ia, ib);
    LexLessIrreflexive(ia);
    if LexLess(ia, ib) {
      LexLessAsymmetric(ia, ib);
    } else if LexLess(ib, ia) {
      LexLessAsymmetric(ib, ia);
    }
  }

  /** Not preceding is transitive: the comparator is a strict weak order. */
  lemma NotPrecedesTransitive(a: Holiday, b: Holiday, c: Holiday)
    requires !Precedes(a, b) && !Precedes(b, c)
    ensures !Precedes(a, c)
  {
    var ia, ib, ic := ToLower(a.id), ToLower(b.id), ToLower(c.id);
    if Precedes(a, c) && Priority(a) == Priority(b) == Priority(c) {
      LexLessTotal(ia, ib);
      LexLessTotal(ib, ic);
      if LexLess(ib, ia) && LexLess(ic, ib) {
        LexLessTransitive(ic, ib, ia);
        LexLessAsymmetric(ia, ic);
      } else if LexLess(ic, ib) {
        LexLessAsymmetric(ia, ic);
      } else if LexLess(ib, ia) {
        LexLessAsymmetric(ia, ic);
      } else {
        LexLessIrreflexive(ia);
      }
    }
  }

  lemma PrecedesAsymmetric(a: Holiday, b: Holiday)
    requires Precedes(a, b)
    ensures !Precedes(b, a)
  {
    CompareAntisymmetric(a, b);
  }

  /** The head of the stably sorted copy: the first element that nothing
      precedes; every element before it is strictly worse. */
  function ResolveIndex(m: seq<Holiday>): (i: nat)
    requires |m| > 0
    ensures i < |m|
    ensures forall j :: 0 <= j < |m| ==> !Precedes(m[j], m[i])
    ensures forall j :: 0 <= j < i ==> Precedes(m[i], m[j])
    decreases |m|
  {
    if |m| == 1 then 0
    else
      var k := ResolveIndex(m[1..]) + 1;
      if Precedes(m[k], m[0]) then
        PrecedesAsymmetric(m[k], m[0]);
        k
      else
        assert forall j :: 1 <= j < |m| ==> !Precedes(m[j], m[k]) by {
          forall j | 1 <= j < |m| ensures !Precedes(m[j], m[k]) {
            assert m[j] == m[1..][j - 1];
          }
        }
        assert forall j :: 1 <= j < |m| ==> !Precedes(m[j], m[0]) by {
          forall j | 1 <= j < |m| ensures !Precedes(m[j], m[0]) {
            NotPrecedesTransitive(m[j], m[k], m[0]);
          }
        }
        0
  }

  /** The winner among the matches, or none when nothing matches. */
  function ResolveWinner(matches: seq<Holiday>): (r: Option<Holiday>)
    ensures r.None? <==> |matches| == 0
    ensures r.Some? ==> r.value in matches
    ensures r.Some? ==> forall h :: h in matches ==> !Precedes(h, r.value)
    ensures r.Some? ==> exists k :: (0 <= k < |matches| && matches[k] == r.value
      && forall j :: 0 <= j < k ==> Precedes(r.value, matches[j]))
  {
    if |matches| == 0 then None else Some(matches[ResolveIndex(matches)])
  }

  /** `list.filter(matchesToday)`. */
  function Matching(list: seq<Holiday>, now: Instant): (r: seq<Holiday>)
    ensures |r| <= |list|
    ensures forall h :: h in r <==> h in list && MatchesToday(h, now)
  {
    if list == [] then []
    else (if MatchesToday(list[0], now) then [list[0]] else []) + Matching(list[1..], now)
  }

  /** Filtering keeps the relative order of the list. */
  lemma {:induction false} MatchingConcat(a: seq<Holiday>, b: seq<Holiday>, now: Instant)
    ensures Matching(a + b, now) == Matching(a, now) + Matching(b, now)
  {
    if a == [] {
      assert a + b == b;
    } else {
      var head := if MatchesToday(a[0], now) then [a[0]] else [];
      assert (a + b)[0] == a[0];
      assert (a + b)[1..] == a[1..] + b;
      calc {
        Matching(a + b, now);
        head + Matching(a[1..] + b, now);
        { MatchingConcat(a[1..], b, now); }
        head + (Matching(a[1..], now) + Matching(b, now));
        (head + Matching(a[1..], now)) + Matching(b, now);
      }
    }
  }

  /** The record to show at `now`: none for an empty list or when nothing
      matches; otherwise a matching record of the highest priority whose
      lower-cased id is smallest among the matches of that priority. */
  function PickHolidayForNow(list: seq<Holiday>, now: Instant): (r: Option<Holiday>)
    ensures r.None? <==> forall h :: h in list ==> !MatchesToday(h, now)
    ensures r.Some? ==> r.value in list && MatchesToday(r.value, now)
    ensures r.Some? ==> forall h :: h in list && MatchesToday(h, now) ==> Priority(h) <= Priority(r.value)
    ensures r.Some? ==> forall h :: (h in list && MatchesToday(h, now) && Priority(h) == Priority(r.value)
      ==> !LexLess(ToLower(h.id), ToLower(r.value.id)))
  {
    if |list| == 0 then None
    else
      var m := Matching(list, now);
      assert forall h :: h in list && MatchesToday(h, now) ==> h in m;
      ResolveWinner(m)
  }

  lemma PickNeverInactive(list: seq<Holiday>, now: Instant, h: Holiday)
    requires h.active == Some(false)
    ensures PickHolidayForNow(list, now) != Some(h)
  {
  }
}
