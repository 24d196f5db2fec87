# Holiday banner decision engine

This project models in Dafny the part of the React holiday banner component
that decides which banner, if any, to show at a given moment. The part has
three pieces.

- **Normalizer** (`normalize.dfy`, module `Normalize`). It turns loosely typed
  holiday records (`HolidayLoose`) into strict ones (`Holiday`). It validates
  the month and day numbers of the single-day, range and multi-day date
  predicates. It drops invalid multi-day entries and discards records left
  with no date predicate.
- **Matcher and resolver** (`match.dfy`, module `Match`). It checks whether a
  record applies at an instant: the `active` flag, then one date predicate
  (single, else range, else multi), then an optional schedule of years,
  ISO weekdays and an "HH:mm" time window. Among the matches it picks the
  record with the highest priority, then the smallest lower-cased id.
- **Structural equality and cache** (`stable.dfy`, module `StableData`). A
  field-by-field deep equality on records, where an absent field equals its
  default, and a one-cell cache that hands back the previous list when the
  new one has the same content.

`banner.dfy` (module `Banner`) joins them in the component's order: cache,
then normalize, then pick. It does so for a caller's list of strict records
only (see "Left out"). Its main theorem, `Banner.CacheIsTransparent`, says
that for such lists, returning the cached list instead of an equal new one
never changes which record is shown, up to deep equality. Deep equality
ignores `style.inlineStyle`, so a new list that differs only there is
replaced by the cached one, and the banner keeps the previous inline style.

Supporting modules:
- `types.dfy` (`HolidayTypes`) holds the records of `src/types.ts`.
- `jstext.dfy` (`JsText`) holds the JavaScript string built-ins the matcher
  uses: `trim`, ASCII `toLowerCase`, string `<`, and the digit class.

The reference instant is a parameter of type `Instant(year, month, day,
weekday, hour, minute)`. The weekday is the platform's (Sunday = 0); the other
fields are what the local-time getters return.

Modelling choices:
- Loose numbers are `Num = Int(value) | NotInteger`. `NotInteger` stands for
  NaN, fractions and non-numbers, which `Number.isInteger` rejects.
- A strict record can be handed to the normalizer as a loose one through
  `ToLoose`. This is the widening the source's `HolidayLoose | Holiday`
  parameter allows. It is how idempotence is stated.
- `normalizeOne` has a fast path for records that already look strict and a
  path for loose records. Both build a record with the same date, range,
  multi and other fields, so the model has one definition.
- `resolveWinner` sorts a copy with a comparator and takes its head. The
  model specifies the head of a stable sort: the first element of the match
  list that no other match precedes (`Match.ResolveIndex`). Ties on both
  priority and lower-cased id therefore go to the earlier record.
- `normalizeMulti`, `normalizeHolidayList`, `deepEqualHoliday`,
  `deepEqualArray` and the cache are methods with loops or state. Each is
  proved against a function or predicate (`NormalizedMulti`,
  `NormalizedList`, `HolidayEquiv`, `ListEquiv`), and the properties are
  proved about those.

## Model

| member | source | states |
|---|---|---|
| Match.JsDayToIso | src/lib/match.ts:7-9 | Sunday (0) becomes ISO 7; weekdays 1..6 keep their number; the result is always in 1..7 |
| Match.ParseHmToMinutes | src/lib/match.ts:12-20 | any parsed value is a minute of the day in 0..1439 |
| Match.ParseHmSound | src/lib/match.ts:12-20 | a value is returned only if the trimmed string is 1-2 digits, ':', 2 digits, with hour <= 23 and minute <= 59, and the value is 60*hour + minute |
| Match.ParseHmComplete | src/lib/match.ts:12-20 | every string of that shape, with any surrounding whitespace, parses to 60*hour + minute when both fields are in range and to nothing otherwise |
| Match.ParseTrimmedHm | src/lib/match.ts:13-19 | the pattern and range check on a trimmed string; any value is in 0..1439; ParseTrimmedHmSound (only the `hs:ms` shape parses) and ParseTrimmedHmComplete (every such string parses, by the range check) give exactly which strings parse and to what |
| Match.ParseTrimmedHmSound | src/lib/match.ts:13-19 | a trimmed string parses only if it is 1-2 digits, ':', 2 digits, and then to the range check of its two fields; any other shape gives nothing |
| Match.ParseTrimmedHmComplete | src/lib/match.ts:13-19 | the same completeness for an already trimmed string |
| Match.ParseTrimmedHmFields | src/lib/match.ts:13-16 | the pattern's two capture groups are read as decimal numbers and passed to the range check |
| Match.HourMinuteToMinutes | src/lib/match.ts:17-19 | the range check accepts exactly hour <= 23 and minute <= 59 and then yields hour*60 + minute |
| Match.CmpMonthDay | src/lib/match.ts:23-29 | zero iff the two days are equal, negative iff the first is earlier in the year, positive iff it is later |
| Match.CmpMonthDayAntisymmetric | src/lib/match.ts:23-29 | swapping the arguments negates the result |
| JsText.Trim | src/lib/match.ts:13 | `trim` returns the slice of its input left after removing the leading and the trailing whitespace; the result neither starts nor ends with whitespace |
| Match.MatchSingle | src/lib/match.ts:32-37 | true iff today is the given month and day |
| Match.MatchMulti | src/lib/match.ts:40-46 | true iff the list is present and contains today |
| Match.MatchRange | src/lib/match.ts:49-71 | an absent range never matches; a one-day range matches that day exactly when it is inclusive; RangeWithinYear and RangeAcrossYearEnd give its full meaning in terms of calendar order |
| Match.RangeWithinYear | src/lib/match.ts:58-64 | when start is not after end: an inclusive range matches iff start <= today <= end, an exclusive one iff start < today < end |
| Match.RangeAcrossYearEnd | src/lib/match.ts:66-69 | when start is after end: an inclusive range matches iff today >= start or today <= end, an exclusive one with strict comparisons |
| Match.RangeWrapIsComplement | src/lib/match.ts:49-71 | a wrapping range from s to e is exactly the complement of the non-wrapping range from e to s with the opposite inclusiveness |
| Match.RangeExclusiveSingleDayIsEmpty | src/lib/match.ts:58-64 | an exclusive range whose start equals its end never matches |
| Match.RangeInclusiveDefaultsToTrue | src/lib/match.ts:54 | an absent `inclusive` behaves exactly as true |
| Match.MinutesOfDay | src/lib/match.ts:96 | the minute of the day of an instant lies in 0..1439 |
| Match.MatchSchedule | src/lib/match.ts:74-109 | an absent schedule passes; a pass implies the year is listed when a year list is given and both window bounds parse; ScheduleMeaning gives the full iff, component by component |
| Match.InTimeWindow | src/lib/match.ts:98-105 | with start <= end the window is the closed interval from start to end; otherwise it is minute >= start or minute <= end; TimeWindowWrapIsComplement states the wrap as a complement |
| Match.ScheduleMeaning | src/lib/match.ts:74-109 | an absent schedule passes; absent or empty year and weekday lists restrict nothing, otherwise they must contain the year and ISO weekday; an unparseable window bound fails; a window with start <= end is the closed interval, otherwise minute >= start or minute <= end |
| Match.TimeWindowWrapIsComplement | src/lib/match.ts:100-105 | a window past midnight matches exactly the minutes not strictly between its end and its start |
| Match.IsActive | src/lib/match.ts:112-114 | a record is active unless its flag is explicitly false: an absent flag counts as true |
| Match.MatchesToday | src/lib/match.ts:117-137 | a match is active, satisfies its schedule, and has at least one date predicate |
| Match.MatchesTodayPrecedence | src/lib/match.ts:112-137 | `active == false` never matches; only the first present predicate (single, then range, then non-empty multi) decides, and the later ones can be changed freely without changing the result |
| Match.Compare | src/lib/match.ts:142-149 | the comparator is negative iff the first record has higher priority, or equal priority and a smaller lower-cased id; zero iff priority and lower-cased id are equal |
| JsText.ToLower | src/lib/match.ts:146-147 | same length, each character lower-cased (ASCII letters only) |
| JsText.LexLess | src/lib/match.ts:148 | string `<` holds iff the first string is a proper prefix of the second, or they agree up to a position where the first has the smaller character; LexLessIrreflexive, LexLessTransitive, LexLessTotal and LexLessAsymmetric make it a strict total order |
| Match.CompareAntisymmetric | src/lib/match.ts:142-149 | swapping the arguments swaps negative and positive and keeps zero |
| Match.NotPrecedesTransitive | src/lib/match.ts:142-149 | the comparator is a strict weak order: not-preceding is transitive |
| Match.PrecedesAsymmetric | src/lib/match.ts:142-149 | two records never precede each other |
| Match.ResolveIndex | src/lib/match.ts:142-150 | the chosen position is in range, nothing precedes the record there, and it precedes every earlier record |
| Match.ResolveWinner | src/lib/match.ts:140-151 | none iff there are no matches; otherwise a member of the matches that no match precedes, at the first position where that holds |
| Match.Matching | src/lib/match.ts:156 | the filter keeps exactly the members that match and is no longer than its input |
| Match.MatchingConcat | src/lib/match.ts:156 | the filter keeps the relative order of the list |
| Match.PickHolidayForNow | src/lib/match.ts:154-158 | none iff no record matches (in particular for an empty list); otherwise a matching member of the list with the highest priority, and the smallest lower-cased id among matches of that priority |
| Match.PickNeverInactive | src/lib/match.ts:112-118 | a record with `active == false` is never picked |
| Normalize.IsValidMonth | src/lib/normalize.ts:19-21 | true exactly for the integer values that are months 1..12 |
| Normalize.IsValidDay | src/lib/normalize.ts:23-25 | true exactly for the integer values that are days 1..31 |
| Normalize.NormalizeSingle | src/lib/normalize.ts:27-35 | defined iff the predicate is present, tagged "single", and its month and day are integers in 1..12 and 1..31; the month and day are kept |
| Normalize.NormalizeRange | src/lib/normalize.ts:37-51 | defined iff both bounds are present and all four numbers are valid; the bounds are copied and `inclusive` is passed through unchanged, even when absent |
| Normalize.ValidEntries | src/lib/normalize.ts:57-62 | every kept entry came from the input and has a valid day; every valid input entry is kept; no longer than the input |
| Normalize.ValidEntriesConcat | src/lib/normalize.ts:58-62 | the entries keep their relative order |
| Normalize.ValidEntriesOfValid | src/lib/normalize.ts:58-62 | a list of valid entries is kept unchanged |
| Normalize.NormalizedMulti | src/lib/normalize.ts:53-64 | absent iff the input is absent or no entry is valid; otherwise exactly the valid entries, never an empty list |
| Normalize.NormalizeMulti | src/lib/normalize.ts:53-64 | the loop computes `NormalizedMulti` |
| Normalize.NormalizeOne | src/lib/normalize.ts:66-119 | null iff none of single, range and multi survives; otherwise the record is canonical, its date predicates are the normalized ones, and id, title, active, schedule, display, content, style, priority, tags and notes carry over unchanged |
| Normalize.NormalizeOneRoundTrip | src/lib/normalize.ts:69-92 | a canonical strict record comes back unchanged |
| Normalize.NormalizedList | src/lib/normalize.ts:122-132 | no longer than the input, and every output record has a date predicate with days in range |
| Normalize.NormalizedListKeepsSurvivors | src/lib/normalize.ts:127-130 | every record that normalizes is in the output |
| Normalize.NormalizedListFromInput | src/lib/normalize.ts:127-130 | every output record is the normalization of some input record |
| Normalize.NormalizedListConcat | src/lib/normalize.ts:127-130 | the output keeps the input order: normalizing a concatenation concatenates the outputs |
| Normalize.NormalizedListSnoc | src/lib/normalize.ts:127-130 | one more input record appends its normalization, if any |
| Normalize.NormalizedStrictListSnoc | src/lib/normalize.ts:127-130 | the same step for strict records handed in as loose ones |
| Normalize.NormalizedListOfCanonical | src/lib/normalize.ts:122-132 | a list of canonical records is a fixed point |
| Normalize.NormalizeIdempotent | src/lib/normalize.ts:122-132 | normalizing the output again yields the same list |
| Normalize.NormalizeHolidayList | src/lib/normalize.ts:122-132 | the loop computes `NormalizedList`; absent or empty input gives the empty list |
| StableData.HolidayEquivIsEquivalence | src/hooks/useStableHolidaysData.ts:10-130 | the deep equality is reflexive (identical records are equal), symmetric and transitive |
| StableData.ListEquivIsEquivalence | src/hooks/useStableHolidaysData.ts:132-139 | the list equality is reflexive, symmetric and transitive |
| StableData.DefaultsEqualAbsent | src/hooks/useStableHolidaysData.ts:15-77 | absent active, priority, title, notes, multi, tags, inclusive, years, weekdays, layout, position and placement equal true, 0, "", "", [], [], true, [], [], full, static and top |
| StableData.PresenceMustMatch | src/hooks/useStableHolidaysData.ts:21-97 | equal records agree on the presence of date, range, schedule, time window, display, content, image and style |
| StableData.InlineStyleIgnored | src/hooks/useStableHolidaysData.ts:96-119 | changing `inlineStyle` never makes two records unequal |
| StableData.SameElements | src/hooks/useStableHolidaysData.ts:40-45 | the length-first, position-by-position loop is true iff the two lists are equal |
| StableData.DeepEqualHoliday | src/hooks/useStableHolidaysData.ts:10-130 | the early-return comparison is true iff the records are equal under `HolidayEquiv` |
| StableData.DeepEqualArray | src/hooks/useStableHolidaysData.ts:132-139 | true iff the lengths agree and every position is deep-equal |
| StableData.StableHolidaysData.constructor | src/hooks/useStableHolidaysData.ts:147 | the cell starts empty |
| StableData.StableHolidaysData.Use | src/hooks/useStableHolidaysData.ts:146-155 | on a deep-equal input the cached list is returned; otherwise the input, or a new empty list, is cached and returned; afterwards the cell holds the returned list, which deep-equals the input |
| Banner.NormalizeOneRespectsEquiv | src/lib/normalize.ts:66-119 | deep-equal records normalize to deep-equal results |
| Banner.NormalizedListRespectsEquiv | src/lib/normalize.ts:122-132 | deep-equal lists normalize to deep-equal lists |
| Banner.RankRespectsEquiv | src/lib/match.ts:142-149 | deep-equal records compare identically against any record |
| Banner.MatchRespectsEquiv | src/lib/match.ts:117-137 | deep-equal records match the same instants |
| Banner.MatchingRespectsEquiv | src/lib/match.ts:156 | deep-equal lists filter to deep-equal lists |
| Banner.ResolveIndexRespectsEquiv | src/lib/match.ts:140-151 | deep-equal match lists have the same winner position |
| Banner.PickRespectsEquiv | src/lib/match.ts:154-158 | deep-equal lists give deep-equal winners |
| Banner.CacheIsTransparent | src/HolidayBanner.tsx:189-205 | picking from the normalized cached list or from the normalized new list gives deep-equal winners |
| Banner.SelectHoliday | src/HolidayBanner.tsx:189-205 | one evaluation of the pipeline picks from the normalized cached list; no input gives no banner; the result deep-equals picking from the caller's own list |

## Left out

- React rendering, hooks other than the cache cell, DOM writes, and the inline preflight script in `src/HolidayBanner.tsx` are not modelled. The script repeats the matcher as a string and has a CSS side effect; it is I/O.
- The wall clock is not modelled. The instant is a parameter, and the local-time getters are its fields. Calendar and time-zone arithmetic are not modelled either.
- `src/lib/style.ts` (CSS objects and class names) and `src/index.ts` (re-exports) are not part of this model.
- Banner.SelectHoliday: the pipeline is stated for a caller's list of strict records only. The component's `holidaysData` may hold loose records, which pass through the cache before the normalizer. On loose records `deepEqualHoliday` compares the `date.type` tag and raw numbers, and `Num` cannot express that comparison (NaN is unequal to itself, while 1.5 equals 1.5).
- Banner.CacheIsTransparent: stated for lists of strict records only, for the same reason.
- Match.Compare: `toLowerCase` is modelled on ASCII letters only, and string `<` as code-point order. JavaScript compares UTF-16 code units and lower-cases all of Unicode, so ids with other cased letters or astral characters may order differently.
- Match.ResolveWinner: ties on both priority and lower-cased id go to the earlier match. This assumes the stable sort that ECMAScript 2019 requires.
- Match.ParseHmToMinutes: the regular expression is modelled as a hand-written parser. `\d` matches only ASCII digits, as in JavaScript.
- JavaScript numbers are modelled as unbounded integers plus a `NotInteger` case. Fractions, NaN and infinities are all `NotInteger`. Priorities and years are integers.
- Normalize.NormalizeOne: the fast path for strict-looking records copies the whole object with a spread. Unknown extra fields therefore travel along there. The model's records have no extra fields, so both paths give the same record.
- Normalize.NormalizeSingle: the strict single-day predicate does not store its `type` tag, which is always "single". For the same reason `deepEqualHoliday`'s comparison of `date.type` is always true in the model.
- The input array is never reordered by `pickHolidayForNow`, and never changed by the normalizer. The model holds both by construction, since those operations work on values.
- StableData.DeepEqualHoliday: the identity shortcut `a === b` is modelled as value equality, and the `!a || !b` guard is left out because records are never null in the model.
- StableData.StableHolidaysData.Use: React's `useRef` is modelled only as the single mutable cell. Arrays stand for the caller's list so that "the same list" is reference identity.
