/** The record shapes of the holiday catalog: the strict `Holiday` that the
    matcher consumes, the loose `HolidayLoose` that arrives from JSON or REST,
    and the reference instant the matcher is evaluated against. */
module HolidayTypes {

  /** An optional field: `None` is an absent (undefined) property. */
  datatype Option<+T> = None | Some(value: T) {
    /** The `??` operator: the value if present, otherwise the default. */
    function GetOr(default: T): T {
      match this
      case Some(v) => v
      case None => default
    }
  }

  /** Calendar month, January = 1. */
  type Month = m: int | 1 <= m <= 12 witness 1
  /** ISO weekday, Monday = 1 .. Sunday = 7. */
  type IsoWeekday = d: int | 1 <= d <= 7 witness 1
  /** Weekday as the platform clock reports it, Sunday = 0 .. Saturday = 6. */
  type JsWeekday = d: int | 0 <= d <= 6
  type DayOfMonth = d: int | 1 <= d <= 31 witness 1
  type Hour = h: int | 0 <= h <= 23
  type Minute = m: int | 0 <= m <= 59

  /** A year-independent calendar day; it is the strict single-day predicate,
      a multi-day entry and a range bound. The strict single-day predicate's
      `type` tag is always "single" and is therefore not stored. */
  datatype MonthDay = MonthDay(month: Month, day: int)

  datatype DateRange = DateRange(start: MonthDay, end: MonthDay, inclusive: Option<bool>)

  /** "HH:mm" strings, parsed only when the schedule is evaluated. */
  datatype TimeWindow = TimeWindow(start: string, end: string)

  datatype Schedule = Schedule(
    years: Option<seq<int>>,
    daysOfWeek: Option<seq<IsoWeekday>>,
    timeWindow: Option<TimeWindow>)

  datatype Placement = Top
  datatype Layout = Full | Container
  datatype Positioning = Static | Sticky | Fixed

  datatype Display = Display(
    placement: Option<Placement>,
    layout: Option<Layout>,
    position: Option<Positioning>)

  datatype ImageSide = LeftSide | RightSide

  datatype ContentImage = ContentImage(
    src: string,
    alt: string,
    position: Option<ImageSide>,
    maxHeight: Option<string>,
    width: Option<string>)

  datatype Content = Content(text: Option<string>, image: Option<ContentImage>)

  /** A style value typed `string | number`; numbers are modelled as integers. */
  datatype Scalar = Str(s: string) | Number(n: int)

  datatype Alignment = AlignLeft | AlignCenter | AlignRight

  datatype StyleOptions = StyleOptions(
    background: Option<string>,
    textColor: Option<string>,
    linkColor: Option<string>,
    height: Option<string>,
    paddingX: Option<string>,
    fontSize: Option<Scalar>,
    fontWeight: Option<Scalar>,
    gap: Option<string>,
    border: Option<string>,
    customClass: Option<string>,
    containerClass: Option<string>,
    inlineStyle: Option<map<string, Scalar>>,
    align: Option<Alignment>,
    textAlign: Option<Alignment>,
    zIndex: Option<int>)

  /** One strict catalog record. */
  datatype Holiday = Holiday(
    id: string,
    title: Option<string>,
    active: Option<bool>,
    date: Option<MonthDay>,
    range: Option<DateRange>,
    multi: Option<seq<MonthDay>>,
    schedule: Option<Schedule>,
    display: Option<Display>,
    content: Option<Content>,
    style: Option<StyleOptions>,
    priority: Option<int>,
    tags: Option<seq<string>>,
    notes: Option<string>)

  /** A number from untrusted input: an integer, or anything else
      (a fraction, NaN, an infinity). */
  datatype Num = Int(value: int) | NotInteger

  datatype MonthDayLoose = MonthDayLoose(month: Num, day: Num)

  /** A loose single-day predicate: the `type` tag may hold any string. */
  datatype DateSingleLoose = DateSingleLoose(kind: string, month: Num, day: Num)

  /** A loose range: either bound may be missing. */
  datatype DateRangeLoose = DateRangeLoose(
    start: Option<MonthDayLoose>,
    end: Option<MonthDayLoose>,
    inclusive: Option<bool>)

  /** One record as it arrives from outside, before normalization. */
  datatype HolidayLoose = HolidayLoose(
    id: string,
    title: Option<string>,
    active: Option<bool>,
    date: Option<DateSingleLoose>,
    range: Option<DateRangeLoose>,
    multi: Option<seq<MonthDayLoose>>,
    schedule: Option<Schedule>,
    display: Option<Display>,
    content: Option<Content>,
    style: Option<StyleOptions>,
    priority: Option<int>,
    tags: Option<seq<string>>,
    notes: Option<string>)

  function LooseMonthDay(md: MonthDay): MonthDayLoose {
    MonthDayLoose(Int(md.month), Int(md.day))
  }

  function LooseMonthDays(s: seq<MonthDay>): (r: seq<MonthDayLoose>)
    ensures |r| == |s|
    ensures forall i :: 0 <= i < |s| ==> r[i] == LooseMonthDay(s[i])
  {
    seq(|s|, i requires 0 <= i < |s| => LooseMonthDay(s[i]))
  }

  /** A strict record seen as a loose one: every strict record is a valid
      input of the normalizer. */
  function ToLoose(h: Holiday): HolidayLoose {
    HolidayLoose(
      h.id, h.title, h.active,
      match h.date
        case None => None
        case Some(d) => Some(DateSingleLoose("single", Int(d.month), Int(d.day))),
      match h.range
        case None => None
        case Some(r) => Some(DateRangeLoose(Some(LooseMonthDay(r.start)), Some(LooseMonthDay(r.end)), r.inclusive)),
      match h.multi
        case None => None
        case Some(m) => Some(LooseMonthDays(m)),
      h.schedule, h.display, h.content, h.style, h.priority, h.tags, h.notes)
  }

  function ToLooseList(s: seq<Holiday>): (r: seq<HolidayLoose>)
    ensures |r| == |s|
    ensures forall i :: 0 <= i < |s| ==> r[i] == ToLoose(s[i])
  {
    seq(|s|, i requires 0 <= i < |s| => ToLoose(s[i]))
  }

  /** The reference instant, already decomposed into local wall-clock fields. */
  datatype Instant = Instant(
    year: int,
    month: Month,
    day: DayOfMonth,
    weekday: JsWeekday,
    hour: Hour,
    minute: Minute)
}
