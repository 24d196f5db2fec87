/** Structural equality of holiday records, with absent fields read as their
    defaults, and the one-cell cache that hands back the previous list when a
    new one has the same content. */
module StableData {
  import opened HolidayTypes

  predicate RangeEquiv(a: Option<DateRange>, b: Option<DateRange>) {
    && a.Some? == b.Some?
    && (a.Some? && b.Some? ==>
          && a.value.start == b.value.start && a.value.end == b.value.end
          && a.value.inclusive.GetOr(true) == b.value.inclusive.GetOr(true))
  }

  predicate ScheduleEquiv(a: Option<Schedule>, b: Option<Schedule>) {
    && a.Some? == b.Some?
    && (a.Some? && b.Some? ==>
          && a.value.years.GetOr([]) == b.value.years.GetOr([])
          && a.value.daysOfWeek.GetOr([]) == b.value.daysOfWeek.GetOr([])
          && a.value.timeWindow == b.value.timeWindow)
  }

  predicate DisplayEquiv(a: Option<Display>, b: Option<Display>) {
    && a.Some? == b.Some?
    && (a.Some? && b.Some? ==>
          && a.value.layout.GetOr(Full) == b.value.layout.GetOr(Full)
          && a.value.position.GetOr(Static) == b.value.position.GetOr(Static)
          && a.value.placement.GetOr(Top) == b.value.placement.GetOr(Top))
  }

  predicate ImageEquiv(a: Option<ContentImage>, b: Option<ContentImage>) {
    && a.Some? == b.Some?
    && (a.Some? && b.Some? ==>
          && a.value.src == b.value.src && a.value.alt == b.value.alt
          && a.value.position.GetOr(LeftSide) == b.value.position.GetOr(LeftSide)
          && a.value.maxHeight.GetOr("") == b.value.maxHeight.GetOr("")
          && a.value.width.GetOr("") == b.value.width.GetOr(""))
  }

  predicate ContentEquiv(a: Option<Content>, b: Option<Content>) {
    && a.Some? == b.Some?
    && (a.Some? && b.Some? ==>
          && a.value.text.GetOr("") == b.value.text.GetOr("")
          && ImageEquiv(a.value.image, b.value.image))
  }

  /** The fourteen compared style keys; `inlineStyle` is not among them. */
  predicate StyleKeysEqual(a: StyleOptions, b: StyleOptions) {
    && a.background == b.background && a.textColor == b.textColor && a.linkColor == b.linkColor
    && a.height == b.height && a.paddingX == b.paddingX
    && a.fontSize == b.fontSize && a.fontWeight == b.fontWeight
    && a.gap == b.gap && a.border == b.border
    && a.customClass == b.customClass && a.containerClass == b.containerClass
    && a.align == b.align && a.textAlign == b.textAlign && a.zIndex == b.zIndex
  }

  predicate StyleEquiv(a: Option<StyleOptions>, b: Option<StyleOptions>) {
    && a.Some? == b.Some?
    && (a.Some? && b.Some? ==> StyleKeysEqual(a.value, b.value))
  }

  /** Content equality of two records: the relation the deep comparison decides. */
  predicate HolidayEquiv(a: Holiday, b: Holiday) {
    && a.id == b.id
    && a.title.GetOr("") == b.title.GetOr("")
    && a.active.GetOr(true) == b.active.GetOr(true)
    && a.priority.GetOr(0) == b.priority.GetOr(0)
    && a.date == b.date
    && RangeEquiv(a.range, b.range)
    && a.multi.GetOr([]) == b.multi.GetOr([])
    && ScheduleEquiv(a.schedule, b.schedule)
    && DisplayEquiv(a.display, b.display)
    && ContentEquiv(a.content, b.content)
    && StyleEquiv(a.style, b.style)
    && a.tags.GetOr([]) == b.tags.GetOr([])
    && a.notes.GetOr("") == b.notes.GetOr("")
  }

  predicate ListEquiv(a: seq<Holiday>, b: seq<Holiday>) {
    |a| == |b| && forall i :: 0 <= i < |a| ==> HolidayEquiv(a[i], b[i])
  }

  lemma HolidayEquivIsEquivalence(a: Holiday, b: Holiday, c: Holiday)
    ensures HolidayEquiv(a, a)
    ensures HolidayEquiv(a, b) ==> HolidayEquiv(b, a)
    ensures HolidayEquiv(a, b) && HolidayEquiv(b, c) ==> HolidayEquiv(a, c)
  {
  }

  lemma ListEquivIsEquivalence(a: seq<Holiday>, b: seq<Holiday>, c: seq<Holiday>)
    ensures ListEquiv(a, a)
    ensures ListEquiv(a, b) ==> ListEquiv(b, a)
    ensures ListEquiv(a, b) && ListEquiv(b, c) ==> ListEquiv(a, c)
  {
    forall i | 0 <= i < |a| {
      HolidayEquivIsEquivalence(a[i], a[i], a[i]);
    }
    if ListEquiv(a, b) {
      forall i | 0 <= i < |a| ensures HolidayEquiv(b[i], a[i]) {
        HolidayEquivIsEquivalence(a[i], b[i], b[i]);
      }
      if ListEquiv(b, c) {
        forall i | 0 <= i < |a| ensures HolidayEquiv(a[i], c[i]) {
          HolidayEquivIsEquivalence(a[i], b[i], c[i]);
        }
      }
    }
  }

  /** An absent field compares equal to its default value. */
  lemma DefaultsEqualAbsent(h: Holiday)
    ensures HolidayEquiv(h.(active := None), h.(active := Some(true)))
    ensures HolidayEquiv(h.(priority := None), h.(priority := Some(0)))
    ensures HolidayEquiv(h.(title := None), h.(title := Some("")))
    ensures HolidayEquiv(h.(notes := None), h.(notes := Some("")))
    ensures HolidayEquiv(h.(multi := None), h.(multi := Some([])))
    ensures HolidayEquiv(h.(tags := None), h.(tags := Some([])))
    ensures h.range.Some? ==>
      HolidayEquiv(h.(range := Some(h.range.value.(inclusive := None))),
                   h.(range := Some(h.range.value.(inclusive := Some(true)))))
    ensures h.schedule.Some? ==>
      HolidayEquiv(h.(schedule := Some(h.schedule.value.(years := None, daysOfWeek := None))),
                   h.(schedule := Some(h.schedule.value.(years := Some([]), daysOfWeek := Some([])))))
    ensures HolidayEquiv(h.(display := Some(Display(None, None, None))),
                         h.(display := Some(Display(Some(Top), Some(Full), Some(Static)))))
  {
    HolidayEquivIsEquivalence(h, h, h);
  }

  /** Presence must agree for every optional sub-object. */
  lemma PresenceMustMatch(a: Holiday, b: Holiday)
    requires HolidayEquiv(a, b)
    ensures a.date.Some? == b.date.Some? && a.range.Some? == b.range.Some?
    ensures a.schedule.Some? == b.schedule.Some? && a.display.Some? == b.display.Some?
    ensures a.content.Some? == b.content.Some? && a.style.Some? == b.style.Some?
    ensures a.schedule.Some? && b.schedule.Some? ==>
      a.schedule.value.timeWindow.Some? == b.schedule.value.timeWindow.Some?
    ensures a.content.Some? && b.content.Some? ==>
      a.content.value.image.Some? == b.content.value.image.Some?
  {
  }

  /** The free-form inline style is deliberately left out of the comparison. */
  lemma InlineStyleIgnored(h: Holiday, x: Option<map<string, Scalar>>)
    requires h.style.Some?
    ensures HolidayEquiv(h, h.(style := Some(h.style.value.(inlineStyle := x))))
  {
    HolidayEquivIsEquivalence(h, h, h);
  }

  /** Length first, then position by position. */
  method SameElements<T(==)>(x: seq<T>, y: seq<T>) returns (r: bool)
    ensures r <==> x == y
  {
    if |x| != |y| {
      return false;
    }
    var i := 0;
    while i < |x|
      invariant 0 <= i <= |x|
      invariant forall k :: 0 <= k < i ==> x[k] == y[k]
    {
      if x[i] != y[i] {
        return false;
      }
      i := i + 1;
    }
    return true;
  }

  method DeepEqualHoliday(a: Holiday, b: Holiday) returns (r: bool)
    ensures r == HolidayEquiv(a, b)
  {
    if a == b {
      HolidayEquivIsEquivalence(a, a, a);
      return true;
    }
    if a.id != b.id { return false; }
    if a.title.GetOr("") != b.title.GetOr("") { return false; }
    if a.active.GetOr(true) != b.active.GetOr(true) { return false; }
    if a.priority.GetOr(0) != b.priority.GetOr(0) { return false; }

    if a.date.Some? != b.date.Some? { return false; }
    if a.date.Some? && b.date.Some? {
      if a.date.value.month != b.date.value.month { return false; }
      if a.date.value.day != b.date.value.day { return false; }
    }

    if a.range.Some? != b.range.Some? { return false; }
    if a.range.Some? && b.range.Some? {
      var ar, br := a.range.value, b.range.value;
      if ar.start.month != br.start.month { return false; }
      if ar.start.day != br.start.day { return false; }
      if ar.end.month != br.end.month { return false; }
      if ar.end.day != br.end.day { return false; }
      if ar.inclusive.GetOr(true) != br.inclusive.GetOr(true) { return false; }
    }

    var sameMulti := SameElements(a.multi.GetOr([]), b.multi.GetOr([]));
    if !sameMulti { return false; }

    if a.schedule.Some? != b.schedule.Some? { return false; }
    if a.schedule.Some? && b.schedule.Some? {
      var sameYears := SameElements(a.schedule.value.years.GetOr([]), b.schedule.value.years.GetOr([]));
      if !sameYears { return false; }
      var sameDays := SameElements(a.schedule.value.daysOfWeek.GetOr([]), b.schedule.value.daysOfWeek.GetOr([]));
      if !sameDays { return false; }
      var at, bt := a.schedule.value.timeWindow, b.schedule.value.timeWindow;
      if at.Some? != bt.Some? { return false; }
      if at.Some? && bt.Some? {
        if at.value.start != bt.value.start { return false; }
        if at.value.end != bt.value.end { return false; }
      }
    }

    if !DisplayEquiv(a.display, b.display) { return false; }
    if !ContentEquiv(a.content, b.content) { return false; }
    if !StyleEquiv(a.style, b.style) { return false; }

    var sameTags := SameElements(a.tags.GetOr([]), b.tags.GetOr([]));
    if !sameTags { return false; }
    if a.notes.GetOr("") != b.notes.GetOr("") { return false; }
    return true;
  }

  method DeepEqualArray(a: array<Holiday>, b: array<Holiday>) returns (r: bool)
    ensures r == ListEquiv(a[..], b[..])
  {
    if a == b {
      ListEquivIsEquivalence(a[..], a[..], a[..]);
      return true;
    }
    if a.Length != b.Length {
      return false;
    }
    for i := 0 to a.Length
      invariant forall k :: 0 <= k < i ==> HolidayEquiv(a[k], b[k])
    {
      var same := DeepEqualHoliday(a[i], b[i]);
      if !same {
        return false;
      }
    }
    return true;
  }

  /** The persistent cell behind the hook: the list last handed out. */
  class StableHolidaysData {
    var current: array?<Holiday>

    constructor ()
      ensures current == null
    {
      current := null;
    }

    /** Hands back the cached list when the input has the same content,
        otherwise caches and returns the input (a fresh empty list when there
        is no input). Either way the cell holds what was returned. */
    method Use(input: array?<Holiday>) returns (r: array<Holiday>)
      modifies this
      ensures current == r
      ensures old(current) != null && input != null && ListEquiv(old(current)[..], input[..]) ==>
        r == old(current)
      ensures !(old(current) != null && input != null && ListEquiv(old(current)[..], input[..])) ==>
        if input != null then r == input else fresh(r) && r.Length == 0
      ensures input != null ==> ListEquiv(r[..], input[..])
      ensures input == null ==> r[..] == []
    {
      if current != null && input != null {
        var same := DeepEqualArray(current, input);
        if same {
          return current;
        }
      }
      if input != null {
        ListEquivIsEquivalence(input[..], input[..], input[..]);
        current := input;
      } else {
        current := new Holiday[0];
      }
      r := current;
    }
  }
}
