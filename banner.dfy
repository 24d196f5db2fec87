/** The banner's decision pipeline: stabilize the caller's list, normalize it,
    and pick the record for the reference instant. Handing back the cached
    list instead of an equal new one never changes what is picked. */
module Banner {
  import opened HolidayTypes
  import opened JsText
  import opened Match
  import opened Normalize
  import opened StableData

  predicate WinnerEquiv(a: Option<Holiday>, b: Option<Holiday>) {
    a.Some? == b.Some? && (a.Some? && b.Some? ==> HolidayEquiv(a.value, b.value))
  }

  lemma NormalizeOneRespectsEquiv(a: Holiday, b: Holiday)
    requires HolidayEquiv(a, b)
    ensures WinnerEquiv(NormalizeOne(ToLoose(a)), NormalizeOne(ToLoose(b)))
  {
    var la, lb := ToLoose(a), ToLoose(b);
    assert NormalizeSingle(la.date) == NormalizeSingle(lb.date);
    assert NormalizedMulti(la.multi) == NormalizedMulti(lb.multi) by {
      if a.multi.Some? && b.multi.Some? {
        assert a.multi.value == b.multi.value;
      } else if a.multi.Some? {
        assert a.multi.value == [] && LooseMonthDays(a.multi.value) == [];
      } else if b.multi.Some? {
        assert b.multi.value == [] && LooseMonthDays(b.multi.value) == [];
      }
    }
    var ra, rb := NormalizeRange(la.range), NormalizeRange(lb.range);
    assert ra.Some? == rb.Some?;
    assert RangeEquiv(ra, rb);
  }

  lemma ListEquivConcat(a1: seq<Holiday>, b1: seq<Holiday>, a2: seq<Holiday>, b2: seq<Holiday>)
    requires ListEquiv(a1, b1) && ListEquiv(a2, b2)
    ensures ListEquiv(a1 + a2, b1 + b2)
  {
    forall i | 0 <= i < |a1 + a2| ensures HolidayEquiv((a1 + a2)[i], (b1 + b2)[i]) {
      if i >= |a1| {
        assert (a1 + a2)[i] == a2[i - |a1|] && (b1 + b2)[i] == b2[i - |b1|];
      }
    }
  }

  /** Appending deep-equal outcomes of one record keeps two lists deep-equal. */
  lemma AppendOutcomeEquiv(pa: seq<Holiday>, pb: seq<Holiday>, na: Option<Holiday>, nb: Option<Holiday>)
    requires ListEquiv(pa, pb) && WinnerEquiv(na, nb)
    ensures ListEquiv(pa + (if na.Some? then [na.value] else []), pb + (if nb.Some? then [nb.value] else []))
  {
    var sa := if na.Some? then [na.value] else [];
    var sb := if nb.Some? then [nb.value] else [];
    assert ListEquiv(sa, sb);
    ListEquivConcat(pa, pb, sa, sb);
  }

  /** Deep-equal lists normalize to deep-equal lists. */
  lemma {:induction false} NormalizedListRespectsEquiv(a: seq<Holiday>, b: seq<Holiday>)
    requires ListEquiv(a, b)
    ensures ListEquiv(NormalizedList(ToLooseList(a)), NormalizedList(ToLooseList(b)))
  {
    if a != [] {
      var n := |a|;
      var ia, ib := a[..n - 1], b[..n - 1];
      var pa, pb := NormalizedList(ToLooseList(ia)), NormalizedList(ToLooseList(ib));
      var na, nb := NormalizeOne(ToLoose(a[n - 1])), NormalizeOne(ToLoose(b[n - 1]));
      NormalizedStrictListSnoc(a);
      NormalizedStrictListSnoc(b);
      assert ListEquiv(pa, pb) by {
        assert ListEquiv(ia, ib);
        NormalizedListRespectsEquiv(ia, ib);
      }
      assert WinnerEquiv(na, nb) by {
        NormalizeOneRespectsEquiv(a[n - 1], b[n - 1]);
      }
      AppendOutcomeEquiv(pa, pb, na, nb);
    }
  }

  /** Deep-equal records sort identically against any other record. */
  lemma RankRespectsEquiv(a: Holiday, b: Holiday, x: Holiday)
    requires HolidayEquiv(a, b)
    ensures Compare(a, x) == Compare(b, x) && Compare(x, a) == Compare(x, b)
  {
  }

  /** Deep-equal records match the same instants. */
  lemma MatchRespectsEquiv(a: Holiday, b: Holiday, now: Instant)
    requires HolidayEquiv(a, b)
    ensures MatchesToday(a, now) == MatchesToday(b, now)
  {
    assert IsActive(a) == IsActive(b);
    assert MatchRange(Today(now), a.range) == MatchRange(Today(now), b.range) by {
      if a.range.Some? {
        assert Inclusive(a.range.value) == Inclusive(b.range.value);
      }
    }
  }

  lemma {:induction false} MatchingRespectsEquiv(a: seq<Holiday>, b: seq<Holiday>, now: Instant)
    requires ListEquiv(a, b)
    ensures ListEquiv(Matching(a, now), Matching(b, now))
  {
    if a != [] {
      MatchRespectsEquiv(a[0], b[0], now);
      assert ListEquiv(a[1..], b[1..]);
      MatchingRespectsEquiv(a[1..], b[1..], now);
    }
  }

  lemma {:induction false} ResolveIndexRespectsEquiv(a: seq<Holiday>, b: seq<Holiday>)
    requires ListEquiv(a, b) && |a| > 0
    ensures ResolveIndex(a) == ResolveIndex(b)
    decreases |a|
  {
    if |a| > 1 {
      assert ListEquiv(a[1..], b[1..]);
      ResolveIndexRespectsEquiv(a[1..], b[1..]);
      var k := ResolveIndex(a[1..]) + 1;
      RankRespectsEquiv(a[k], b[k], a[0]);
      RankRespectsEquiv(a[0], b[0], b[k]);
    }
  }

  /** Picking from deep-equal lists gives deep-equal winners. */
  lemma PickRespectsEquiv(a: seq<Holiday>, b: seq<Holiday>, now: Instant)
    requires ListEquiv(a, b)
    ensures WinnerEquiv(PickHolidayForNow(a, now), PickHolidayForNow(b, now))
  {
    if |a| > 0 {
      var ma, mb := Matching(a, now), Matching(b, now);
      MatchingRespectsEquiv(a, b, now);
      if |ma| > 0 {
        ResolveIndexRespectsEquiv(ma, mb);
      }
    }
  }

  /** Whether the cache hands back its previous list or the new one, the
      record shown is the same up to deep equality. */
  lemma CacheIsTransparent(cached: seq<Holiday>, input: seq<Holiday>, now: Instant)
    requires ListEquiv(cached, input)
    ensures WinnerEquiv(
      PickHolidayForNow(NormalizedList(ToLooseList(cached)), now),
      PickHolidayForNow(NormalizedList(ToLooseList(input)), now))
  {
    NormalizedListRespectsEquiv(cached, input);
    PickRespectsEquiv(NormalizedList(ToLooseList(cached)), NormalizedList(ToLooseList(input)), now);
  }

  /** One evaluation: the stabilized list, normalized, then the pick. */
  method SelectHoliday(cache: StableHolidaysData, holidaysData: array?<Holiday>, now: Instant)
    returns (winner: Option<Holiday>)
    modifies cache
    ensures cache.current != null
    ensures winner == PickHolidayForNow(NormalizedList(ToLooseList(cache.current[..])), now)
    ensures holidaysData == null ==> winner.None?
    ensures holidaysData != null ==>
      WinnerEquiv(winner, PickHolidayForNow(NormalizedList(ToLooseList(holidaysData[..])), now))
  {
    var stable := cache.Use(holidaysData);
    var normalized := NormalizeHolidayList(Some(ToLooseList(stable[..])));
    winner := PickHolidayForNow(normalized, now);
    if holidaysData != null {
      CacheIsTransparent(stable[..], holidaysData[..], now);
    }
  }
}
