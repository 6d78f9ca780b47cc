/**
 * The library's documented examples, as lemmas over the model: concrete
 * dates in Zurich and Istanbul, written as day numbers since 1970-01-01
 * and times of day.
 */
module Fixtures {
  import opened Zones
  import opened Sedate

  /** The Zurich table is sorted. */
  lemma ZurichSorted()
    ensures Sorted(Zurich.changes)
  {
  }

  /** Zurich alternates between standard time (+01:00) and summer time (+02:00). */
  lemma ZurichAlternates()
    ensures Alternates(Zurich, Hour, 2 * Hour)
  {
  }

  /** The Istanbul table is sorted. */
  lemma IstanbulSorted()
    ensures Sorted(Istanbul.changes)
  {
  }

  /** The Zurich offset in force from change `k` up to the next one. */
  lemma ZurichAt(k: int, t: Instant)
    requires 0 <= k < |Zurich.changes|
    requires Zurich.changes[k].at <= t && (k + 1 < |Zurich.changes| ==> t < Zurich.changes[k + 1].at)
    ensures OffsetAt(Zurich, t) == Zurich.changes[k].offset
  {
    ZurichSorted();
    OffsetBetween(Zurich, k, t);
  }

  /** Localizing a Zurich wall clock whose candidate instants both fall after change `k` and before the next. */
  lemma ZurichLocalize(k: int, w: Wall)
    requires 0 <= k < |Zurich.changes|
    requires Zurich.changes[k].at <= w - 2 * Hour && (k + 1 < |Zurich.changes| ==> w - Hour < Zurich.changes[k + 1].at)
    ensures Localize(Zurich, w) == w - Zurich.changes[k].offset
    ensures Local(Zurich, Localize(Zurich, w)) == w
  {
    ZurichAlternates();
    ZurichAt(k, w - Hour);
    ZurichAt(k, w - 2 * Hour);
    LocalizeSteady(Zurich, Hour, 2 * Hour, w);
  }

  /** Localizing a Zurich wall clock read before the first change in the table, in standard time. */
  lemma ZurichLocalizeEarly(w: Wall)
    requires w - Hour < Zurich.changes[0].at
    ensures Localize(Zurich, w) == w - Hour
    ensures Local(Zurich, Localize(Zurich, w)) == w
  {
    ZurichAlternates();
    assert OffsetAt(Zurich, w - Hour) == Hour;
    assert OffsetAt(Zurich, w - 2 * Hour) == Hour;
    LocalizeSteady(Zurich, Hour, 2 * Hour, w);
  }

  /** The Istanbul offset in force from change `k` up to the next one. */
  lemma IstanbulAt(k: int, t: Instant)
    requires 0 <= k < |Istanbul.changes|
    requires Istanbul.changes[k].at <= t && (k + 1 < |Istanbul.changes| ==> t < Istanbul.changes[k + 1].at)
    ensures OffsetAt(Istanbul, t) == Istanbul.changes[k].offset
  {
    IstanbulSorted();
    OffsetBetween(Istanbul, k, t);
  }

  /** Zurich 2014-10-01 13:30, summer time, standardizes to 11:30 UTC, from a naive or an aware reading. */
  lemma StandardizeZurich()
    ensures StandardizeDate(Naive(At(16344, 13 * Hour + 30 * Minute)), Zurich)
         == Aware(At(16344, 11 * Hour + 30 * Minute), Utc)
    ensures StandardizeDate(ReplaceTimezone(Naive(At(16344, 13 * Hour + 30 * Minute)), Zurich), Zurich)
         == Aware(At(16344, 11 * Hour + 30 * Minute), Utc)
  {
    ZurichLocalize(4, At(16344, 13 * Hour + 30 * Minute));
  }

  /** A wall-clock reading in Zurich, made aware (the examples' `replace_timezone(..., 'Europe/Zurich')`). */
  function InZurich(w: Wall): Timestamp
  {
    ReplaceTimezone(Naive(w), Zurich)
  }

  /**
   * Unfolding step for the whole-day examples: for two Zurich readings in the
   * same period of the table, `IsWholeDay` is evaluated on the readings themselves.
   */
  lemma ZurichWholeDay(k: int, first: Wall, last: Wall)
    requires 0 <= k < |Zurich.changes|
    requires Zurich.changes[k].at <= first - 2 * Hour && (k + 1 < |Zurich.changes| ==> first - Hour < Zurich.changes[k + 1].at)
    requires Zurich.changes[k].at <= last - 2 * Hour && (k + 1 < |Zurich.changes| ==> last - Hour < Zurich.changes[k + 1].at)
    ensures IsWholeDay(InZurich(first), InZurich(last), Zurich)
         == Ok(TimeOf(first) == 0 && last > first && (TimeOf(last) / Second == LastSecond || TimeOf(last) == 0))
  {
    ZurichLocalize(k, first);
    ZurichLocalize(k, last);
  }

  /** 2015-06-30 in Zurich is whole from midnight to the next midnight. */
  lemma WholeDayToMidnight()
    ensures IsWholeDay(InZurich(At(16616, 0)), InZurich(At(16617, 0)), Zurich) == Ok(true)
  {
    ZurichWholeDay(6, At(16616, 0), At(16617, 0));
  }

  /** 2015-06-30 in Zurich is whole from midnight to 23:59:59. */
  lemma WholeDayToLastSecond()
    ensures IsWholeDay(InZurich(At(16616, 0)), InZurich(At(16616, Day - Second)), Zurich) == Ok(true)
  {
    ZurichWholeDay(6, At(16616, 0), At(16616, Day - Second));
    assert TimeOf(At(16616, Day - Second)) / Second == LastSecond;
  }

  /** 2015-06-30 in Zurich is not whole from midnight to 01:00, nor to 23:59:58. */
  lemma WholeDayEndsEarly()
    ensures IsWholeDay(InZurich(At(16616, 0)), InZurich(At(16616, Hour)), Zurich) == Ok(false)
    ensures IsWholeDay(InZurich(At(16616, 0)), InZurich(At(16616, Day - 2 * Second)), Zurich) == Ok(false)
  {
    ZurichWholeDay(6, At(16616, 0), At(16616, Hour));
    ZurichWholeDay(6, At(16616, 0), At(16616, Day - 2 * Second));
  }

  /** 2015-06-30 00:00 to 2015-06-29 23:59:59 in Zurich runs backwards and is not a whole day. */
  lemma WholeDayReversed()
    ensures IsWholeDay(InZurich(At(16616, 0)), InZurich(At(16615, Day - Second)), Zurich) == Ok(false)
  {
    ZurichWholeDay(6, At(16616, 0), At(16615, Day - Second));
  }

  /** 2015-06-30 in Zurich is not whole from 00:00:00.000999 to 23:59:59. */
  lemma WholeDayStartsLate()
    ensures IsWholeDay(InZurich(At(16616, 999)), InZurich(At(16616, Day - Second)), Zurich) == Ok(false)
  {
    ZurichWholeDay(6, At(16616, 999), At(16616, Day - Second));
  }

  /** Both ranges on 2015-01-01 overlap the span from 2015-01-01 10:00 to 2015-01-10 13:00. */
  lemma CountOverlapsExample()
    ensures CountOverlaps([(Naive(At(16436, 10 * Hour)), Naive(At(16436, 11 * Hour))),
                           (Naive(At(16436, 12 * Hour)), Naive(At(16436, 13 * Hour)))],
                          Naive(At(16436, 10 * Hour)), Naive(At(16445, 13 * Hour))) == Ok(2)
  {
    var first := (Naive(At(16436, 10 * Hour)), Naive(At(16436, 11 * Hour)));
    var second := (Naive(At(16436, 12 * Hour)), Naive(At(16436, 13 * Hour)));
    var start, end := Naive(At(16436, 10 * Hour)), Naive(At(16445, 13 * Hour));
    assert Overlaps(first.0, first.1, start, end) == Ok(true);
    assert Overlaps(second.0, second.1, start, end) == Ok(true);
    assert CountOverlaps([], start, end) == Ok(0);
    assert [first, second][1..] == [second] && [second][1..] == [];
    assert CountOverlaps([second], start, end) == Ok(1);
  }

  /** Unfolding step for the alignment examples: `AlignDateToDay` on an aware timestamp, written out. */
  lemma AlignedInstant(ts: Timestamp, z: Zone, dir: Direction)
    requires ts.Aware?
    ensures AlignDateToDay(ts, z, dir) == Ok(Aware(Localize(z, DayBoundary(Local(z, ts.instant), dir)), ts.zone))
  {
  }

  /** 2012-01-24 10:00 UTC, as the examples standardize it. */
  lemma UnalignedExample()
    ensures StandardizeDate(Naive(At(15363, 10 * Hour)), Utc) == Aware(At(15363, 10 * Hour), Utc)
    ensures Local(Zurich, At(15363, 10 * Hour)) == At(15363, 11 * Hour)
  {
    LocalizeSteady(Utc, 0, 0, At(15363, 10 * Hour));
    StandardizedInstant(At(15363, 10 * Hour), Utc);
  }

  /** 10:00 to 11:00 on 2015-01-01 in Zurich aligns to the whole of that day. */
  lemma AlignRangeExample()
    ensures AlignRangeToDay(InZurich(At(16436, 10 * Hour)), InZurich(At(16436, 11 * Hour)), Zurich)
         == Ok((InZurich(At(16436, 0)), InZurich(At(16436, Day - 1))))
  {
    ZurichLocalize(5, At(16436, 10 * Hour));
    ZurichLocalize(5, At(16436, 11 * Hour));
  }

  /** From 12:00 to 11:00 on 2015-01-01 in Zurich ends at 11:00 on the next day. */
  lemma GetDateRangeExample()
    ensures GetDateRange(InZurich(At(16436, 0)), 12 * Hour, 11 * Hour)
         == (InZurich(At(16436, 12 * Hour)), InZurich(At(16437, 11 * Hour)))
  {
    ZurichLocalize(5, At(16436, 0));
  }

  /** 2014-10-26, the day summer time ends (25 hours), is a whole day in Zurich. */
  lemma WholeDaySummertime()
    ensures IsWholeDay(StandardizeDate(Naive(At(16369, 0)), Zurich),
                       StandardizeDate(Naive(At(16369, Day - Second)), Zurich), Zurich) == Ok(true)
  {
    ZurichLocalize(4, At(16369, 0));
    ZurichLocalize(5, At(16369, Day - Second));
    assert TimeOf(At(16369, Day - Second)) / Second == LastSecond;
  }

  /** The same instants, read in Istanbul, start at 01:00 and are not a whole day. */
  lemma WholeDaySummertimeIstanbul()
    ensures IsWholeDay(StandardizeDate(Naive(At(16369, 0)), Zurich),
                       StandardizeDate(Naive(At(16369, Day - Second)), Zurich), Istanbul) == Ok(false)
  {
    ZurichLocalize(4, At(16369, 0));
    IstanbulAt(0, At(16369, 0) - 2 * Hour);
    assert TimeOf(Local(Istanbul, At(16369, 0) - 2 * Hour)) == Hour;
    WholeDayNeedsMidnightStart(StandardizeDate(Naive(At(16369, 0)), Zurich),
                               StandardizeDate(Naive(At(16369, Day - Second)), Zurich), Istanbul);
  }

  /** 2015-03-29, the day summer time starts (23 hours), is a whole day in Zurich. */
  lemma WholeDayWintertime()
    ensures IsWholeDay(StandardizeDate(Naive(At(16523, 0)), Zurich),
                       StandardizeDate(Naive(At(16523, Day - Second)), Zurich), Zurich) == Ok(true)
  {
    ZurichLocalize(5, At(16523, 0));
    ZurichLocalize(6, At(16523, Day - Second));
    assert TimeOf(At(16523, Day - Second)) / Second == LastSecond;
  }

  /** The same instants, read in Istanbul, start at 01:00 and are not a whole day. */
  lemma WholeDayWintertimeIstanbul()
    ensures IsWholeDay(StandardizeDate(Naive(At(16523, 0)), Zurich),
                       StandardizeDate(Naive(At(16523, Day - Second)), Zurich), Istanbul) == Ok(false)
  {
    ZurichLocalize(5, At(16523, 0));
    IstanbulAt(1, At(16523, 0) - Hour);
    assert TimeOf(Local(Istanbul, At(16523, 0) - Hour)) == Hour;
    WholeDayNeedsMidnightStart(StandardizeDate(Naive(At(16523, 0)), Zurich),
                               StandardizeDate(Naive(At(16523, Day - Second)), Zurich), Istanbul);
  }

  /** A naive reading is refused by `ToTimezone`, `IsWholeDay` and `AlignDateToDay`. */
  lemma NaiveRefused()
    ensures ToTimezone(Naive(At(16369, 0)), Utc) == Err(NotTimezoneAware)
    ensures IsWholeDay(Naive(At(16369, 0)), Naive(At(16369, 0)), Utc) == Err(NotTimezoneAware)
    ensures AlignDateToDay(Naive(At(16369, 0)), Utc, Up) == Err(NotTimezoneAware)
  {
  }

  /** Identical and touching ranges on 2013-01-01 overlap, ranges a second apart do not; naive or standardized from Zurich. */
  lemma OverlapsExamples()
    ensures Overlaps(Naive(At(15706, 12 * Hour)), Naive(At(15706, 13 * Hour)),
                     Naive(At(15706, 12 * Hour)), Naive(At(15706, 13 * Hour))) == Ok(true)
    ensures Overlaps(Naive(At(15706, 11 * Hour)), Naive(At(15706, 12 * Hour)),
                     Naive(At(15706, 12 * Hour)), Naive(At(15706, 13 * Hour))) == Ok(true)
    ensures Overlaps(Naive(At(15706, 11 * Hour)), Naive(At(15706, 12 * Hour - Second)),
                     Naive(At(15706, 12 * Hour)), Naive(At(15706, 13 * Hour))) == Ok(false)
    ensures Overlaps(StandardizeDate(Naive(At(15706, 12 * Hour)), Zurich), StandardizeDate(Naive(At(15706, 13 * Hour)), Zurich),
                     StandardizeDate(Naive(At(15706, 12 * Hour)), Zurich), StandardizeDate(Naive(At(15706, 13 * Hour)), Zurich)) == Ok(true)
    ensures Overlaps(StandardizeDate(Naive(At(15706, 11 * Hour)), Zurich), StandardizeDate(Naive(At(15706, 12 * Hour)), Zurich),
                     StandardizeDate(Naive(At(15706, 12 * Hour)), Zurich), StandardizeDate(Naive(At(15706, 13 * Hour)), Zurich)) == Ok(true)
    ensures Overlaps(StandardizeDate(Naive(At(15706, 11 * Hour)), Zurich), StandardizeDate(Naive(At(15706, 12 * Hour - Second)), Zurich),
                     StandardizeDate(Naive(At(15706, 12 * Hour)), Zurich), StandardizeDate(Naive(At(15706, 13 * Hour)), Zurich)) == Ok(false)
  {
    ZurichLocalize(1, At(15706, 11 * Hour));
    ZurichLocalize(1, At(15706, 12 * Hour - Second));
    ZurichLocalize(1, At(15706, 12 * Hour));
    ZurichLocalize(1, At(15706, 13 * Hour));
    OverlapsStandardized(At(15706, 12 * Hour), At(15706, 13 * Hour), At(15706, 12 * Hour), At(15706, 13 * Hour), Zurich);
    OverlapsStandardized(At(15706, 11 * Hour), At(15706, 12 * Hour), At(15706, 12 * Hour), At(15706, 13 * Hour), Zurich);
    OverlapsStandardized(At(15706, 11 * Hour), At(15706, 12 * Hour - Second), At(15706, 12 * Hour), At(15706, 13 * Hour), Zurich);
  }

  /** 2012-01-24 10:00 UTC aligns down to Zurich midnight, as a UTC timestamp. */
  lemma AlignDownExample()
    ensures AlignDateToDay(StandardizeDate(Naive(At(15363, 10 * Hour)), Utc), Zurich, Down)
         == Ok(StandardizeDate(Naive(At(15363, 0)), Zurich))
  {
    UnalignedExample();
    AlignedInstant(Aware(At(15363, 10 * Hour), Utc), Zurich, Down);
    assert DayBoundary(At(15363, 11 * Hour), Down) == At(15363, 0);
    StandardizedInstant(At(15363, 0), Zurich);
  }

  /** Zurich midnight of 2012-01-01 is already aligned down. */
  lemma AlignDownFixed()
    ensures AlignDateToDay(InZurich(At(15340, 0)), Zurich, Down) == Ok(InZurich(At(15340, 0)))
  {
    ZurichLocalizeEarly(At(15340, 0));
    AlignReplacedBoundary(At(15340, 0), Zurich, Down);
  }

  /** 2012-01-24 10:00 UTC aligns up to the last microsecond of that day in Zurich, as a UTC timestamp. */
  lemma AlignUpExample()
    ensures AlignDateToDay(StandardizeDate(Naive(At(15363, 10 * Hour)), Utc), Zurich, Up)
         == Ok(StandardizeDate(Naive(At(15363, Day - 1)), Zurich))
  {
    UnalignedExample();
    AlignedInstant(Aware(At(15363, 10 * Hour), Utc), Zurich, Up);
    assert DayBoundary(At(15363, 11 * Hour), Up) == At(15363, Day - 1);
    StandardizedInstant(At(15363, Day - 1), Zurich);
  }

  /** 2012-01-01 23:59:59.999999 in Zurich is already aligned up. */
  lemma AlignUpFixed()
    ensures AlignDateToDay(InZurich(At(15340, Day - 1)), Zurich, Up) == Ok(InZurich(At(15340, Day - 1)))
  {
    ZurichLocalizeEarly(At(15340, Day - 1));
    AlignReplacedBoundary(At(15340, Day - 1), Zurich, Up);
  }
}
