# sedate, modelled in Dafny

`sedate` is a small Python library of timezone-aware date helpers:
- normalize a timestamp to UTC (`standardize_date`);
- attach a zone to a naive wall-clock reading (`replace_timezone`);
- convert between zones (`to_timezone`);
- align a timestamp or a range to the start and end of its local day (`align_date_to_day`, `align_range_to_day`);
- test whether a range is a whole day (`is_whole_day`);
- test and count overlaps of closed ranges (`overlaps`, `count_overlaps`);
- build a range from a day and two times of day (`get_date_range`).

Operations that need an instant refuse naive input with `NotTimezoneAware`. The behaviour modelled is the behaviour that the library's example suite, `sedate/tests/test_sedate.py`, asserts.

The project has three modules:

- `zones.dfy` (`Zones`) covers time and zones.
  - An instant is an integer count of microseconds since 1970-01-01 00:00 UTC.
  - A zone is an offset table: an initial offset, then the instants at which new offsets take effect.
  - `Local` reads an instant in a zone.
  - `Localize` goes the other way, as the zone library the Python code relies on does with its default choice. It picks the latest instant with the given reading, which is the standard-time one in an ambiguous hour. For a reading inside a daylight-saving gap, it uses the offset in force a day earlier.
  - Calendar days are day numbers since 1970-01-01, with a time of day in microseconds.
  - Two tables stand in for the examples' zones: Europe/Zurich (2012-2015) and Europe/Istanbul (2014-2015).
- `sedate.dfy` (`Sedate`) covers the library functions.
  - A timestamp is `Naive(wall)` or `Aware(instant, zone)`.
  - Each function returns a `Result` where Python raises an exception.
  - Beside the functions sit the lemmas for the properties the library promises: idempotence, round trips, day boundaries on 23- and 25-hour days, independence of daylight saving, overlap as a common point, and the count of overlapping ranges.
- `fixtures.dfy` (`Fixtures`) states every assertion of the example suite as a lemma about concrete dates in the two tables.

`is_whole_day` follows the examples. The start must read exactly 00:00:00.000000 in the zone. The end must read later than the start: within the second 23:59:59 of the start's day or a later day, or exactly a later local midnight. A range that runs backwards is never a whole day. The library's prose describes the end as exactly 23:59:59.999999, but the examples at `sedate/tests/test_sedate.py:43-58` accept an end at 23:59:59.000000 and one at the next midnight.

## Model

| member | source | states |
|---|---|---|
| Zones.Localize | sedate/tests/test_sedate.py:33-40 | the instant chosen for a wall-clock reading is within one day of that reading, as a zone offset is |
| Zones.LocalizeLatest | sedate/tests/test_sedate.py:116-137 | any instant that shows reading w shows it no later than Localize(z, w), which shows w too (an ambiguous hour resolves to its later, standard-time instant) |
| Zones.LocalizeOfReading | sedate/tests/test_sedate.py:198-203 | reading an instant and localizing the reading gives the instant back, unless a later instant reads the same |
| Zones.OffsetBetween | sedate/tests/test_sedate.py:116-137 | in a sorted offset table, the offset from change k up to the next change is the offset of change k |
| Zones.LocalizeSteady | sedate/tests/test_sedate.py:25-40 | in a zone with a standard and a summer offset, a reading whose two candidate instants show the same offset has exactly one instant, and Localize returns it |
| Zones.At | sedate/tests/test_sedate.py:105-113 | the reading built from a day number and a time of day has that day and that time of day |
| Sedate.ReplaceTimezone | sedate/tests/test_sedate.py:33-40 | the result is aware, in zone z, and shows the original wall clock whenever some instant of z shows it |
| Sedate.StandardizeDate | sedate/tests/test_sedate.py:25-40 | the result is in UTC; an aware input keeps its instant; a naive input becomes the instant at which z shows its wall clock |
| Sedate.ToTimezone | sedate/tests/test_sedate.py:140-145 | fails with NotTimezoneAware exactly for naive input; otherwise same instant, new zone, showing the instant's reading in that zone |
| Sedate.StandardizeLatest | sedate/tests/test_sedate.py:25-31 | a naive reading standardizes to an instant that shows that reading in the zone, and no instant showing it comes later |
| Sedate.StandardizeIdempotent | sedate/tests/test_sedate.py:25-40 | standardizing a standardized timestamp again, under any zone, changes nothing |
| Sedate.ToTimezoneRoundTrip | sedate/tests/test_sedate.py:189-196 | converting an aware timestamp to any zone and back to its own gives it back unchanged |
| Sedate.DayBoundary | sedate/tests/test_sedate.py:189-219 | the boundary is on the same local day, at 00:00:00.000000 (down, not after the reading) or 23:59:59.999999 (up, not before it) |
| Sedate.AlignDateToDay | sedate/tests/test_sedate.py:150-151 | fails with NotTimezoneAware exactly for naive input; otherwise the result stays in the timestamp's own zone |
| Sedate.AlignReadsBoundary | sedate/tests/test_sedate.py:189-212 | when some instant of the alignment zone shows the day boundary, the aligned instant shows it, on the same local day, whatever the length of that day |
| Sedate.AlignIdempotent | sedate/tests/test_sedate.py:198-203 | when some instant of the zone shows the day boundary, aligning an aligned timestamp again in the same zone and direction changes nothing |
| Sedate.AlignKeepsAligned | sedate/tests/test_sedate.py:214-219 | a timestamp that already shows the boundary, and is the latest instant to show it, is returned unchanged |
| Sedate.AlignReplacedBoundary | sedate/tests/test_sedate.py:198-203 | a boundary reading attached to a zone by ReplaceTimezone is left unchanged by aligning in that zone |
| Sedate.AlignRangeToDay | sedate/tests/test_sedate.py:90-102 | fails with NotTimezoneAware exactly when either end is naive; otherwise each end keeps its own zone |
| Sedate.AlignRangeSameDay | sedate/tests/test_sedate.py:90-102 | when some instant of the zone shows each boundary of that day, a range inside one local day is widened to read 00:00:00.000000 to 23:59:59.999999 of that day |
| Sedate.IsWholeDay | sedate/tests/test_sedate.py:140-148 | fails with NotTimezoneAware exactly when either end is naive |
| Sedate.WholeDayOfStandardized | sedate/tests/test_sedate.py:116-137 | local midnight to any later reading within 23:59:59 or at midnight, standardized from a zone, is a whole day in that zone whatever offset changes the day holds |
| Sedate.WholeDayStartsAligned | sedate/tests/test_sedate.py:43-58 | the start of a whole day, when it is the latest instant showing local midnight, is aligned: aligning it down gives it back |
| Sedate.WholeDayNeedsMidnightStart | sedate/tests/test_sedate.py:74-80 | a start not exactly at local midnight, off by one microsecond or more, is never a whole day |
| Sedate.WholeDayEndRule | sedate/tests/test_sedate.py:43-80 | in every whole day the end reads after the start, and either within the second 23:59:59 or exactly at midnight, whatever day it falls on |
| Sedate.WholeDayNeedsLaterEnd | sedate/tests/test_sedate.py:43-80 | a range whose end does not read after its start is never a whole day |
| Sedate.WholeDayNeedsLastSecondEnd | sedate/tests/test_sedate.py:60-73 | an end on the start's day before 23:59:59 is never a whole day |
| Sedate.WholeDayOfBoundaries | sedate/tests/test_sedate.py:52-58 | a start showing 00:00:00.000000 and an end showing 23:59:59.999999, on the start's day or a later one, make a whole day |
| Sedate.WholeDayOfAlignedRange | sedate/tests/test_sedate.py:90-102 | any aware range whose end reads no earlier than its start, aligned to days in a zone, is a whole day in that zone |
| Sedate.LessOrEqual | sedate/tests/test_sedate.py:154-186 | fails exactly when a naive timestamp meets an aware one |
| Sedate.Overlaps | sedate/tests/test_sedate.py:154-186 | fails only with Incomparable, and never when each start compares with the other range's end |
| Sedate.OverlapsIffCommonPoint | sedate/tests/test_sedate.py:154-172 | two well-formed ranges of one kind overlap exactly when some point lies in both, end points included (touching ranges overlap) |
| Sedate.OverlapsSymmetric | sedate/tests/test_sedate.py:154-186 | overlap does not depend on which range is given first |
| Sedate.OverlapsStandardized | sedate/tests/test_sedate.py:176-186 | standardizing four end points that share one offset keeps the overlap verdict of the naive readings |
| Sedate.OverlapsShifted | sedate/tests/test_sedate.py:176-186 | moving all four end points by one offset onto the UTC time line keeps the overlap verdict |
| Sedate.CountOverlaps | sedate/tests/test_sedate.py:83-87 | the count never exceeds the number of ranges; the only failure is Incomparable |
| Sedate.CountOverlapsFails | sedate/tests/test_sedate.py:83-87 | the count fails exactly when some range does not compare with the query range |
| Sedate.CountOverlapsAppend | sedate/tests/test_sedate.py:83-87 | one more range at the end adds one to the count exactly when it overlaps |
| Sedate.OverlapIndicesAppend | sedate/tests/test_sedate.py:83-87 | the overlapping positions of a list extended by one range are the old ones plus the new position if it overlaps |
| Sedate.CountOverlapsCounts | sedate/tests/test_sedate.py:83-87 | a successful count equals the number of positions whose range overlaps the query range |
| Sedate.RangeWalls | sedate/tests/test_sedate.py:105-113 | the range starts at the start time on the day's date and ends at the end time, on the next day when the end time is not after the start time; it is positive and at most one day long |
| Sedate.GetDateRange | sedate/tests/test_sedate.py:105-113 | a naive day gives the naive readings of the range; an aware day gives both ends in the day's zone |
| Sedate.GetDateRangeReads | sedate/tests/test_sedate.py:105-113 | in the day's zone, the ends show the start time on the day's date and the end time on that date or the next |
| Fixtures.StandardizeZurich | sedate/tests/test_sedate.py:25-40 | 2014-10-01 13:30 in Zurich, naive or made aware, standardizes to 11:30 UTC |
| Fixtures.WholeDayToMidnight | sedate/tests/test_sedate.py:44-50 | 2015-06-30 00:00 to 2015-07-01 00:00 in Zurich is a whole day |
| Fixtures.WholeDayToLastSecond | sedate/tests/test_sedate.py:52-58 | 2015-06-30 00:00 to 23:59:59 in Zurich is a whole day |
| Fixtures.WholeDayEndsEarly | sedate/tests/test_sedate.py:60-73 | ending at 01:00 or at 23:59:58 is not a whole day |
| Fixtures.WholeDayReversed | sedate/tests/test_sedate.py:43-80 | not an asserted example but the model's rule that the end comes after the start: 2015-06-30 00:00 to 2015-06-29 23:59:59 in Zurich runs backwards and is not a whole day |
| Fixtures.WholeDayStartsLate | sedate/tests/test_sedate.py:74-80 | starting at 00:00:00.000999 is not a whole day |
| Fixtures.CountOverlapsExample | sedate/tests/test_sedate.py:83-87 | both ranges of 2015-01-01 overlap 2015-01-01 10:00 to 2015-01-10 13:00, so the count is 2 |
| Fixtures.AlignRangeExample | sedate/tests/test_sedate.py:90-102 | 10:00 to 11:00 on 2015-01-01 in Zurich aligns to 00:00:00.000000 to 23:59:59.999999 of that day |
| Fixtures.GetDateRangeExample | sedate/tests/test_sedate.py:105-113 | 12:00 to 11:00 on 2015-01-01 in Zurich ends at 11:00 on 2015-01-02 |
| Fixtures.WholeDaySummertime | sedate/tests/test_sedate.py:116-124 | 2014-10-26, a 25-hour day in Zurich, is a whole day there |
| Fixtures.WholeDaySummertimeIstanbul | sedate/tests/test_sedate.py:125 | the same instants read in Istanbul start at 01:00 and are not a whole day |
| Fixtures.WholeDayWintertime | sedate/tests/test_sedate.py:128-136 | 2015-03-29, a 23-hour day in Zurich, is a whole day there |
| Fixtures.WholeDayWintertimeIstanbul | sedate/tests/test_sedate.py:137 | the same instants read in Istanbul start at 01:00 and are not a whole day |
| Fixtures.NaiveRefused | sedate/tests/test_sedate.py:140-151 | to_timezone, is_whole_day and align_date_to_day refuse a naive timestamp with NotTimezoneAware |
| Fixtures.OverlapsExamples | sedate/tests/test_sedate.py:154-186 | identical and touching ranges overlap and ranges one second apart do not, as naive readings and standardized from Zurich |
| Fixtures.AlignDownExample | sedate/tests/test_sedate.py:189-196 | 2012-01-24 10:00 UTC aligned down in Zurich is Zurich midnight of that day, standardized, and still in UTC |
| Fixtures.AlignDownFixed | sedate/tests/test_sedate.py:198-203 | Zurich midnight of 2012-01-01 is already aligned down |
| Fixtures.AlignUpExample | sedate/tests/test_sedate.py:206-212 | 2012-01-24 10:00 UTC aligned up in Zurich is 23:59:59.999999 of that Zurich day, standardized, and still in UTC |
| Fixtures.AlignUpFixed | sedate/tests/test_sedate.py:214-219 | 2012-01-01 23:59:59.999999 in Zurich is already aligned up |

## Left out

- `ensure_timezone` (`sedate/tests/test_sedate.py:8-13`) is not modelled. Zones are given as offset tables, not looked up by name. The zone database is not part of this model.
- `utcnow` (`sedate/tests/test_sedate.py:16-22`) is not modelled, because it reads the system clock.
- The examples check `tzname()` and compare zone objects (`sedate/tests/test_sedate.py:29`, `39`, `194`, `210`). The model compares zone values instead: the name 'UTC' becomes `zone == Utc`.
- Gregorian year, month and day fields are not modelled. Dates are day numbers since 1970-01-01, and the year range of Python's datetime is not enforced.
- Zones.Zurich holds only the offset changes from 2012 to 2015, and Zones.Istanbul only those from 2014 to 2015, which the examples need. Neither holds the full rules of its zone; before 2014 the Istanbul table reads +02:00 all year.
- Zones.Localize: ambiguous and nonexistent readings follow the default choice of the underlying zone library, as the model understands it. An ambiguous reading takes its later instant; a reading in a gap takes the offset in force one day earlier. None of the examples depend on this choice.
- Sedate.ReplaceTimezone: no reading is promised for a wall clock that falls in a daylight-saving gap.
- Sedate.OverlapsStandardized: proved only when the zone shows one offset at all four end points, as in the examples. Across an offset change, standardized end points can move relative to each other.
- Sedate.GetDateRangeReads: the readings are proved only for ends that some instant of the zone shows.
- Sedate.GetDateRange: a naive day yields naive ends. The library documents only aware days.
- Sedate.AlignDateToDay: the direction is a two-valued datatype, so the library's rejection of any direction other than 'up' and 'down' cannot arise.
- Python compares aware datetimes by instant. The model uses structural equality, which also requires the same zone. Every example compares values in the same zone.
- Comparing a naive datetime with an aware one raises `TypeError` in Python. The model returns `Err(Incomparable)`.
