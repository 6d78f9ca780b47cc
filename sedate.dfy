/**
 * The timestamp utilities: normalizing to UTC, converting between zones,
 * aligning a timestamp to the start or end of its local day, the whole-day
 * test, closed-interval overlap, overlap counting, and building a date range
 * from a day and two times of day.
 */
module Sedate {
  import opened Zones

  /**
   * A naive timestamp is a bare wall-clock reading. An aware timestamp is an
   * instant together with the zone it is displayed in; its wall-clock fields
   * are the instant read in that zone.
   */
  datatype Timestamp = Naive(wall: Wall) | Aware(instant: Instant, zone: Zone)

  datatype Error =
    | NotTimezoneAware  // an operation that needs an instant was given a naive timestamp
    | Incomparable      // a naive timestamp was compared with an aware one

  datatype Result<T> = Ok(value: T) | Err(error: Error) {
    predicate IsFailure() { Err? }
    function PropagateFailure<U>(): Result<U> requires Err? { Err(error) }
    function Extract(): T requires Ok? { value }
  }

  /** Which end of the local day to align to. */
  datatype Direction = Down | Up

  /** The wall-clock fields of a timestamp. */
  function WallClock(ts: Timestamp): Wall
  {
    match ts
    case Naive(w) => w
    case Aware(t, z) => Local(z, t)
  }

  // ---------------------------------------------------------------------------
  // Normalization
  // ---------------------------------------------------------------------------

  /**
   * Attaches zone `z` to the wall-clock fields of `ts`: the result is the
   * instant at which `z` shows those fields.
   */
  function ReplaceTimezone(ts: Timestamp, z: Zone): (r: Timestamp)
    ensures r.Aware? && r.zone == z
    ensures Readable(z, WallClock(ts)) ==> WallClock(r) == WallClock(ts)
  {
    LocalizeReads(z, WallClock(ts));
    Aware(Localize(z, WallClock(ts)), z)
  }

  /**
   * The instant of `ts` displayed in UTC. A naive `ts` is first read as a
   * wall clock of `z`; an aware one keeps its instant and `z` plays no part.
   */
  function StandardizeDate(ts: Timestamp, z: Zone): (r: Timestamp)
    ensures r.Aware? && r.zone == Utc
    ensures ts.Aware? ==> r.instant == ts.instant
    ensures ts.Naive? && Readable(z, ts.wall) ==> Local(z, r.instant) == ts.wall
  {
    var aware := if ts.Naive? then ReplaceTimezone(ts, z) else ts;
    Aware(aware.instant, Utc)
  }

  /** The instant of an aware `ts` displayed in zone `z`; a naive `ts` has no instant. */
  function ToTimezone(ts: Timestamp, z: Zone): (r: Result<Timestamp>)
    ensures r.Err? <==> ts.Naive?
    ensures r.Err? ==> r.error == NotTimezoneAware
    ensures r.Ok? ==> r.value.Aware? && r.value.instant == ts.instant && r.value.zone == z
    ensures r.Ok? ==> WallClock(r.value) == Local(z, ts.instant)
  {
    match ts
    case Naive(_) => Err(NotTimezoneAware)
    case Aware(t, _) => Ok(Aware(t, z))
  }

  /** Standardizing is idempotent, whatever zone the second call names. */
  lemma StandardizeIdempotent(ts: Timestamp, z: Zone, z': Zone)
    ensures StandardizeDate(StandardizeDate(ts, z), z') == StandardizeDate(ts, z)
  {
  }

  /** Converting to another zone and back gives the original timestamp. */
  lemma ToTimezoneRoundTrip(ts: Timestamp, z: Zone)
    requires ts.Aware?
    ensures ToTimezone(ts, z).Ok?
    ensures ToTimezone(ToTimezone(ts, z).value, ts.zone) == Ok(ts)
  {
  }

  /**
   * A naive reading standardizes to the latest instant at which `z` shows it:
   * every instant that shows the reading is no later.
   */
  lemma StandardizeLatest(w: Wall, z: Zone, t: Instant)
    requires Local(z, t) == w
    ensures Local(z, StandardizeDate(Naive(w), z).instant) == w
    ensures t <= StandardizeDate(Naive(w), z).instant
  {
    LocalizeLatest(z, w, t);
  }

  // ---------------------------------------------------------------------------
  // Day alignment
  // ---------------------------------------------------------------------------

  /** The time of day a day boundary shows: 00:00:00.000000 down, 23:59:59.999999 up. */
  function BoundaryTime(dir: Direction): TimeOfDay
  {
    if dir == Down then 0 else Day - 1
  }

  /** The boundary of the local day that wall-clock reading `w` falls on. */
  function DayBoundary(w: Wall, dir: Direction): (b: Wall)
    ensures DayOf(b) == DayOf(w) && TimeOf(b) == BoundaryTime(dir)
    ensures dir == Down ==> b <= w
    ensures dir == Up ==> w <= b
  {
    At(DayOf(w), BoundaryTime(dir))
  }

  /**
   * Aligns an aware timestamp to the start (down) or end (up) of its local day
   * in zone `z`, and displays the result in the timestamp's own zone.
   */
  function AlignDateToDay(ts: Timestamp, z: Zone, dir: Direction): (r: Result<Timestamp>)
    ensures r.Err? <==> ts.Naive?
    ensures r.Err? ==> r.error == NotTimezoneAware
    ensures r.Ok? ==> r.value.Aware? && r.value.zone == ts.zone
  {
    var local :- ToTimezone(ts, z);
    var boundary := ReplaceTimezone(Naive(DayBoundary(WallClock(local), dir)), z);
    ToTimezone(boundary, ts.zone)
  }

  /**
   * The aligned instant shows the day boundary in `z`, on the local day of
   * `ts` in `z`, however many hours that day has there.
   */
  lemma AlignReadsBoundary(ts: Timestamp, z: Zone, dir: Direction)
    requires ts.Aware?
    requires Readable(z, DayBoundary(Local(z, ts.instant), dir))
    ensures AlignDateToDay(ts, z, dir).Ok?
    ensures Local(z, AlignDateToDay(ts, z, dir).value.instant) == DayBoundary(Local(z, ts.instant), dir)
    ensures DayOf(Local(z, AlignDateToDay(ts, z, dir).value.instant)) == DayOf(Local(z, ts.instant))
    ensures TimeOf(Local(z, AlignDateToDay(ts, z, dir).value.instant)) == BoundaryTime(dir)
  {
    var b := DayBoundary(Local(z, ts.instant), dir);
    assert ReplaceTimezone(Naive(b), z).instant == Localize(z, b);
  }

  /** Aligning an aligned timestamp again changes nothing. */
  lemma AlignIdempotent(ts: Timestamp, z: Zone, dir: Direction)
    requires ts.Aware?
    requires Readable(z, DayBoundary(Local(z, ts.instant), dir))
    ensures AlignDateToDay(ts, z, dir).Ok?
    ensures AlignDateToDay(AlignDateToDay(ts, z, dir).value, z, dir) == AlignDateToDay(ts, z, dir)
  {
    AlignReadsBoundary(ts, z, dir);
    var b := DayBoundary(Local(z, ts.instant), dir);
    DayAndTime(b);
    assert DayBoundary(b, dir) == b;
  }

  /**
   * A timestamp that already shows the day boundary in `z`, and is the latest
   * instant to show that reading, is left as it is.
   */
  lemma AlignKeepsAligned(ts: Timestamp, z: Zone, dir: Direction)
    requires ts.Aware?
    requires TimeOf(Local(z, ts.instant)) == BoundaryTime(dir)
    requires forall s :: Local(z, s) == Local(z, ts.instant) ==> s <= ts.instant
    ensures AlignDateToDay(ts, z, dir) == Ok(ts)
  {
    var w := Local(z, ts.instant);
    DayAndTime(w);
    assert DayBoundary(w, dir) == w;
    LocalizeOfReading(z, ts.instant);
  }

  /** A day boundary attached to `z` by `ReplaceTimezone` is already aligned in `z`. */
  lemma AlignReplacedBoundary(w: Wall, z: Zone, dir: Direction)
    requires TimeOf(w) == BoundaryTime(dir)
    requires Readable(z, w)
    ensures AlignDateToDay(ReplaceTimezone(Naive(w), z), z, dir) == Ok(ReplaceTimezone(Naive(w), z))
  {
    var ts := ReplaceTimezone(Naive(w), z);
    assert Local(z, ts.instant) == w;
    forall s | Local(z, s) == w
      ensures s <= ts.instant
    {
      LocalizeLatest(z, w, s);
    }
    AlignKeepsAligned(ts, z, dir);
  }

  /** Aligns the start of a range down and its end up. */
  function AlignRangeToDay(start: Timestamp, end: Timestamp, z: Zone): (r: Result<(Timestamp, Timestamp)>)
    ensures r.Err? <==> start.Naive? || end.Naive?
    ensures r.Err? ==> r.error == NotTimezoneAware
    ensures r.Ok? ==> r.value.0.Aware? && r.value.0.zone == start.zone
    ensures r.Ok? ==> r.value.1.Aware? && r.value.1.zone == end.zone
  {
    var s :- AlignDateToDay(start, z, Down);
    var e :- AlignDateToDay(end, z, Up);
    Ok((s, e))
  }

  /**
   * A range within one local day `d` of `z` is widened to that whole day:
   * from its 00:00:00.000000 to its 23:59:59.999999.
   */
  lemma AlignRangeSameDay(start: Timestamp, end: Timestamp, z: Zone, d: int)
    requires start.Aware? && end.Aware?
    requires DayOf(Local(z, start.instant)) == d && DayOf(Local(z, end.instant)) == d
    requires Readable(z, At(d, 0)) && Readable(z, At(d, Day - 1))
    ensures AlignRangeToDay(start, end, z).Ok?
    ensures Local(z, AlignRangeToDay(start, end, z).value.0.instant) == At(d, 0)
    ensures Local(z, AlignRangeToDay(start, end, z).value.1.instant) == At(d, Day - 1)
  {
    AlignReadsBoundary(start, z, Down);
    AlignReadsBoundary(end, z, Up);
  }

  // ---------------------------------------------------------------------------
  // The whole-day test
  // ---------------------------------------------------------------------------

  /** The last whole second of a day, 23:59:59, counted in seconds since midnight. */
  const LastSecond: int := Day / Second - 1

  /**
   * Whether `start` and `end`, read in zone `z`, delimit whole local days: the
   * start is exactly local midnight, and the end comes after it and is within
   * the second 23:59:59 or exactly a local midnight.
   */
  function IsWholeDay(start: Timestamp, end: Timestamp, z: Zone): (r: Result<bool>)
    ensures r.Err? <==> start.Naive? || end.Naive?
    ensures r.Err? ==> r.error == NotTimezoneAware
  {
    var s :- ToTimezone(start, z);
    var e :- ToTimezone(end, z);
    var first, last := WallClock(s), WallClock(e);
    Ok(TimeOf(first) == 0 && last > first && (TimeOf(last) / Second == LastSecond || TimeOf(last) == 0))
  }

  /**
   * Local midnight of day `d` and any reading within 23:59:59 of a day, or any
   * later midnight, both read as naive wall clocks of `z` and standardized,
   * make a whole day in `z`, whether `z` changes its offset on that day or not.
   */
  lemma WholeDayOfStandardized(z: Zone, d: int, last: Wall)
    requires Readable(z, At(d, 0)) && Readable(z, last)
    requires last > At(d, 0) && (TimeOf(last) / Second == LastSecond || TimeOf(last) == 0)
    ensures IsWholeDay(StandardizeDate(Naive(At(d, 0)), z), StandardizeDate(Naive(last), z), z) == Ok(true)
  {
    var s := StandardizeDate(Naive(At(d, 0)), z);
    var e := StandardizeDate(Naive(last), z);
    assert Local(z, s.instant) == At(d, 0);
    assert Local(z, e.instant) == last;
    assert TimeOf(At(d, 0)) == 0;
    var first := WallClock(ToTimezone(s, z).value);
    assert first == At(d, 0);
    assert WallClock(ToTimezone(e, z).value) == last;
  }

  /**
   * A whole day starts at an aligned instant: aligning its start down in `z`
   * gives the start back (for the latest instant with that reading).
   */
  lemma WholeDayStartsAligned(start: Timestamp, end: Timestamp, z: Zone)
    requires start.Aware? && end.Aware?
    requires forall s :: Local(z, s) == Local(z, start.instant) ==> s <= start.instant
    ensures IsWholeDay(start, end, z).Ok?
    ensures IsWholeDay(start, end, z).value ==> AlignDateToDay(start, z, Down) == Ok(start)
  {
    if IsWholeDay(start, end, z).value {
      AlignKeepsAligned(start, z, Down);
    }
  }

  /**
   * The start must show exactly 00:00:00.000000 in `z`: off by even one
   * microsecond, the range is not a whole day.
   */
  lemma WholeDayNeedsMidnightStart(start: Timestamp, end: Timestamp, z: Zone)
    requires start.Aware? && end.Aware?
    requires TimeOf(Local(z, start.instant)) != 0
    ensures IsWholeDay(start, end, z) == Ok(false)
  {
  }

  /**
   * The end of a whole day reads after the start, and within the second
   * 23:59:59 or exactly at a local midnight; any other end, on whatever day,
   * is not a whole day.
   */
  lemma WholeDayEndRule(start: Timestamp, end: Timestamp, z: Zone)
    requires IsWholeDay(start, end, z) == Ok(true)
    ensures start.Aware? && end.Aware?
    ensures Local(z, start.instant) < Local(z, end.instant)
    ensures TimeOf(Local(z, end.instant)) >= LastSecond * Second || TimeOf(Local(z, end.instant)) == 0
  {
  }

  /**
   * The end must show a time within the second 23:59:59 in `z`, or be a later
   * local midnight; 01:00 or 23:59:58 on the start's day is not a whole day.
   */
  lemma WholeDayNeedsLastSecondEnd(start: Timestamp, end: Timestamp, z: Zone)
    requires start.Aware? && end.Aware?
    requires TimeOf(Local(z, end.instant)) < LastSecond * Second
    requires DayOf(Local(z, end.instant)) <= DayOf(Local(z, start.instant))
    ensures IsWholeDay(start, end, z) == Ok(false)
  {
    var first, last := Local(z, start.instant), Local(z, end.instant);
    if IsWholeDay(start, end, z) == Ok(true) {
      WholeDayEndRule(start, end, z);
      DayAndTime(first);
      DayAndTime(last);
      assert false;
    }
  }

  /** A start that does not read before the end is never a whole day, so a reversed range is not one. */
  lemma WholeDayNeedsLaterEnd(start: Timestamp, end: Timestamp, z: Zone)
    requires start.Aware? && end.Aware?
    requires Local(z, end.instant) <= Local(z, start.instant)
    ensures IsWholeDay(start, end, z) == Ok(false)
  {
    if IsWholeDay(start, end, z) == Ok(true) {
      WholeDayEndRule(start, end, z);
    }
  }

  /** A range whose end reads no earlier than its start, aligned to days in `z`, is a whole day in `z`. */
  lemma WholeDayOfAlignedRange(start: Timestamp, end: Timestamp, z: Zone)
    requires start.Aware? && end.Aware?
    requires Local(z, start.instant) <= Local(z, end.instant)
    requires Readable(z, DayBoundary(Local(z, start.instant), Down))
    requires Readable(z, DayBoundary(Local(z, end.instant), Up))
    ensures AlignRangeToDay(start, end, z).Ok?
    ensures IsWholeDay(AlignRangeToDay(start, end, z).value.0, AlignRangeToDay(start, end, z).value.1, z) == Ok(true)
  {
    var first, last := Local(z, start.instant), Local(z, end.instant);
    assert DayOf(first) <= DayOf(last) by {
      DayAndTime(first);
      DayAndTime(last);
    }
    AlignReadsBoundary(start, z, Down);
    AlignReadsBoundary(end, z, Up);
    var s := AlignDateToDay(start, z, Down).value;
    var e := AlignDateToDay(end, z, Up).value;
    assert AlignRangeToDay(start, end, z) == Ok((s, e));
    WholeDayOfBoundaries(s, e, z);
  }

  /**
   * A start showing 00:00:00.000000 and an end showing 23:59:59.999999 in `z`,
   * on the start's day or a later one, make a whole day in `z`.
   */
  lemma WholeDayOfBoundaries(start: Timestamp, end: Timestamp, z: Zone)
    requires start.Aware? && end.Aware?
    requires TimeOf(Local(z, start.instant)) == BoundaryTime(Down)
    requires TimeOf(Local(z, end.instant)) == BoundaryTime(Up)
    requires DayOf(Local(z, start.instant)) <= DayOf(Local(z, end.instant))
    ensures IsWholeDay(start, end, z) == Ok(true)
  {
    DayAndTime(Local(z, start.instant));
    DayAndTime(Local(z, end.instant));
  }

  // ---------------------------------------------------------------------------
  // Overlaps
  // ---------------------------------------------------------------------------

  /** Naive timestamps compare by wall clock, aware ones by instant; a naive and an aware one do not compare. */
  function LessOrEqual(a: Timestamp, b: Timestamp): (r: Result<bool>)
    ensures r.Err? <==> a.Naive? != b.Naive?
    ensures r.Err? ==> r.error == Incomparable
  {
    match (a, b)
    case (Naive(x), Naive(y)) => Ok(x <= y)
    case (Aware(x, _), Aware(y, _)) => Ok(x <= y)
    case _ => Err(Incomparable)
  }

  /** Whether the closed ranges [s1, e1] and [s2, e2] overlap: `s1 <= e2 and s2 <= e1`, left to right. */
  function Overlaps(s1: Timestamp, e1: Timestamp, s2: Timestamp, e2: Timestamp): (r: Result<bool>)
    ensures r.Err? ==> r.error == Incomparable
    ensures s1.Naive? == e2.Naive? && s2.Naive? == e1.Naive? ==> r.Ok?
  {
    var startsInTime :- LessOrEqual(s1, e2);
    if startsInTime then LessOrEqual(s2, e1) else Ok(false)
  }

  /** The point on the time line a timestamp stands for: its wall clock if naive, its instant if aware. */
  function Position(ts: Timestamp): int
  {
    if ts.Naive? then ts.wall else ts.instant
  }

  /** Point `x` lies in the closed range from `s` to `e`. */
  ghost predicate Covers(s: Timestamp, e: Timestamp, x: int)
  {
    Position(s) <= x <= Position(e)
  }

  /** Two ranges of one kind, neither ending before it starts, overlap exactly when some point lies in both, end points included. */
  lemma OverlapsIffCommonPoint(s1: Timestamp, e1: Timestamp, s2: Timestamp, e2: Timestamp)
    requires s1.Naive? == e1.Naive? == s2.Naive? == e2.Naive?
    requires Position(s1) <= Position(e1) && Position(s2) <= Position(e2)
    ensures Overlaps(s1, e1, s2, e2).Ok?
    ensures Overlaps(s1, e1, s2, e2).value <==> exists x :: Covers(s1, e1, x) && Covers(s2, e2, x)
  {
    if Overlaps(s1, e1, s2, e2).value {
      var x := if Position(s1) < Position(s2) then Position(s2) else Position(s1);
      assert Covers(s1, e1, x) && Covers(s2, e2, x);
    }
  }

  /** Overlap does not depend on which range comes first. */
  lemma OverlapsSymmetric(s1: Timestamp, e1: Timestamp, s2: Timestamp, e2: Timestamp)
    requires s1.Naive? == e2.Naive? && s2.Naive? == e1.Naive?
    ensures Overlaps(s1, e1, s2, e2) == Overlaps(s2, e2, s1, e1)
  {
  }

  /** Unfolds `StandardizeDate` for a naive reading: the instant `Localize` assigns it, in UTC. */
  lemma StandardizedInstant(w: Wall, z: Zone)
    ensures StandardizeDate(Naive(w), z) == Aware(Localize(z, w), Utc)
  {
  }

  /**
   * Standardizing four naive end points in one zone does not change whether
   * the ranges overlap, as long as the zone shows one offset at all four.
   */
  lemma OverlapsStandardized(s1: Wall, e1: Wall, s2: Wall, e2: Wall, z: Zone)
    requires s1 - Localize(z, s1) == e1 - Localize(z, e1) == s2 - Localize(z, s2) == e2 - Localize(z, e2)
    ensures Overlaps(StandardizeDate(Naive(s1), z), StandardizeDate(Naive(e1), z),
                     StandardizeDate(Naive(s2), z), StandardizeDate(Naive(e2), z))
         == Overlaps(Naive(s1), Naive(e1), Naive(s2), Naive(e2))
  {
    StandardizedInstant(s1, z);
    StandardizedInstant(e1, z);
    StandardizedInstant(s2, z);
    StandardizedInstant(e2, z);
    OverlapsShifted(s1, e1, s2, e2, s1 - Localize(z, s1));
  }

  /** Moving four naive end points by one offset onto the UTC time line keeps their overlap. */
  lemma OverlapsShifted(s1: Wall, e1: Wall, s2: Wall, e2: Wall, o: int)
    ensures Overlaps(Aware(s1 - o, Utc), Aware(e1 - o, Utc), Aware(s2 - o, Utc), Aware(e2 - o, Utc))
         == Overlaps(Naive(s1), Naive(e1), Naive(s2), Naive(e2))
  {
  }

  /** Counts the ranges that overlap the range from `start` to `end`, in order; the first failing comparison fails the count. */
  function CountOverlaps(ranges: seq<(Timestamp, Timestamp)>, start: Timestamp, end: Timestamp): (r: Result<nat>)
    ensures r.Ok? ==> r.value <= |ranges|
    ensures r.Err? ==> r.error == Incomparable
  {
    if ranges == [] then Ok(0)
    else
      var hit :- Overlaps(ranges[0].0, ranges[0].1, start, end);
      var others :- CountOverlaps(ranges[1..], start, end);
      Ok((if hit then 1 else 0) + others)
  }

  /** The positions in `ranges` of the ranges that overlap the range from `start` to `end`. */
  ghost function OverlapIndices(ranges: seq<(Timestamp, Timestamp)>, start: Timestamp, end: Timestamp): set<int>
  {
    set i | 0 <= i < |ranges| && Overlaps(ranges[i].0, ranges[i].1, start, end) == Ok(true)
  }

  /** `CountOverlaps` fails exactly when some range does not compare with the query range. */
  lemma {:induction false} CountOverlapsFails(ranges: seq<(Timestamp, Timestamp)>, start: Timestamp, end: Timestamp)
    ensures CountOverlaps(ranges, start, end).Err?
        <==> exists i :: 0 <= i < |ranges| && Overlaps(ranges[i].0, ranges[i].1, start, end).Err?
  {
    if ranges != [] {
      var tail := ranges[1..];
      CountOverlapsFails(tail, start, end);
      if !Overlaps(ranges[0].0, ranges[0].1, start, end).Err? {
        if exists i :: 0 <= i < |tail| && Overlaps(tail[i].0, tail[i].1, start, end).Err? {
          var i :| 0 <= i < |tail| && Overlaps(tail[i].0, tail[i].1, start, end).Err?;
          assert ranges[i + 1] == tail[i];
        }
        if exists i :: 0 <= i < |ranges| && Overlaps(ranges[i].0, ranges[i].1, start, end).Err? {
          var i :| 0 <= i < |ranges| && Overlaps(ranges[i].0, ranges[i].1, start, end).Err?;
          assert tail[i - 1] == ranges[i];
        }
      }
    }
  }

  /** Counting over one more range at the end adds one exactly when that range overlaps the query range. */
  lemma {:induction false} CountOverlapsAppend(ranges: seq<(Timestamp, Timestamp)>, r: (Timestamp, Timestamp), start: Timestamp, end: Timestamp)
    requires CountOverlaps(ranges + [r], start, end).Ok?
    ensures CountOverlaps(ranges, start, end).Ok? && Overlaps(r.0, r.1, start, end).Ok?
    ensures CountOverlaps(ranges + [r], start, end).value
         == CountOverlaps(ranges, start, end).value + (if Overlaps(r.0, r.1, start, end).value then 1 else 0)
  {
    if ranges == [] {
      assert [] + [r] == [r];
      assert [r][1..] == [];
    } else {
      assert (ranges + [r])[0] == ranges[0];
      assert (ranges + [r])[1..] == ranges[1..] + [r];
      CountOverlapsAppend(ranges[1..], r, start, end);
    }
  }

  /** The overlapping positions of `ranges + [r]`: those of `ranges`, and the last one if `r` overlaps. */
  lemma OverlapIndicesAppend(ranges: seq<(Timestamp, Timestamp)>, r: (Timestamp, Timestamp), start: Timestamp, end: Timestamp)
    ensures |OverlapIndices(ranges + [r], start, end)|
         == |OverlapIndices(ranges, start, end)| + (if Overlaps(r.0, r.1, start, end) == Ok(true) then 1 else 0)
  {
    var n := |ranges|;
    var all := ranges + [r];
    var earlier := OverlapIndices(ranges, start, end);
    var last: set<int> := if Overlaps(r.0, r.1, start, end) == Ok(true) then {n} else {};
    forall i | i in OverlapIndices(all, start, end)
      ensures i in earlier + last
    {
      if i < n {
        assert all[i] == ranges[i];
      }
    }
    forall i | i in earlier + last
      ensures i in OverlapIndices(all, start, end)
    {
      if i < n {
        assert all[i] == ranges[i];
      }
    }
    assert OverlapIndices(all, start, end) == earlier + last;
    assert n !in earlier;
  }

  /** When `CountOverlaps` succeeds, it is the number of ranges that overlap the query range. */
  lemma {:induction false} CountOverlapsCounts(ranges: seq<(Timestamp, Timestamp)>, start: Timestamp, end: Timestamp)
    requires CountOverlaps(ranges, start, end).Ok?
    ensures CountOverlaps(ranges, start, end).value == |OverlapIndices(ranges, start, end)|
  {
    if ranges == [] {
      assert OverlapIndices(ranges, start, end) == {};
    } else {
      var n := |ranges| - 1;
      var init, last := ranges[..n], ranges[n];
      assert ranges == init + [last];
      CountOverlapsAppend(init, last, start, end);
      CountOverlapsCounts(init, start, end);
      OverlapIndicesAppend(init, last, start, end);
    }
  }

  // ---------------------------------------------------------------------------
  // Date ranges from a day and two times of day
  // ---------------------------------------------------------------------------

  /**
   * The wall clocks of a range on the local day of `day`: from `startTime`
   * to `endTime`, where an end time not after the start time falls on the
   * next day.
   */
  function RangeWalls(day: Timestamp, startTime: TimeOfDay, endTime: TimeOfDay): (r: (Wall, Wall))
    ensures DayOf(r.0) == DayOf(WallClock(day)) && TimeOf(r.0) == startTime
    ensures DayOf(r.1) == DayOf(WallClock(day)) + (if endTime <= startTime then 1 else 0)
    ensures TimeOf(r.1) == endTime
    ensures 0 < r.1 - r.0 <= Day
  {
    var d := DayOf(WallClock(day));
    (At(d, startTime), if endTime <= startTime then At(d + 1, endTime) else At(d, endTime))
  }

  /** The range from `startTime` to `endTime` on the day of `day`, in the zone of `day`. */
  function GetDateRange(day: Timestamp, startTime: TimeOfDay, endTime: TimeOfDay): (r: (Timestamp, Timestamp))
    ensures day.Naive? ==> r.0 == Naive(RangeWalls(day, startTime, endTime).0)
    ensures day.Naive? ==> r.1 == Naive(RangeWalls(day, startTime, endTime).1)
    ensures day.Aware? ==> r.0.Aware? && r.0.zone == day.zone && r.1.Aware? && r.1.zone == day.zone
  {
    var (first, last) := RangeWalls(day, startTime, endTime);
    match day
    case Naive(_) => (Naive(first), Naive(last))
    case Aware(_, z) => (ReplaceTimezone(Naive(first), z), ReplaceTimezone(Naive(last), z))
  }

  /**
   * In the zone of an aware `day`, the range starts at `startTime` on that day
   * and ends at `endTime` on that day or, when `endTime <= startTime`, on the next.
   */
  lemma GetDateRangeReads(day: Timestamp, startTime: TimeOfDay, endTime: TimeOfDay)
    requires day.Aware?
    requires Readable(day.zone, RangeWalls(day, startTime, endTime).0)
    requires Readable(day.zone, RangeWalls(day, startTime, endTime).1)
    ensures var r := GetDateRange(day, startTime, endTime);
            && DayOf(WallClock(r.0)) == DayOf(WallClock(day)) && TimeOf(WallClock(r.0)) == startTime
            && DayOf(WallClock(r.1)) == DayOf(WallClock(day)) + (if endTime <= startTime then 1 else 0)
            && TimeOf(WallClock(r.1)) == endTime
  {
  }
}
