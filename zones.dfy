/**
 * Time zones, instants and wall-clock readings.
 *
 * An instant counts microseconds since 1970-01-01 00:00 UTC. A zone is an
 * offset table: the offset in force before its first change, and a list of
 * changes (the instant a new offset takes effect, and that offset), sorted by
 * instant. Reading an instant in a zone adds the offset in force at that
 * instant; localizing a wall-clock reading in a zone goes the other way and
 * picks, among the instants that read that way, the latest one (the
 * standard-time reading of an ambiguous hour).
 */
module Zones {

  /** Microseconds in one second, one minute, one hour and one civil day. */
  const Second: int := 1_000_000
  const Minute: int := 60 * Second
  const Hour: int := 60 * Minute
  const Day: int := 24 * Hour

  /** Microseconds since 1970-01-01 00:00 UTC. */
  type Instant = int

  /** Local microseconds since local 1970-01-01 00:00: the wall clock. */
  type Wall = int

  /** An offset from UTC; its magnitude stays below one day. */
  type Offset = o: int | -86_400_000_000 < o < 86_400_000_000

  /** A time of day: microseconds since local midnight. */
  type TimeOfDay = t: int | 0 <= t < 86_400_000_000

  datatype Option<T> = None | Some(value: T)

  /** From instant `at` on, the zone is `offset` ahead of UTC. */
  datatype Change = Change(at: Instant, offset: Offset)

  datatype Zone = Zone(initial: Offset, changes: seq<Change>)

  /** Coordinated Universal Time: offset zero, no changes. */
  const Utc: Zone := Zone(0, [])

  /** The offsets that `changes` switch to, in order. */
  function ChangeOffsets(changes: seq<Change>): (os: seq<Offset>)
    ensures |os| == |changes|
  {
    if changes == [] then [] else [changes[0].offset] + ChangeOffsets(changes[1..])
  }

  /** Every offset the zone ever uses: its initial one, then one per change. */
  function Offsets(z: Zone): seq<Offset>
  {
    [z.initial] + ChangeOffsets(z.changes)
  }

  /** The offset in force at `t`, given that `current` is in force up to the first of `changes`. */
  function OffsetFrom(current: Offset, changes: seq<Change>, t: Instant): Offset
    decreases |changes|
  {
    if changes == [] || t < changes[0].at then current
    else OffsetFrom(changes[0].offset, changes[1..], t)
  }

  /** The offset of zone `z` at instant `t`. */
  function OffsetAt(z: Zone, t: Instant): Offset
  {
    OffsetFrom(z.initial, z.changes, t)
  }

  /** The offset in force is the current one or one that the changes switch to. */
  lemma {:induction false} OffsetFromListed(current: Offset, changes: seq<Change>, t: Instant)
    ensures OffsetFrom(current, changes, t) in [current] + ChangeOffsets(changes)
    decreases |changes|
  {
    if changes != [] && changes[0].at <= t {
      OffsetFromListed(changes[0].offset, changes[1..], t);
    }
  }

  /** At every instant, a zone shows one of the offsets it uses. */
  lemma OffsetAtListed(z: Zone, t: Instant)
    ensures OffsetAt(z, t) in Offsets(z)
  {
    OffsetFromListed(z.initial, z.changes, t);
  }

  /** The wall clock of zone `z` at instant `t`. */
  function Local(z: Zone, t: Instant): Wall
  {
    t + OffsetAt(z, t)
  }

  /** Some instant reads `w` on the wall clock of `z` (false inside a daylight-saving gap). */
  ghost predicate Readable(z: Zone, w: Wall)
  {
    exists t :: Local(z, t) == w
  }

  /**
   * Among the candidate instants `w - o` for the offsets `o` in `os`, the latest
   * one whose reading in `z` is `w`, if there is one.
   */
  function LatestReading(z: Zone, w: Wall, os: seq<Offset>): (r: Option<Instant>)
    ensures r.Some? ==> Local(z, r.value) == w && w - r.value in os
    ensures forall o {:trigger o in os} :: o in os && Local(z, w - o) == w ==> r.Some? && w - o <= r.value
    decreases |os|
  {
    if os == [] then None
    else
      var later := LatestReading(z, w, os[1..]);
      var t := w - os[0];
      assert os == [os[0]] + os[1..];
      if Local(z, t) == w && (later.None? || later.value < t) then Some(t) else later
  }

  /**
   * The instant at which the wall clock of `z` reads `w` (localizing a naive
   * reading). An ambiguous reading gives the latest instant; a reading inside
   * a gap is taken with the offset in force one day earlier.
   */
  function Localize(z: Zone, w: Wall): (t: Instant)
    ensures -Day < w - t < Day
  {
    match LatestReading(z, w, Offsets(z))
    case Some(t) => t
    case None => w - OffsetAt(z, w - Day)
  }

  /** Any instant that reads `w` is no later than `Localize(z, w)`, which reads `w` too. */
  lemma LocalizeLatest(z: Zone, w: Wall, t: Instant)
    requires Local(z, t) == w
    ensures Local(z, Localize(z, w)) == w
    ensures t <= Localize(z, w)
  {
    var os := Offsets(z);
    var o := OffsetAt(z, t);
    OffsetAtListed(z, t);
    assert o in os && w - o == t;
    assert Local(z, w - o) == w;
    var r := LatestReading(z, w, os);
    assert r.Some? && t <= r.value;
  }

  /** Localizing a readable wall clock gives an instant with that reading. */
  lemma LocalizeReads(z: Zone, w: Wall)
    ensures Readable(z, w) ==> Local(z, Localize(z, w)) == w
  {
    if Readable(z, w) {
      var t :| Local(z, t) == w;
      LocalizeLatest(z, w, t);
    }
  }

  /** Reading an instant and localizing the reading again gives the instant back, unless a later instant reads the same. */
  lemma LocalizeOfReading(z: Zone, t: Instant)
    requires forall s :: Local(z, s) == Local(z, t) ==> s <= t
    ensures Localize(z, Local(z, t)) == t
  {
    LocalizeLatest(z, Local(z, t), t);
  }

  /** The changes of a table take effect in increasing order of instant. */
  ghost predicate Sorted(changes: seq<Change>)
  {
    forall i :: 0 <= i < |changes| - 1 ==> changes[i].at < changes[i + 1].at
  }

  /** In a sorted table no change precedes the first one. */
  lemma {:induction false} SortedFirst(changes: seq<Change>, k: int)
    requires Sorted(changes) && 0 <= k < |changes|
    ensures changes[0].at <= changes[k].at
  {
    if k > 0 {
      SortedFirst(changes, k - 1);
    }
  }

  /** Between change `k` and the next one, a sorted table is at the offset of change `k`. */
  lemma {:induction false} OffsetFromBetween(current: Offset, changes: seq<Change>, k: int, t: Instant)
    requires Sorted(changes) && 0 <= k < |changes|
    requires changes[k].at <= t && (k + 1 < |changes| ==> t < changes[k + 1].at)
    ensures OffsetFrom(current, changes, t) == changes[k].offset
    decreases k
  {
    SortedFirst(changes, k);
    if k > 0 {
      var rest := changes[1..];
      forall i | 0 <= i < |rest| - 1
        ensures rest[i].at < rest[i + 1].at
      {
        assert rest[i] == changes[i + 1] && rest[i + 1] == changes[i + 2];
      }
      OffsetFromBetween(changes[0].offset, rest, k - 1, t);
    }
  }

  /** A zone with a sorted table shows, from change `k` up to the next change, the offset of change `k`. */
  lemma OffsetBetween(z: Zone, k: int, t: Instant)
    requires Sorted(z.changes) && 0 <= k < |z.changes|
    requires z.changes[k].at <= t && (k + 1 < |z.changes| ==> t < z.changes[k + 1].at)
    ensures OffsetAt(z, t) == z.changes[k].offset
  {
    OffsetFromBetween(z.initial, z.changes, k, t);
  }

  /** Every offset zone `z` uses is `a` or `b` (a zone with standard and summer time). */
  ghost predicate Alternates(z: Zone, a: Offset, b: Offset)
  {
    (z.initial == a || z.initial == b) && forall c :: c in z.changes ==> c.offset == a || c.offset == b
  }

  /** The offsets that changes among `a` and `b` switch to are `a` or `b`. */
  lemma {:induction false} ChangeOffsetsAmong(changes: seq<Change>, a: Offset, b: Offset)
    requires forall c :: c in changes ==> c.offset == a || c.offset == b
    ensures forall o :: o in ChangeOffsets(changes) ==> o == a || o == b
  {
    if changes != [] {
      assert forall c :: c in changes[1..] ==> c in changes;
      ChangeOffsetsAmong(changes[1..], a, b);
    }
  }

  /**
   * When zone `z` shows the same offset at the two candidate instants of
   * wall clock `w`, `w` has exactly one reading and `Localize` finds it.
   */
  lemma LocalizeSteady(z: Zone, a: Offset, b: Offset, w: Wall)
    requires Alternates(z, a, b)
    requires OffsetAt(z, w - a) == OffsetAt(z, w - b)
    ensures Localize(z, w) == w - OffsetAt(z, w - a)
    ensures Local(z, Localize(z, w)) == w
    ensures forall s :: Local(z, s) == w ==> s == Localize(z, w)
  {
    var os := Offsets(z);
    ChangeOffsetsAmong(z.changes, a, b);
    OffsetAtListed(z, w - a);
    assert OffsetAt(z, w - a) == a || OffsetAt(z, w - a) == b;
    var t := w - OffsetAt(z, w - a);
    assert Local(z, t) == w;
    LocalizeLatest(z, w, t);
    var r := LatestReading(z, w, os);
    OffsetAtListed(z, t);
    assert OffsetAt(z, t) in os && w - OffsetAt(z, t) == t;
    assert r.Some? && Localize(z, w) == r.value;
    assert w - r.value in os;
    forall s | Local(z, s) == w
      ensures s == t
    {
      OffsetAtListed(z, s);
    }
  }

  /** The local calendar day (days since 1970-01-01) of a wall-clock reading, rounded down. */
  function DayOf(w: Wall): int
  {
    w / Day
  }

  /** The time of day of a wall-clock reading. */
  function TimeOf(w: Wall): TimeOfDay
  {
    w % Day
  }

  /** The wall-clock reading of time `tod` on local day `d`. */
  function At(d: int, tod: TimeOfDay): (w: Wall)
    ensures DayOf(w) == d && TimeOf(w) == tod
  {
    d * Day + tod
  }

  /** A reading is determined by its day and its time of day. */
  lemma DayAndTime(w: Wall)
    ensures At(DayOf(w), TimeOf(w)) == w
  {
  }

  /*
   * Offset tables for the two zones the library's examples use. They hold only
   * the changes around 2012-2015, at 01:00 UTC on the transition dates, which is
   * all the examples need; they are not a copy of the zone database.
   */

  /** Central European Time: +01:00, and +02:00 in summer (2012-2015). */
  const Zurich: Zone := Zone(Hour, [
    Change(15424 * Day + Hour, 2 * Hour),  // 2012-03-25
    Change(15641 * Day + Hour, Hour),      // 2012-10-28
    Change(15795 * Day + Hour, 2 * Hour),  // 2013-03-31
    Change(16005 * Day + Hour, Hour),      // 2013-10-27
    Change(16159 * Day + Hour, 2 * Hour),  // 2014-03-30
    Change(16369 * Day + Hour, Hour),      // 2014-10-26
    Change(16523 * Day + Hour, 2 * Hour),  // 2015-03-29
    Change(16733 * Day + Hour, Hour)       // 2015-10-25
  ])

  /** Eastern European Time as used in Turkey: +02:00, and +03:00 in summer (2014-2015). */
  const Istanbul: Zone := Zone(2 * Hour, [
    Change(16160 * Day + Hour, 3 * Hour),  // 2014-03-31
    Change(16369 * Day + Hour, 2 * Hour),  // 2014-10-26
    Change(16523 * Day + Hour, 3 * Hour),  // 2015-03-29
    Change(16747 * Day + Hour, 2 * Hour)   // 2015-11-08
  ])
}
