/** due-date.ts: reading an instant as a wall clock, and finding the instant a wall
    clock names. */
module DueDate {
  import opened Gregorian
  import opened ZoneClock

  datatype Parts = Parts(year: int, month: int, day: int, hour: int, minute: int)

  /** The year as `Intl` prints it without an era: 1 BC is year 0 of the calendar. */
  function ShownYear(y: int): int {
    if y <= 0 then 1 - y else y
  }

  function PartsOf(local: int): (p: Parts)
    ensures 1 <= p.month <= 12 && 0 <= p.hour < 24 && 0 <= p.minute < 60
  {
    var minutes := local / MINUTE;
    var date := DateOf(minutes / 1440);
    Parts(ShownYear(date.year), date.month, date.day, minutes % 1440 / 60, minutes % 60)
  }

  function ZonedParts(z: Zone, t: int): (p: Parts)
    ensures 1 <= p.month <= 12 && 0 <= p.hour < 24 && 0 <= p.minute < 60
  {
    PartsOf(Reading(z, t))
  }

  /** `Date.UTC` takes the years 0 to 99 to mean 1900 to 1999. */
  function UtcYear(y: int): int {
    if 0 <= y <= 99 then 1900 + y else y
  }

  function DateUTC(year: int, month: int, day: int, hour: int, minute: int): int
    requires 1 <= month <= 12
  {
    DayNumber(Date(UtcYear(year), month, day)) * DAY + (hour * 60 + minute) * MINUTE
  }

  function Written(p: Parts): int
    requires 1 <= p.month <= 12
  {
    DateUTC(p.year, p.month, p.day, p.hour, p.minute)
  }

  /** `offsetAt`: the zone's offset, measured by reading its clock. */
  function MeasuredOffset(z: Zone, t: int): int {
    Written(ZonedParts(z, t)) - t
  }

  /** `fromDateTimeLocalValue` on the wall clock `w`, itself read as if it were UTC. */
  function FromWallClock(z: Zone, w: int): int {
    var firstPass := w - MeasuredOffset(z, w);
    w - MeasuredOffset(z, firstPass)
  }

  // ---------- what is measured is the offset ----------

  lemma FieldsSum(minutes: int)
    ensures minutes / 1440 * DAY + (minutes % 1440 / 60 * 60 + minutes % 60) * MINUTE == minutes * MINUTE
  {
    var q, r := minutes / 1440, minutes % 1440;
    assert minutes == 60 * (24 * q + r / 60) + r % 60;
  }

  /** Reading a clock and writing the reading down as UTC loses only the seconds, from
      the year 100 on. */
  lemma PartsRoundTrip(local: int)
    requires DateOf(local / MINUTE / 1440).year >= 100
    ensures Written(PartsOf(local)) == local / MINUTE * MINUTE
  {
    hide DateOf, DayNumber;
    FieldsSum(local / MINUTE);
  }

  const YEAR_100 := DayFromYear(100) * DAY

  lemma ReadingRoundTrip(local: int)
    requires local >= YEAR_100
    ensures Written(PartsOf(local)) == FloorMinute(local)
  {
    var n := local / MINUTE / 1440;
    YearStarts(n, 100);
    assert n >= DayFromYear(100);
    PartsRoundTrip(local);
  }

  lemma MeasuredIsOffset(z: Zone, m: nat, t: int)
    requires Table(z, m) && Aligned(m) && Aligned(t) && t - m >= YEAR_100
    ensures MeasuredOffset(z, t) == OffsetAt(Shown(z), t)
    ensures Within(OffsetAt(Shown(z), t), m)
  {
    hide Written, PartsOf, OffsetAt;
    ShownReading(z, t);
    OffsetsWithin(z, m, t);
    ShownTable(z, m, t);
    OffsetsWithin(Shown(z), m, t);
    ReadingRoundTrip(Reading(z, t));
  }

  lemma OffsetsWithin(z: Zone, m: nat, t: int)
    requires Table(z, m)
    ensures Within(OffsetAt(z, t), m)
  {
    OffsetBounds(z.first, z.changes, m, t);
  }

  // ---------- the two passes ----------

  /** The wall clock `w` occurs in the zone. */
  ghost predicate Occurs(z: Zone, w: int) {
    exists t :: Reading(z, t) == w
  }

  function TwoPass(z: Zone, w: int): int {
    w - OffsetAt(z, w - OffsetAt(z, w))
  }

  /** Measuring drops the seconds, so the code computes the two passes over the offsets
      to the minute. */
  lemma FromWallClockIsTwoPass(z: Zone, m: nat, w: int)
    requires Table(z, m) && Aligned(m) && Aligned(w) && w - 2 * m >= YEAR_100
    ensures FromWallClock(z, w) == TwoPass(Shown(z), w) && Aligned(FromWallClock(z, w))
  {
    hide MeasuredOffset, Shown, OffsetAt;
    var first := w - OffsetAt(Shown(z), w);
    ShownReading(z, w);
    ShownReading(z, first);
    MeasuredIsOffset(z, m, w);
    MeasuredIsOffset(z, m, first);
    AlignedMinus(z, w, first);
  }

  lemma AlignedMinus(z: Zone, w: int, t: int)
    requires Aligned(w)
    ensures Aligned(w - OffsetAt(Shown(z), t))
  {
    FlooredOffset(z.first, z.changes, t);
    FloorFacts(w, OffsetAt(z, t));
  }

  /** Every instant that reads `w` lies within `m` of it, where the offset changes at
      most once. */
  lemma NearbyOffsets(z: Zone, m: nat, w: int) returns (at: int, a: int, b: int)
    requires Table(z, m) && CalmAround(z, m, w)
    ensures forall t | w - m <= t <= w + m :: OffsetAt(z, t) == if t < at then a else b
    ensures Within(a, m) && Within(b, m)
    ensures forall t | Reading(z, t) == w :: w - m <= t <= w + m
  {
    at, a, b := OneChange(z.first, z.changes, m, w - m, w + m);
    forall t | Reading(z, t) == w ensures w - m <= t <= w + m {
      OffsetBounds(z.first, z.changes, m, t);
    }
  }

  /** A wall clock that occurs is found, and one that occurs once is found exactly. The
      offsets need only be calm around it. */
  lemma TwoPassInverts(z: Zone, m: nat, w: int)
    requires Table(z, m) && CalmAround(z, m, w)
    ensures Reading(z, TwoPass(z, w)) == w <==> Occurs(z, w)
    ensures forall t :: Reading(z, t) == w && (forall u :: Reading(z, u) == w ==> u == t)
              ==> TwoPass(z, w) == t
  {
    var at, a, b := NearbyOffsets(z, m, w);
    var f := w - OffsetAt(z, w);
    var r := TwoPass(z, w);
    assert OffsetAt(z, f) == if f < at then a else b;
    assert OffsetAt(z, r) == if r < at then a else b;
    if Occurs(z, w) {
      var t :| Reading(z, t) == w;
      assert Reading(z, r) == w;
    }
  }

  /** When the clocks went back over `w`, the instant found is the one whose offset was
      already in force at the instant `w` names in UTC. */
  lemma TwoPassPicks(z: Zone, m: nat, w: int, t: int, u: int)
    requires Table(z, m) && CalmAround(z, m, w) && t < u && Reading(z, t) == Reading(z, u) == w
    ensures TwoPass(z, w) == w - OffsetAt(z, w)
    ensures TwoPass(z, w) == t || TwoPass(z, w) == u
  {
    var at, a, b := NearbyOffsets(z, m, w);
  }

  /** The clocks went forward at `at`, over the wall clock `w`. */
  predicate SkippedAt(z: Zone, at: int, w: int) {
    at + OffsetAt(z, at - 1) <= w < at + OffsetAt(z, at)
  }

  /** When the clocks went forward over `w`, no instant reads `w`; the one found reads
      off by exactly the width of the gap: later if the change had come by the instant
      `w` names in UTC, and earlier if not. */
  lemma TwoPassInGap(z: Zone, m: nat, w: int)
    requires Table(z, m) && CalmAround(z, m, w) && !Occurs(z, w)
    ensures exists at ::
              && SkippedAt(z, at, w)
              && var gap := OffsetAt(z, at) - OffsetAt(z, at - 1);
                 Reading(z, TwoPass(z, w)) == if w < at then w - gap else w + gap
  {
    var at, a, b := NearbyOffsets(z, m, w);
    assert Reading(z, w - a) != w && Reading(z, w - b) != w;
    assert OffsetAt(z, w - a) == if w - a < at then a else b;
    assert OffsetAt(z, w - b) == if w - b < at then a else b;
    var f := w - OffsetAt(z, w);
    assert OffsetAt(z, f) == if f < at then a else b;
    assert OffsetAt(z, TwoPass(z, w)) == if TwoPass(z, w) < at then a else b;
    assert OffsetAt(z, at - 1) == a && OffsetAt(z, at) == b;
    assert SkippedAt(z, at, w);
  }

  // ---------- how far apart the changes must be ----------

  /** The code finds the wall clock `w` if the zone's clock ever shows it. */
  ghost predicate Finds(z: Zone, w: int) {
    Occurs(Shown(z), w) ==> Reading(Shown(z), FromWallClock(z, w)) == w
  }

  /** Where the offsets are calm, the code finds what the clock shows. */
  lemma CalmIsFound(z: Zone, m: nat, w: int)
    requires Table(z, m) && Aligned(m) && CalmAround(z, m, w) && Aligned(w) && w - 2 * m >= YEAR_100
    ensures Finds(z, w)
  {
    ShownTable(z, m, w);
    hide Table, CalmAround, FromWallClock, Shown, Occurs, TwoPass;
    FromWallClockIsTwoPass(z, m, w);
    TwoPassInverts(Shown(z), m, w);
  }

  /** The code finds every wall clock of every zone whose offsets lie within `m` and
      change at least `d` apart, from the year 100 on. */
  ghost predicate Guaranteed(m: nat, d: nat) {
    forall z, w | Table(z, m) && Spaced(z, d) && Aligned(w) && w - 2 * m >= YEAR_100 :: Finds(z, w)
  }

  /** Offsets jump at 0 from none to `m`, and at `gap` to `-m`. */
  function TwoChanges(m: int, gap: int): Zone {
    Zone(0, [Change(0, m), Change(gap, -m)])
  }

  /** A wall clock which that zone's clock shows, once, and the two passes miss. */
  function Missed(m: int, gap: int): int {
    if gap <= m then 0 else gap - m
  }

  lemma TwoChangesOffsets(m: int, gap: int, t: int)
    ensures OffsetAt(TwoChanges(m, gap), t) == if t < 0 then 0 else if t < gap then m else -m
  {
    var late := [Change(gap, -m)];
    assert TwoChanges(m, gap).changes[1..] == late && late[1..] == [];
    assert OffsetFrom(m, late, t) == if t < gap then m else OffsetFrom(-m, [], t);
  }

  /** However little the two changes fall short of twice the largest offset apart, a wall
      clock that occurs is missed. */
  lemma CloseChangesAreMissed(m: int, gap: int)
    requires 0 < gap < 2 * m
    ensures var z, w := TwoChanges(m, gap), Missed(m, gap);
            && Table(z, m) && Spaced(z, gap)
            && Occurs(z, w) && Reading(z, TwoPass(z, w)) != w
  {
    var z, w := TwoChanges(m, gap), Missed(m, gap);
    forall t ensures OffsetAt(z, t) == if t < 0 then 0 else if t < gap then m else -m {
      TwoChangesOffsets(m, gap, t);
    }
    hide OffsetAt;
    assert Reading(z, w + m) == w;
    assert TwoPass(z, w) == w;
  }

  lemma WholeMinutesShown(m: int, gap: int)
    requires Aligned(m)
    ensures Shown(TwoChanges(m, gap)) == TwoChanges(m, gap)
  {
    FloorFacts(-m, 0);
    assert FloorMinute(m) == m && FloorMinute(-m) == -m;
  }

  lemma MissedIsAligned(m: nat, gap: nat)
    requires Aligned(m) && Aligned(gap)
    ensures Aligned(Missed(m, gap))
  {
    FloorFacts(gap, m);
    assert FloorMinute(m) == m;
  }

  lemma ShortSpacingMisses(m: nat, gap: nat)
    requires Aligned(m) && Aligned(gap) && 0 < gap < 2 * m && m <= DAY
    ensures var z, w := TwoChanges(m, gap), Missed(m, gap);
            Table(z, m) && Spaced(z, gap) && Aligned(w) && w - 2 * m >= YEAR_100 && !Finds(z, w)
  {
    hide TwoPass, Occurs, FromWallClock, Shown, TwoChanges, Table, Reading;
    CloseChangesAreMissed(m, gap);
    WholeMinutesShown(m, gap);
    MissedIsAligned(m, gap);
    assert YEAR_100 < -2 * DAY;
    FromWallClockIsTwoPass(TwoChanges(m, gap), m, Missed(m, gap));
  }

  /** The exact condition: changes at least twice the largest offset apart are enough,
      and nothing less is. */
  lemma SpacingThreshold(m: nat, d: nat)
    requires Aligned(m) && Aligned(d) && 0 < m <= DAY
    ensures Guaranteed(m, d) <==> d >= 2 * m
  {
    if d >= 2 * m {
      forall z, w | Table(z, m) && Spaced(z, d) && Aligned(w) && w - 2 * m >= YEAR_100 ensures Finds(z, w) {
        SpacedIsCalm(z, m, w);
        CalmIsFound(z, m, w);
      }
    } else {
      var gap := if d == 0 then MINUTE else d;
      ShortSpacingMisses(m, gap);
      hide Finds;
      assert Spaced(TwoChanges(m, gap), d);
    }
  }

  // ---------- calendar days ----------

  /** `Math.round(n / d)`. */
  function RoundDiv(n: int, d: int): int
    requires d > 0
  {
    (2 * n + d) / (2 * d)
  }

  function UtcNoon(p: Parts): int
    requires 1 <= p.month <= 12
  {
    DateUTC(p.year, p.month, p.day, 12, 0)
  }

  function CalendarDaysBetween(z: Zone, from: int, to: int): int {
    RoundDiv(UtcNoon(ZonedParts(z, to)) - UtcNoon(ZonedParts(z, from)), DAY)
  }

  /** How far `Date.UTC` carries a date of the years 1 to 99. */
  const SHIFT := 693_960

  lemma YearShift(d: Date)
    requires 1 <= d.year <= 99 && Valid(d)
    ensures DayNumber(Date(1900 + d.year, d.month, d.day)) == DayNumber(d) + SHIFT
  {
    var y := d.year;
    assert Leap(1900 + y) == Leap(y) == (y % 4 == 0);
    assert (1900 + y - 1969) / 4 == (y - 1969) / 4 + 475;
    assert (1900 + y - 1901) / 100 == 0 && (y - 1901) / 100 == -19;
    assert (1900 + y - 1601) / 400 == 0 && (y - 1601) / 400 == -4;
  }

  /** From the year 1 on: the noon-to-noon difference divides exactly, so the result is the
      difference of the calendar days shown, unless exactly one of the two falls in the
      years 1 to 99. */
  lemma CalendarDaysAreExact(z: Zone, from: int, to: int)
    requires LocalDay(z, from) >= DayFromYear(1) && LocalDay(z, to) >= DayFromYear(1)
    ensures CalendarDaysBetween(z, from, to) == LocalDay(z, to) - LocalDay(z, from)
       <==> (LocalDay(z, from) < DayFromYear(100) <==> LocalDay(z, to) < DayFromYear(100))
  {
    NoonOfDay(z, from);
    NoonOfDay(z, to);
    RoundExact(UtcDay(z, to) - UtcDay(z, from));
  }

  /** The day number `Date.UTC` gives the day shown at `t`. */
  function UtcDay(z: Zone, t: int): int {
    LocalDay(z, t) + (if LocalDay(z, t) < DayFromYear(100) then SHIFT else 0)
  }

  lemma NoonOfDay(z: Zone, t: int)
    requires LocalDay(z, t) >= DayFromYear(1)
    ensures UtcNoon(ZonedParts(z, t)) == UtcDay(z, t) * DAY + DAY / 2
  {
    var d := DateOf(LocalDay(z, t));
    LocalDayOfMinutes(Reading(z, t));
    YearStarts(LocalDay(z, t), 1);
    YearStarts(LocalDay(z, t), 100);
    if d.year < 100 { YearShift(d); }
  }

  lemma LocalDayOfMinutes(local: int)
    ensures local / MINUTE / 1440 == local / DAY
  {}

  lemma RoundExact(n: int)
    ensures RoundDiv(n * DAY, DAY) == n
  {
    assert 2 * (n * DAY) + DAY == n * (2 * DAY) + DAY;
  }

  /** `Date.UTC` reads both years shown as they are, or both as years from 1900 on. */
  predicate ReadAlike(y: int, z: int) {
    ShownYear(y) <= 99 <==> ShownYear(z) <= 99
  }

  lemma YearsRunBackwards(y: int, z: int)
    requires y < z <= 0 && ReadAlike(y, z)
    ensures UtcYear(ShownYear(z)) < UtcYear(ShownYear(y))
  {}

  lemma DayInYear(d: Date, y: int)
    requires Valid(d)
    ensures DayFromYear(y) <= DayNumber(Date(y, d.month, d.day)) < DayFromYear(y + 1)
  {
    YearLength(y);
    hide DayFromYear;
  }

  lemma NoonInYear(z: Zone, t: int) returns (day: int)
    ensures UtcNoon(ZonedParts(z, t)) == day * DAY + DAY / 2
    ensures var y := UtcYear(ShownYear(DateOf(LocalDay(z, t)).year));
            DayFromYear(y) <= day < DayFromYear(y + 1)
  {
    hide DateOf, DayFromYear, DayNumber, BeforeMonth, UtcYear, ShownYear;
    var d := DateOf(LocalDay(z, t));
    var y := UtcYear(ShownYear(d.year));
    LocalDayOfMinutes(Reading(z, t));
    DayInYear(d, y);
    day := DayNumber(Date(y, d.month, d.day));
  }

  /** Before the year 1 the years shown count back, and so does the distance: of two days
      in different years of that time the later comes out as the earlier. */
  lemma BeforeYearOneRunsBackwards(z: Zone, from: int, to: int)
    requires var y, y' := DateOf(LocalDay(z, from)).year, DateOf(LocalDay(z, to)).year;
             y < y' <= 0 && ReadAlike(y, y')
    ensures CalendarDaysBetween(z, from, to) < 0 < LocalDay(z, to) - LocalDay(z, from)
  {
    hide DateOf, DayFromYear, DayNumber, RoundDiv, UtcNoon, ZonedParts, LocalDay, UtcYear, ShownYear, ReadAlike;
    var d, d' := DateOf(LocalDay(z, from)), DateOf(LocalDay(z, to));
    DateOrder(d, d');
    var a := NoonInYear(z, from);
    var b := NoonInYear(z, to);
    YearsRunBackwards(d.year, d'.year);
    YearsIncrease(UtcYear(ShownYear(d'.year)) + 1, UtcYear(ShownYear(d.year)));
    RoundExact(b - a);
  }

  // ---------- the server's buckets are the client's words ----------

  datatype Bucket = Today | Upcoming

  /** `(due AT TIME ZONE tz)::date` against `(now AT TIME ZONE tz)::date`. */
  predicate InBucket(bucket: Bucket, z: Zone, now: int, due: int) {
    var today, day := DateOf(LocalDay(z, now)), DateOf(LocalDay(z, due));
    match bucket
    case Today => day == today
    case Upcoming => Before(today, day)
  }

  /** The tasks the server files under today and upcoming are those the client puts
      zero, and more than zero, calendar days away. */
  lemma BucketsAgree(z: Zone, now: int, due: int)
    requires LocalDay(z, now) >= DayFromYear(100) && LocalDay(z, due) >= DayFromYear(100)
    ensures InBucket(Today, z, now, due) <==> CalendarDaysBetween(z, now, due) == 0
    ensures InBucket(Upcoming, z, now, due) <==> CalendarDaysBetween(z, now, due) > 0
  {
    CalendarDaysAreExact(z, now, due);
    DateOrder(DateOf(LocalDay(z, now)), DateOf(LocalDay(z, due)));
  }
}
