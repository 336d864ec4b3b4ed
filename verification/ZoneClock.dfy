/** Wall clocks. A zone is the table of its offsets; an instant and an offset are
    milliseconds since 1970-01-01T00:00Z. This stands in for `Intl`. */
module ZoneClock {
  import opened Gregorian

  const MINUTE := 60_000
  const DAY := 86_400_000

  datatype Change = Change(at: int, offset: int)

  /** The offset before the first change, then the changes in order. */
  datatype Zone = Zone(first: int, changes: seq<Change>)

  function OffsetFrom(current: int, changes: seq<Change>, t: int): int
    decreases |changes|
  {
    if changes == [] || t < changes[0].at then current
    else OffsetFrom(changes[0].offset, changes[1..], t)
  }

  function OffsetAt(z: Zone, t: int): int {
    OffsetFrom(z.first, z.changes, t)
  }

  /** The offset in force is that of the last change that has come, or the first one. */
  lemma {:induction false} OffsetInForce(current: int, changes: seq<Change>, t: int, i: nat)
    requires forall j, k | 0 <= j < k < |changes| :: changes[j].at < changes[k].at
    requires i <= |changes| && (i < |changes| ==> t < changes[i].at) && (i > 0 ==> changes[i - 1].at <= t)
    ensures OffsetFrom(current, changes, t) == if i == 0 then current else changes[i - 1].offset
    decreases |changes|
  {
    if changes != [] && i > 0 {
      assert changes[0].at <= t;
      OffsetInForce(changes[0].offset, changes[1..], t, i - 1);
    }
  }

  /** The reading of the zone's clock at `t`, as if it were UTC. */
  function Reading(z: Zone, t: int): int {
    t + OffsetAt(z, t)
  }

  /** The day the zone's calendar shows at `t`. */
  function LocalDay(z: Zone, t: int): int {
    Reading(z, t) / DAY
  }

  // ---------- the clock to the minute ----------

  predicate Aligned(t: int) { t % MINUTE == 0 }

  function FloorMinute(x: int): int { x / MINUTE * MINUTE }

  function Floored(changes: seq<Change>): seq<Change> {
    seq(|changes|, i requires 0 <= i < |changes| => Change(changes[i].at, FloorMinute(changes[i].offset)))
  }

  /** The zone as a clock without seconds shows it: every offset rounded down to the
      minute. Local mean times have seconds; standard times have none. */
  function Shown(z: Zone): Zone {
    Zone(FloorMinute(z.first), Floored(z.changes))
  }

  lemma {:induction false} FlooredOffset(current: int, changes: seq<Change>, t: int)
    ensures OffsetFrom(FloorMinute(current), Floored(changes), t) == FloorMinute(OffsetFrom(current, changes, t))
    decreases |changes|
  {
    if changes != [] && t >= changes[0].at {
      assert Floored(changes)[1..] == Floored(changes[1..]);
      FlooredOffset(changes[0].offset, changes[1..], t);
    }
  }

  lemma FloorFacts(t: int, o: int)
    requires Aligned(t)
    ensures FloorMinute(t + o) == t + FloorMinute(o)
    ensures Aligned(FloorMinute(o)) && Aligned(t - FloorMinute(o)) && Aligned(t + FloorMinute(o))
    ensures o >= t ==> FloorMinute(o) >= t
  {
    var k, q := t / MINUTE, o / MINUTE;
    assert t == MINUTE * k && o == MINUTE * q + o % MINUTE;
    assert t + o == MINUTE * (k + q) + o % MINUTE;
    assert t - MINUTE * q == MINUTE * (k - q) && t + MINUTE * q == MINUTE * (k + q);
  }

  /** At a whole minute, the clock without seconds reads what the zone's clock reads,
      less the seconds. */
  lemma ShownReading(z: Zone, t: int)
    requires Aligned(t)
    ensures Reading(Shown(z), t) == FloorMinute(Reading(z, t)) && Aligned(t - OffsetAt(Shown(z), t))
  {
    FlooredOffset(z.first, z.changes, t);
    FloorFacts(t, OffsetAt(z, t));
  }

  // ---------- how large the offsets are, and how often they change ----------

  predicate Within(o: int, m: nat) { -o <= m && o <= m }

  ghost predicate TableFrom(current: int, changes: seq<Change>, m: nat) {
    && Within(current, m)
    && (forall i | 0 <= i < |changes| :: Within(changes[i].offset, m))
    && (forall i, j | 0 <= i < j < |changes| :: changes[i].at < changes[j].at)
  }

  /** The changes are in order, and every offset lies within `m` of UTC. */
  ghost predicate Table(z: Zone, m: nat) {
    TableFrom(z.first, z.changes, m)
  }

  /** Changes are at least `d` apart. */
  ghost predicate Spaced(z: Zone, d: nat) {
    forall i, j | 0 <= i < j < |z.changes| :: z.changes[j].at - z.changes[i].at >= d
  }

  /** No two changes after `lo` and up to `hi`. */
  ghost predicate CalmBetween(changes: seq<Change>, lo: int, hi: int) {
    forall i, j | 0 <= i < j < |changes| :: changes[i].at <= lo || hi < changes[j].at
  }

  /** At most one change in the stretch of `m` around the wall clock `w`. */
  ghost predicate CalmAround(z: Zone, m: nat, w: int) {
    CalmBetween(z.changes, w - m, w + m)
  }

  /** Spacing of twice the largest offset is calm everywhere. */
  lemma SpacedIsCalm(z: Zone, m: nat, w: int)
    requires Spaced(z, 2 * m)
    ensures CalmAround(z, m, w)
  {}

  lemma ShownTable(z: Zone, m: int, w: int)
    requires m >= 0 && Table(z, m) && Aligned(m)
    ensures Table(Shown(z), m)
    ensures CalmAround(z, m, w) <==> CalmAround(Shown(z), m, w)
  {
    forall o | Within(o, m) ensures Within(FloorMinute(o), m) {
      FloorFacts(-m, o);
    }
    assert forall i | 0 <= i < |z.changes| :: Shown(z).changes[i].at == z.changes[i].at;
  }

  lemma {:induction false} OffsetBounds(current: int, changes: seq<Change>, m: nat, t: int)
    requires TableFrom(current, changes, m)
    ensures Within(OffsetFrom(current, changes, t), m)
    decreases |changes|
  {
    if changes != [] && t >= changes[0].at {
      OffsetBounds(changes[0].offset, changes[1..], m, t);
    }
  }

  lemma {:induction false} NoChangeBefore(current: int, changes: seq<Change>, hi: int)
    requires changes != [] ==> hi < changes[0].at
    ensures forall t | t <= hi :: OffsetFrom(current, changes, t) == current
  {}

  /** A calm stretch sees at most one change: `a` before `at`, `b` from there. */
  lemma {:induction false} OneChange(current: int, changes: seq<Change>, m: nat, lo: int, hi: int)
    returns (at: int, a: int, b: int)
    requires TableFrom(current, changes, m) && CalmBetween(changes, lo, hi)
    ensures forall t | lo <= t <= hi :: OffsetFrom(current, changes, t) == if t < at then a else b
    ensures Within(a, m) && Within(b, m)
    decreases |changes|
  {
    if changes == [] || hi < changes[0].at {
      NoChangeBefore(current, changes, hi);
      at, a, b := lo, current, current;
    } else if changes[0].at <= lo {
      at, a, b := OneChange(changes[0].offset, changes[1..], m, lo, hi);
    } else {
      NoChangeBefore(changes[0].offset, changes[1..], hi);
      at, a, b := changes[0].at, current, changes[0].offset;
    }
  }
}
