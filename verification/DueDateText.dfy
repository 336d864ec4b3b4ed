/** due-date.ts: the text of a `datetime-local` control, out and back. */
module DueDateText {
  import opened Wrappers
  import opened Gregorian
  import opened ZoneClock
  import opened DueDate
  import D = Digits

  function Pad(n: nat): string { D.PadStart(D.Decimal(n), 2) }

  function LocalText(p: Parts): string
    requires 0 <= p.year && 0 <= p.month && 0 <= p.day && 0 <= p.hour && 0 <= p.minute
  {
    Joined(D.Decimal(p.year), Pad(p.month), Pad(p.day), Pad(p.hour), Pad(p.minute))
  }

  function Joined(y: string, m: string, d: string, h: string, n: string): string {
    y + "-" + m + "-" + d + "T" + h + ":" + n
  }

  function ToDateTimeLocalValue(z: Zone, t: int): string {
    LocalText(ZonedParts(z, t))
  }

  /** `Date.parse(value + ":00.000Z")`, None for an invalid date. */
  function ParseWallClock(v: string): Option<int> {
    if |v| == 16 && v[4] == '-' && v[7] == '-' && v[10] == 'T' && v[13] == ':' then
      match (D.Value(10, v[..4]), D.Value(10, v[5..7]), D.Value(10, v[8..10]),
             D.Value(10, v[11..13]), D.Value(10, v[14..]))
      case (Some(y), Some(m), Some(d), Some(h), Some(n)) =>
        if Valid(Date(y, m, d)) && h < 24 && n < 60 then
          Some(DayNumber(Date(y, m, d)) * DAY + (h * 60 + n) * MINUTE)
        else None
      case _ => None
    else None
  }

  function FromDateTimeLocalValue(z: Zone, v: string): Option<int> {
    match ParseWallClock(v)
    case None => None
    case Some(w) => Some(FromWallClock(z, w))
  }

  // ---------- printing and parsing ----------

  lemma PadIsTwoDigits(n: nat)
    requires n < 100
    ensures |Pad(n)| == 2 && D.Value(10, Pad(n)) == Some(n)
  {
    D.TwoDigits(n);
    assert D.Pow(10, 2) == 100;
    D.ValuePadded(10, n, 2);
  }

  lemma YearIsFourDigits(n: nat)
    requires 1000 <= n <= 9999
    ensures |D.Decimal(n)| == 4 && D.Value(10, D.Decimal(n)) == Some(n)
  {
    assert D.Pow(10, 3) == 1000 && D.Pow(10, 4) == 10000;
    D.DecimalIsPadded(n, 4);
    D.ValuePadded(10, n, 4);
  }

  lemma JoinedFields(y: string, m: string, d: string, h: string, n: string)
    requires |y| == 4 && |m| == |d| == |h| == |n| == 2
    ensures var v := Joined(y, m, d, h, n);
            && |v| == 16 && v[4] == '-' && v[7] == '-' && v[10] == 'T' && v[13] == ':'
            && v[..4] == y && v[5..7] == m && v[8..10] == d && v[11..13] == h && v[14..] == n
  {}

  lemma ParseText(p: Parts)
    requires 1000 <= p.year <= 9999 && Valid(Date(p.year, p.month, p.day))
    requires 0 <= p.hour < 24 && 0 <= p.minute < 60
    ensures ParseWallClock(LocalText(p)) == Some(Written(p))
  {
    hide D.Value, D.Decimal, Pad, DayNumber, Joined;
    YearIsFourDigits(p.year);
    PadIsTwoDigits(p.month);
    PadIsTwoDigits(p.day);
    PadIsTwoDigits(p.hour);
    PadIsTwoDigits(p.minute);
    JoinedFields(D.Decimal(p.year), Pad(p.month), Pad(p.day), Pad(p.hour), Pad(p.minute));
  }

  /** The year is not padded, so a year of fewer or more digits spoils the format. */
  lemma OtherYearsFail(p: Parts)
    requires p.year >= 0 && !(1000 <= p.year <= 9999) && 1 <= p.month <= 12 && 1 <= p.day <= 31
    requires 0 <= p.hour < 24 && 0 <= p.minute < 60
    ensures ParseWallClock(LocalText(p)) == None
  {
    hide D.Value, D.Decimal, Pad;
    PadIsTwoDigits(p.month);
    PadIsTwoDigits(p.day);
    PadIsTwoDigits(p.hour);
    PadIsTwoDigits(p.minute);
    D.DecimalLength(p.year, 3);
    D.DecimalLength(p.year, 4);
    assert D.Pow(10, 3) == 1000 && D.Pow(10, 4) == 10_000;
    assert |LocalText(p)| == |D.Decimal(p.year)| + 12;
  }

  /** The calendar year the zone shows at `t`. */
  function LocalYear(z: Zone, t: int): int {
    DateOf(LocalDay(z, t)).year
  }

  /** The control can read back exactly the texts with a year of four digits. */
  lemma TextParses(z: Zone, t: int)
    requires LocalYear(z, t) >= 0
    ensures var v := ToDateTimeLocalValue(z, t);
            if 1000 <= LocalYear(z, t) <= 9999 then ParseWallClock(v) == Some(Written(ZonedParts(z, t)))
            else ParseWallClock(v) == None
  {
    hide ParseWallClock, LocalText, Written, DateOf;
    LocalDayOfMinutes(Reading(z, t));
    var p := ZonedParts(z, t);
    var d := DateOf(LocalDay(z, t));
    assert Valid(d) && d.month == p.month && d.day == p.day && p.year == ShownYear(d.year);
    assert d.day <= 31;
    if 1000 <= d.year <= 9999 { ParseText(p); } else { OtherYearsFail(p); }
  }

  lemma FourDigitYears(z: Zone, t: int)
    requires LocalYear(z, t) >= 1000
    ensures Reading(z, t) - 700 * DAY >= YEAR_100
  {
    YearStarts(LocalDay(z, t), 1000);
    hide DateOf;
    YearsIncrease(100, 1000);
  }

  lemma SameMinuteSameText(z: Zone, t: int, u: int)
    requires FloorMinute(Reading(z, t)) == FloorMinute(Reading(z, u))
    ensures ToDateTimeLocalValue(z, t) == ToDateTimeLocalValue(z, u)
  {
    hide LocalText, DateOf;
    assert Reading(z, t) / MINUTE == Reading(z, u) / MINUTE;
  }

  /** For every minute of the years the calendar counts from 0: the text shown reads back
      exactly when its year has four digits. The instant found is then shown as that text,
      and is the one the text came from whenever no other minute shows it. */
  lemma LocalValueRoundTrip(z: Zone, m: nat, t: int)
    requires Table(z, m) && Aligned(m) && m <= DAY && Aligned(t) && LocalYear(z, t) >= 0
    requires CalmAround(z, m, FloorMinute(Reading(z, t)))
    ensures var v := ToDateTimeLocalValue(z, t);
            var back := FromDateTimeLocalValue(z, v);
            && (back.Some? <==> 1000 <= LocalYear(z, t) <= 9999)
            && (back.Some? ==>
                  && Aligned(back.value) && ToDateTimeLocalValue(z, back.value) == v
                  && ((forall u | Aligned(u) && ToDateTimeLocalValue(z, u) == v :: u == t) ==> back.value == t))
  {
    hide PartsOf, ParseWallClock, FromWallClock, LocalText, Shown, CalmAround, Table, OffsetAt, LocalYear;
    TextParses(z, t);
    if 1000 <= LocalYear(z, t) <= 9999 {
      var w := FloorMinute(Reading(z, t));
      FourDigitYears(z, t);
      ReadingRoundTrip(Reading(z, t));
      ShownReading(z, t);
      AlignedFloor(Reading(z, t));
      FromWallClockIsTwoPass(z, m, w);
      CalmIsFound(z, m, w);
      assert Occurs(Shown(z), w);
      ShownReading(z, FromWallClock(z, w));
      SameMinuteSameText(z, t, FromWallClock(z, w));
    }
  }

  lemma AlignedFloor(x: int)
    ensures Aligned(FloorMinute(x)) && x - MINUTE < FloorMinute(x) <= x
  {
    FloorFacts(0, x);
  }

  /** Five minutes past nine on the fourth of July 2026. */
  const EXAMPLE := 20_638 * DAY + (9 * 60 + 5) * MINUTE

  lemma ExampleParts()
    ensures PartsOf(EXAMPLE) == Parts(2026, 7, 4, 9, 5) && Written(Parts(2026, 7, 4, 9, 5)) == EXAMPLE
  {
    hide DateOf;
    assert Valid(Date(2026, 7, 4)) && DayNumber(Date(2026, 7, 4)) == 20_638;
    DateOrder(DateOf(20_638), Date(2026, 7, 4));
    assert EXAMPLE / MINUTE / 1440 == 20_638 && EXAMPLE / MINUTE % 1440 == 9 * 60 + 5;
  }

  lemma ExampleDigits()
    ensures D.Decimal(2026) == "2026" && Pad(7) == "07" && Pad(4) == "04" && Pad(9) == "09" && Pad(5) == "05"
  {
    hide D.Padded, D.PadStart;
    FourDigits();
    D.TwoDigits(7);
    D.TwoDigits(4);
    D.TwoDigits(9);
    D.TwoDigits(5);
    D.PaddedTwo(0, 7);
    D.PaddedTwo(0, 4);
    D.PaddedTwo(0, 9);
    D.PaddedTwo(0, 5);
  }

  lemma FourDigits()
    ensures D.Decimal(2026) == "2026"
  {
    assert D.Decimal(20) == "20";
    assert D.Decimal(202) == D.Decimal(20) + ['2'];
  }

  /** A clock that shows five past nine on that day is shown as this text, and the text
      names that wall clock. */
  lemma TextExample(z: Zone, t: int)
    requires Reading(z, t) == EXAMPLE
    ensures ToDateTimeLocalValue(z, t) == "2026-07-04T09:05"
    ensures ParseWallClock("2026-07-04T09:05") == Some(EXAMPLE)
  {
    hide D.Decimal, Pad, PartsOf, ParseWallClock, Written, Reading;
    ExampleParts();
    ExampleDigits();
    assert LocalText(Parts(2026, 7, 4, 9, 5)) == "2026-07-04T09:05";
    assert Valid(Date(2026, 7, 4));
    ParseText(Parts(2026, 7, 4, 9, 5));
  }
}
