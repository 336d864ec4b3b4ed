/** The text the search statement prints its sort key in, at microsecond precision:
    `to_char(... AT TIME ZONE 'UTC', 'YYYY-MM-DD"T"HH24:MI:SS.US"Z"')`, and the
    `::timestamptz` cast that reads it back. */
module Timestamps {
  import opened Wrappers
  import opened Gregorian
  import D = Digits

  const SECOND := 1_000_000
  const DAY := 86_400 * SECOND

  datatype Fields = Fields(date: Date, hour: nat, minute: nat, second: nat, micros: nat)

  function FieldsOf(t: int): Fields {
    var s := t / SECOND % 86_400;
    Fields(DateOf(t / DAY), s / 3600, s / 60 % 60, s % 60, t % SECOND)
  }

  function Instant(f: Fields): int
    requires 1 <= f.date.month <= 12
  {
    DayNumber(f.date) * DAY + (f.hour * 3600 + f.minute * 60 + f.second) * SECOND + f.micros
  }

  /** Years that take four digits, before the common era or in it. */
  predicate Printable(t: int) {
    DayFromYear(-9998) * DAY <= t < DayFromYear(10_000) * DAY
  }

  predicate CommonEra(t: int) {
    t >= DayFromYear(1) * DAY
  }

  /** `YYYY` prints the year of the era, and the format names no era: 1 BC, the calendar's
      year 0, prints as 0001. */
  function YearOfEra(y: int): int {
    if y <= 0 then 1 - y else y
  }

  function Print(t: int): string
    requires Printable(t)
  {
    PrintableFields(t);
    Text(FieldsOf(t))
  }

  lemma PrintableFields(t: int)
    requires Printable(t)
    ensures ValidFields(FieldsOf(t))
    ensures FieldsOf(t).date.year >= 1 <==> CommonEra(t)
  {
    hide DateOf, DayFromYear, BeforeMonth;
    YearStarts(t / DAY, -9998);
    YearStarts(t / DAY, 1);
    YearStarts(t / DAY, 10_000);
    WholeDays(t, DayFromYear(-9998));
    WholeDays(t, DayFromYear(1));
    WholeDays(t, DayFromYear(10_000));
  }

  lemma WholeDays(t: int, day: int)
    ensures t / DAY >= day <==> t >= day * DAY
  {}

  predicate ValidFields(f: Fields) {
    -9998 <= f.date.year <= 9999 && Valid(f.date)
    && f.hour < 24 && f.minute < 60 && f.second < 60 && f.micros < SECOND
  }

  function Text(f: Fields): string
    requires ValidFields(f)
  {
    Joined(D.Padded(10, YearOfEra(f.date.year), 4), D.Padded(10, f.date.month, 2), D.Padded(10, f.date.day, 2),
           D.Padded(10, f.hour, 2), D.Padded(10, f.minute, 2), D.Padded(10, f.second, 2),
           D.Padded(10, f.micros, 6))
  }

  function Joined(y: string, m: string, d: string, h: string, n: string, s: string, us: string): string {
    DateText(y, m, d) + "T" + TimeText(h, n, s, us) + "Z"
  }

  function DateText(y: string, m: string, d: string): string {
    y + "-" + m + "-" + d
  }

  function TimeText(h: string, n: string, s: string, us: string): string {
    h + ":" + n + ":" + s + "." + us
  }

  function Parse(v: string): Option<int> {
    if |v| == 27 && v[4] == v[7] == '-' && v[10] == 'T' && v[13] == v[16] == ':' && v[19] == '.' && v[26] == 'Z' then
      match (D.Value(10, v[..4]), D.Value(10, v[5..7]), D.Value(10, v[8..10]))
      case (Some(y), Some(m), Some(d)) =>
        (match (D.Value(10, v[11..13]), D.Value(10, v[14..16]), D.Value(10, v[17..19]), D.Value(10, v[20..26]))
         case (Some(h), Some(n), Some(s), Some(us)) =>
           if y >= 1 && Valid(Date(y, m, d)) && h < 24 && n < 60 && s < 60 then
             Some(Instant(Fields(Date(y, m, d), h, n, s, us)))
           else None
         case _ => None)
      case _ => None
    else None
  }

  lemma FieldsSum(t: int)
    ensures Instant(FieldsOf(t)) == t
  {
    hide DateOf, DayNumber;
    var q, u := t / SECOND, t % SECOND;
    assert t / DAY == q / 86_400 by { SecondsOfDay(t); }
    var s := q % 86_400;
    assert s / 3600 * 3600 + s / 60 % 60 * 60 + s % 60 == s by { SecondsOfHour(s); }
    assert DayNumber(DateOf(t / DAY)) == t / DAY;
  }

  lemma SecondsOfDay(t: int)
    ensures t / DAY == t / SECOND / 86_400
  {}

  lemma SecondsOfHour(s: int)
    ensures s / 3600 * 3600 + s / 60 % 60 * 60 + s % 60 == s
  {
    assert s / 60 / 60 == s / 3600;
    assert s / 60 == s / 3600 * 60 + s / 60 % 60;
  }

  lemma DateTextFields(y: string, m: string, d: string)
    requires |y| == 4 && |m| == |d| == 2
    ensures var v := DateText(y, m, d);
            |v| == 10 && v[4] == v[7] == '-' && v[..4] == y && v[5..7] == m && v[8..] == d
  {}

  lemma TimeTextFields(h: string, n: string, s: string, us: string)
    requires |h| == |n| == |s| == 2 && |us| == 6
    ensures var v := TimeText(h, n, s, us);
            && |v| == 15 && v[2] == v[5] == ':' && v[8] == '.'
            && v[..2] == h && v[3..5] == n && v[6..8] == s && v[9..] == us
  {}

  lemma JoinedFields(y: string, m: string, d: string, h: string, n: string, s: string, us: string)
    requires |y| == 4 && |m| == |d| == |h| == |n| == |s| == 2 && |us| == 6
    ensures var v := Joined(y, m, d, h, n, s, us);
            && |v| == 27 && v[4] == v[7] == '-' && v[10] == 'T' && v[13] == v[16] == ':' && v[19] == '.' && v[26] == 'Z'
            && v[..4] == y && v[5..7] == m && v[8..10] == d
            && v[11..13] == h && v[14..16] == n && v[17..19] == s && v[20..26] == us
  {
    var date, time := DateText(y, m, d), TimeText(h, n, s, us);
    DateTextFields(y, m, d);
    TimeTextFields(h, n, s, us);
    hide DateText, TimeText;
    var v := Joined(y, m, d, h, n, s, us);
    assert v == date + "T" + time + "Z";
    assert v[..4] == date[..4] && v[5..7] == date[5..7] && v[8..10] == date[8..];
    assert v[11..13] == time[..2] && v[14..16] == time[3..5] && v[17..19] == time[6..8] && v[20..26] == time[9..];
  }

  lemma NumberBack(n: nat, k: nat)
    requires (k == 2 && n < 100) || (k == 4 && n < 10_000) || (k == 6 && n < SECOND)
    ensures D.Value(10, D.Padded(10, n, k)) == Some(n)
  {
    assert D.Pow(10, 2) == 100;
    assert D.Pow(10, 4) == 100 * D.Pow(10, 2);
    assert D.Pow(10, 6) == 100 * D.Pow(10, 4);
    D.ValuePadded(10, n, k);
  }

  lemma DayFits(d: Date)
    requires Valid(d)
    ensures d.day <= 31
  {}

  /** The text reads back as the same fields in the common era, if there is such a date. */
  lemma ParseText(f: Fields)
    requires ValidFields(f)
    ensures var shown := Date(YearOfEra(f.date.year), f.date.month, f.date.day);
            Parse(Text(f)) == if Valid(shown) then Some(Instant(f.(date := shown))) else None
  {
    DayFits(f.date);
    hide D.Value, D.Padded, DayNumber, Joined, Instant, DaysInMonth;
    NumberBack(YearOfEra(f.date.year), 4);
    NumberBack(f.date.month, 2);
    NumberBack(f.date.day, 2);
    NumberBack(f.hour, 2);
    NumberBack(f.minute, 2);
    NumberBack(f.second, 2);
    NumberBack(f.micros, 6);
    JoinedFields(D.Padded(10, YearOfEra(f.date.year), 4), D.Padded(10, f.date.month, 2), D.Padded(10, f.date.day, 2),
                 D.Padded(10, f.hour, 2), D.Padded(10, f.minute, 2), D.Padded(10, f.second, 2),
                 D.Padded(10, f.micros, 6));
  }

  /** The printed sort key casts back to the very microsecond it was printed from, exactly
      when that lies in the common era. */
  lemma ParsePrint(t: int)
    requires Printable(t)
    ensures Parse(Print(t)) == Some(t) <==> CommonEra(t)
  {
    var f := FieldsOf(t);
    PrintableFields(t);
    ParseText(f);
    FieldsSum(t);
    hide Text, Parse, FieldsOf, DayNumber, CommonEra, DaysInMonth;
    var shown := Date(YearOfEra(f.date.year), f.date.month, f.date.day);
    if f.date.year >= 1 {
      assert shown == f.date;
    } else if Valid(shown) {
      DateOrder(shown, f.date);
      OtherDay(f, shown);
    }
  }

  lemma OtherDay(f: Fields, other: Date)
    requires 1 <= f.date.month <= 12 && 1 <= other.month <= 12 && DayNumber(other) != DayNumber(f.date)
    ensures Instant(f.(date := other)) != Instant(f)
  {
    hide DayNumber;
  }

  /** The text is ASCII. */
  lemma PrintIsAscii(t: int)
    requires Printable(t)
    ensures forall c | c in Print(t) :: c < 128 as char
  {
    hide DateOf;
    assert forall c | c in D.ALPHABET[..10] :: c < 128 as char;
  }

  const EXAMPLE := 20_638 * DAY + (9 * 3600 + 5 * 60 + 7) * SECOND + 123

  const EXAMPLE_FIELDS := Fields(Date(2026, 7, 4), 9, 5, 7, 123)

  lemma ExampleDate()
    ensures DateOf(20_638) == Date(2026, 7, 4)
  {
    hide DateOf;
    assert Valid(Date(2026, 7, 4)) && DayNumber(Date(2026, 7, 4)) == 20_638;
    DateOrder(DateOf(20_638), Date(2026, 7, 4));
  }

  lemma ExampleFields()
    ensures Printable(EXAMPLE) && FieldsOf(EXAMPLE) == EXAMPLE_FIELDS
  {
    hide DateOf;
    ExampleDate();
    assert EXAMPLE / DAY == 20_638 && EXAMPLE / SECOND % 86_400 == 9 * 3600 + 5 * 60 + 7;
  }

  lemma ExampleDigits()
    ensures D.Padded(10, 2026, 4) == "2026" && D.Padded(10, 7, 2) == "07" && D.Padded(10, 4, 2) == "04"
    ensures D.Padded(10, 9, 2) == "09" && D.Padded(10, 5, 2) == "05" && D.Padded(10, 123, 6) == "000123"
  {
    hide D.Padded;
    D.PaddedTwo(0, 7);
    D.PaddedTwo(0, 4);
    D.PaddedTwo(0, 9);
    D.PaddedTwo(0, 5);
    D.PaddedTwo(2, 0);
    D.PaddedSnoc(20, 2, 2);
    D.PaddedSnoc(202, 6, 3);
    D.PaddedTwo(0, 0);
    D.PaddedSnoc(0, 0, 2);
    D.PaddedSnoc(0, 1, 3);
    D.PaddedSnoc(1, 2, 4);
    D.PaddedSnoc(12, 3, 5);
  }

  /** The format, on an instant whose fields all differ. */
  lemma PrintExample()
    ensures Printable(EXAMPLE) && Print(EXAMPLE) == "2026-07-04T09:05:07.000123Z"
  {
    hide D.Padded, FieldsOf, Printable;
    ExampleFields();
    ExampleDigits();
    PrintableFields(EXAMPLE);
  }
}
