/** The proleptic Gregorian calendar: day numbers counted from 1970-01-01, as
    `Date.UTC`, `Intl` and the database all count them. */
module Gregorian {
  datatype Date = Date(year: int, month: int, day: int)

  predicate Leap(y: int) {
    y % 4 == 0 && (y % 100 != 0 || y % 400 == 0)
  }

  /** Days from 1970-01-01 to the first of January of year `y` (ECMA-262, DayFromYear). */
  function DayFromYear(y: int): int {
    365 * (y - 1970) + (y - 1969) / 4 - (y - 1901) / 100 + (y - 1601) / 400
  }

  function BeforeMonth(m: int, leap: bool): int
    requires 1 <= m <= 13
  {
    [0, 31, 59, 90, 120, 151, 181, 212, 243, 273, 304, 334, 365][m - 1] + (if leap && m > 2 then 1 else 0)
  }

  function DaysInMonth(y: int, m: int): int
    requires 1 <= m <= 12
  {
    BeforeMonth(m + 1, Leap(y)) - BeforeMonth(m, Leap(y))
  }

  predicate Valid(d: Date) {
    1 <= d.month <= 12 && 1 <= d.day <= DaysInMonth(d.year, d.month)
  }

  function DayNumber(d: Date): int
    requires 1 <= d.month <= 12
  {
    DayFromYear(d.year) + BeforeMonth(d.month, Leap(d.year)) + d.day - 1
  }

  predicate Before(a: Date, b: Date) {
    a.year < b.year
    || (a.year == b.year && (a.month < b.month || (a.month == b.month && a.day < b.day)))
  }

  // ---------- from a day number back to a date ----------

  /** The largest year that starts on or before day `n` (ECMA-262, YearFromTime). */
  function YearOf(n: int): (y: int)
    ensures DayFromYear(y) <= n < DayFromYear(y + 1)
  {
    if n >= 0 then YearUp(n, 1970) else YearDown(n, 1969)
  }

  function YearUp(n: int, y: int): (r: int)
    requires DayFromYear(y) <= n
    ensures DayFromYear(r) <= n < DayFromYear(r + 1)
    decreases n - DayFromYear(y)
  {
    YearLength(y);
    if n < DayFromYear(y + 1) then y else YearUp(n, y + 1)
  }

  function YearDown(n: int, y: int): (r: int)
    requires n < DayFromYear(y + 1)
    ensures DayFromYear(r) <= n < DayFromYear(r + 1)
    decreases DayFromYear(y) - n
  {
    YearLength(y - 1);
    if n >= DayFromYear(y) then y else YearDown(n, y - 1)
  }

  function MonthOf(day: int, leap: bool): (m: int)
    requires 0 <= day < BeforeMonth(13, leap)
    ensures 1 <= m <= 12 && BeforeMonth(m, leap) <= day < BeforeMonth(m + 1, leap)
  {
    var m :| 1 <= m <= 12 && BeforeMonth(m, leap) <= day < BeforeMonth(m + 1, leap);
    m
  }

  function DateOf(n: int): (d: Date)
    ensures Valid(d) && DayNumber(d) == n
  {
    var y := YearOf(n);
    YearLength(y);
    var m := MonthOf(n - DayFromYear(y), Leap(y));
    Date(y, m, n - DayFromYear(y) - BeforeMonth(m, Leap(y)) + 1)
  }

  // ---------- the calendar is ordered like the day numbers ----------

  lemma FourYears(y: int)
    ensures (y - 1968) / 4 - (y - 1969) / 4 == if y % 4 == 0 then 1 else 0
  {
    var q, r := (y - 1969) / 4, (y - 1969) % 4;
    assert y - 1968 == 4 * q + r + 1;
    assert y == 4 * (q + 492) + r + 1;
  }

  lemma Centuries(y: int)
    ensures (y - 1900) / 100 - (y - 1901) / 100 == if y % 100 == 0 then 1 else 0
  {
    var q, r := (y - 1901) / 100, (y - 1901) % 100;
    assert y - 1900 == 100 * q + r + 1;
    assert y == 100 * (q + 19) + r + 1;
  }

  lemma FourCenturies(y: int)
    ensures (y - 1600) / 400 - (y - 1601) / 400 == if y % 400 == 0 then 1 else 0
  {
    var q, r := (y - 1601) / 400, (y - 1601) % 400;
    assert y - 1600 == 400 * q + r + 1;
    assert y == 400 * (q + 4) + r + 1;
  }

  lemma CenturyInFour(y: int, q: int)
    requires y == 400 * q
    ensures y % 100 == 0
  {
    assert y == 100 * (4 * q);
  }

  lemma FourthInCentury(y: int, q: int)
    requires y == 100 * q
    ensures y % 4 == 0
  {
    assert y == 4 * (25 * q);
  }

  lemma YearLength(y: int)
    ensures DayFromYear(y + 1) - DayFromYear(y) == BeforeMonth(13, Leap(y))
  {
    FourYears(y);
    Centuries(y);
    FourCenturies(y);
    if y % 400 == 0 { CenturyInFour(y, y / 400); }
    if y % 100 == 0 { FourthInCentury(y, y / 100); }
  }

  lemma {:induction false} YearsIncrease(y: int, z: int)
    requires y <= z
    ensures DayFromYear(y) + 365 * (z - y) <= DayFromYear(z)
    decreases z - y
  {
    if y < z {
      YearLength(z - 1);
      YearsIncrease(y, z - 1);
    }
  }

  lemma MonthsIncrease(m: int, k: int, leap: bool)
    requires 1 <= m <= k <= 13
    ensures BeforeMonth(m, leap) <= BeforeMonth(k, leap)
  {}

  /** The day number is strictly increasing in (year, month, day). */
  lemma DayNumberIncreases(a: Date, b: Date)
    requires Valid(a) && Valid(b) && Before(a, b)
    ensures DayNumber(a) < DayNumber(b)
  {
    if a.year < b.year {
      YearsIncrease(a.year + 1, b.year);
      YearLength(a.year);
      MonthsIncrease(a.month + 1, 13, Leap(a.year));
    } else if a.month < b.month {
      MonthsIncrease(a.month + 1, b.month, Leap(a.year));
    }
  }

  /** Comparing dates is comparing their day numbers, and a date is determined by its
      day number. */
  lemma DateOrder(a: Date, b: Date)
    requires Valid(a) && Valid(b)
    ensures Before(a, b) <==> DayNumber(a) < DayNumber(b)
    ensures a == b <==> DayNumber(a) == DayNumber(b)
  {
    if Before(a, b) {
      DayNumberIncreases(a, b);
    } else if Before(b, a) {
      DayNumberIncreases(b, a);
    }
  }

  /** The year of a day tells on which side of a new year's day it lies. */
  lemma YearStarts(n: int, y: int)
    ensures DateOf(n).year >= y <==> n >= DayFromYear(y)
  {
    hide DayFromYear, BeforeMonth, DayNumber, MonthOf;
    var d := YearOf(n);
    if d < y { YearsIncrease(d + 1, y); } else { YearsIncrease(y, d); }
  }
}
