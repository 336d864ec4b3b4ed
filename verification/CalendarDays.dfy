/** The calendar told day by day, by the lengths of the months: what `Gregorian`'s day
    numbers must count. */
module CalendarDays {
  import opened Gregorian

  /** Thirty days hath September, April, June and November; February has 28, or 29 in a
      year divisible by 4 and not by 100, or by 400; all the rest have 31. */
  function MonthLength(year: int, month: int): int {
    if month == 4 || month == 6 || month == 9 || month == 11 then 30
    else if month == 2 then
      if (year % 4 == 0 && year % 100 != 0) || year % 400 == 0 then 29 else 28
    else 31
  }

  function NextDay(d: Date): Date {
    if d.day < MonthLength(d.year, d.month) then Date(d.year, d.month, d.day + 1)
    else if d.month < 12 then Date(d.year, d.month + 1, 1)
    else Date(d.year + 1, 1, 1)
  }

  lemma LengthsAgree(year: int, month: int)
    requires 1 <= month <= 12
    ensures DaysInMonth(year, month) == MonthLength(year, month)
  {
    hide BeforeMonth, Leap;
    TableLengths(month, Leap(year));
    LeapYears(year);
  }

  lemma LeapYears(year: int)
    ensures Leap(year) <==> (year % 4 == 0 && year % 100 != 0) || year % 400 == 0
  {
    if year % 400 == 0 {
      CenturyInFour(year, year / 400);
      FourthInCentury(year, year / 100);
    }
  }

  lemma TableLengths(month: int, leap: bool)
    requires 1 <= month <= 12
    ensures BeforeMonth(month + 1, leap) - BeforeMonth(month, leap)
         == if month == 4 || month == 6 || month == 9 || month == 11 then 30
            else if month == 2 then (if leap then 29 else 28) else 31
  {}

  /** A date is valid exactly when its month has that day. */
  lemma ValidByLength(d: Date)
    ensures Valid(d) <==> 1 <= d.month <= 12 && 1 <= d.day <= MonthLength(d.year, d.month)
  {
    hide DaysInMonth, MonthLength;
    if 1 <= d.month <= 12 { LengthsAgree(d.year, d.month); }
  }

  /** Day numbers count the days one by one from the first of January 1970. */
  lemma DayNumbersCount(d: Date)
    requires Valid(d)
    ensures Valid(NextDay(d)) && DayNumber(NextDay(d)) == DayNumber(d) + 1
    ensures DayNumber(Date(1970, 1, 1)) == 0
  {
    hide DayFromYear, Leap, MonthLength;
    YearLength(d.year);
    FirstDay();
    LengthsAgree(d.year, d.month);
    if d.day >= DaysInMonth(d.year, d.month) {
      if d.month < 12 { LongEnough(d.year, d.month + 1); } else { LongEnough(d.year + 1, 1); }
    }
  }

  lemma LongEnough(year: int, month: int)
    requires 1 <= month <= 12
    ensures DaysInMonth(year, month) >= 1
  {}

  /** And a day number's date is found by counting. */
  lemma DatesCount(n: int)
    ensures DateOf(n + 1) == NextDay(DateOf(n)) && DateOf(0) == Date(1970, 1, 1)
  {
    hide DateOf, DayNumber, NextDay, DayFromYear, Valid, Before;
    DayNumbersCount(DateOf(n));
    DateOrder(DateOf(n + 1), NextDay(DateOf(n)));
    FirstDay();
    DateOrder(DateOf(0), Date(1970, 1, 1));
  }

  lemma FirstDay()
    ensures Valid(Date(1970, 1, 1)) && DayNumber(Date(1970, 1, 1)) == 0
  {}
}
