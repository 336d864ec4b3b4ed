/** A walk by due date that loses a row, because the cursor names no era. */
module SearchEra {
  import opened Wrappers
  import opened Ordering
  import opened Schema
  import opened Gregorian
  import opened ZoneClock
  import opened SearchCriteria
  import opened SearchStatement
  import opened SearchPaging
  import C = CursorCodec
  import T = Timestamps

  /** The first of January of a year of the calendar, in microseconds. */
  function NewYear(y: int): int { DayFromYear(y) * T.DAY }

  function Overdue(id: nat, dueAt: int): Task {
    Task(id, 1, 2, "", None, None, 0, 0, Some(dueAt), NoPriority, 0)
  }

  /** The overdue view, one row a page. */
  function AskOverdue(fold: char -> char): Ask {
    Ask(fold, 1, Criteria(None, Some(Active), Some(SearchCriteria.Overdue), 1, None, ByDue))
  }

  /** One task due on the first of January of 2 BC, and one on that of the year 1. */
  const OLD := Snapshot(map[3 := Overdue(3, NewYear(-1)), 4 := Overdue(4, NewYear(1))], 0, Zone(0, []))

  const FIRST := Place(NewYear(-1), 3)
  const SECOND := Place(NewYear(1), 4)

  lemma NewYears()
    ensures T.Printable(NewYear(-1)) && !T.CommonEra(NewYear(-1)) && T.Printable(NewYear(1)) && T.Printable(0)
    ensures NewYear(-1) < NewYear(1) < NewYear(2) < 0
  {}

  lemma OldPrints()
    ensures Printed(OLD) && T.Printable(FIRST.key) && FIRST.id < C.UUIDS
  {
    NewYears();
    hide T.Printable, NewYear;
    SmallIds();
  }

  lemma SmallIds()
    ensures 4 < C.UUIDS
  {
    hide C.D.Pow;
    C.D.PowAtLeastBase(16, 32);
  }

  lemma Midnight(n: int)
    ensures n * T.DAY / T.DAY == n && n * T.DAY / T.SECOND % 86_400 == 0 && n * T.DAY % T.SECOND == 0
  {
    assert n * T.DAY == n * 86_400 * T.SECOND;
    assert n * 86_400 * T.SECOND / T.SECOND == n * 86_400;
  }

  lemma NewYearDate(y: int)
    ensures DateOf(DayFromYear(y)) == Date(y, 1, 1) && DayNumber(Date(y, 1, 1)) == DayFromYear(y)
  {
    DateOrder(DateOf(DayFromYear(y)), Date(y, 1, 1));
    hide DayFromYear;
  }

  lemma NewYearFields(y: int)
    ensures T.FieldsOf(NewYear(y)) == T.Fields(Date(y, 1, 1), 0, 0, 0, 0)
    ensures T.Instant(T.Fields(Date(y, 1, 1), 0, 0, 0, 0)) == NewYear(y)
  {
    hide DateOf, DayFromYear, DayNumber;
    NewYearDate(y);
    Midnight(DayFromYear(y));
  }

  /** 2 BC prints as 0002, which reads as the year 2. */
  lemma PrintsAsYearTwo()
    ensures T.Printable(NewYear(-1)) && T.Parse(T.Print(NewYear(-1))) == Some(NewYear(2))
  {
    NewYears();
    NewYearFields(-1);
    NewYearFields(2);
    hide T.FieldsOf, T.Parse, T.Text, T.Instant, NewYear, T.Printable;
    T.PrintableFields(NewYear(-1));
    T.ParseText(T.FieldsOf(NewYear(-1)));
  }

  lemma OldCorpus(fold: char -> char)
    ensures Corpus(AskOverdue(fold), OLD) == {FIRST, SECOND}
  {
    NewYears();
    hide NewYear, TitleHolds;
    forall p ensures p in Corpus(AskOverdue(fold), OLD) <==> p in {FIRST, SECOND} {
      assert p in Corpus(AskOverdue(fold), OLD) <==> MatchesAt(AskOverdue(fold), OLD, p);
    }
  }

  lemma FirstPage(fold: char -> char)
    ensures PageAt(AskOverdue(fold), OLD, None) == ([FIRST], true)
  {
    var ask := AskOverdue(fold);
    OldCorpus(fold);
    NewYears();
    hide NewYear, Corpus;
    assert Remaining(ask, OLD, None) == {FIRST, SECOND};
    OrderIsTotal(ByDue, {FIRST, SECOND});
    assert Elements([FIRST, SECOND]) == {FIRST, SECOND};
    assert Increasing(Order(ByDue), [FIRST, SECOND]);
    SortUnique(Order(ByDue), {FIRST, SECOND}, [FIRST, SECOND]);
  }

  lemma SecondPage(fold: char -> char)
    ensures PageAt(AskOverdue(fold), OLD, Some(Place(NewYear(2), 3))) == ([], false)
  {
    var ask, at := AskOverdue(fold), Some(Place(NewYear(2), 3));
    OldCorpus(fold);
    NewYears();
    hide NewYear, Corpus;
    assert Remaining(ask, OLD, at) == {};
    OrderIsTotal(ByDue, {});
  }

  /** The overdue view, walked to its end, returns the older task and never the other: the
      first page's cursor sends the second request two years past it. */
  lemma RowIsLost(fold: char -> char, dateOk: string -> bool)
    requires C.AcceptsPrinted(dateOk)
    ensures Printed(OLD) && Runnable(AskOverdue(fold).criteria)
    ensures FIRST in Corpus(AskOverdue(fold), OLD) && SECOND in Corpus(AskOverdue(fold), OLD)
    ensures exists cursor ::
              && Respond(AskOverdue(fold), OLD, None, dateOk) == Ok(Response([FIRST], Some(cursor)))
              && Respond(AskOverdue(fold), OLD, Some(cursor), dateOk) == Ok(Response([], None))
  {
    OldPrints();
    OldCorpus(fold);
    FirstPage(fold);
    SecondPage(fold);
    PrintsAsYearTwo();
    hide Respond, Resume, Printed, PageAt, CursorText, Corpus, NewYear;
    hide T.Printable, T.Print, T.Parse, T.CommonEra, C.AcceptsPrinted;
    CursorResumes(FIRST, dateOk);
    var ask, cursor := AskOverdue(fold), CursorText(FIRST);
    StartsAtTop(dateOk);
    RespondFrom(ask, OLD, None, None, dateOk);
    RespondFrom(ask, OLD, Some(cursor), Some(Place(NewYear(2), 3)), dateOk);
    assert Answer(ask, OLD, None) == Response([FIRST], Some(cursor));
  }

  lemma StartsAtTop(dateOk: string -> bool)
    ensures Resume(None, dateOk) == Ok(None)
  {}
}
