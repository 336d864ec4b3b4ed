/** What a request finds, from the text typed to the tasks returned: the criteria the
    parsers build, read through the statement they are run by. */
module SearchMeaning {
  import opened Wrappers
  import opened Schema
  import opened SearchCriteria
  import opened SearchStatement
  import opened ZoneClock
  import opened Gregorian
  import L = LikePattern
  import DD = DueDate

  /** How many calendar days away the client says the task is due, none without a date. */
  function DaysAway(zone: Zone, now: int, t: Task): Option<int> {
    match t.dueAt
    case None => None
    case Some(due) => Some(DD.CalendarDaysBetween(zone, Millis(now), Millis(due)))
  }

  predicate ModernDay(zone: Zone, instant: int) {
    LocalDay(zone, Millis(instant)) >= DayFromYear(100)
  }

  /** What each status filter asks for. */
  predicate StatusMeans(status: string, t: Task, now: int) {
    || (status == "active" && t.completedAt == None)
    || (status == "completed" && t.completedAt.Some?)
    || (status == "overdue" && t.completedAt == None && t.dueAt.Some? && t.dueAt.value < now)
  }

  /** What each due-date filter asks for, in the client's own terms. */
  predicate DueMeans(due: string, zone: Zone, t: Task, now: int) {
    || (due == "today" && DaysAway(zone, now, t) == Some(0))
    || (due == "upcoming" && DaysAway(zone, now, t).Some? && DaysAway(zone, now, t).value > 0)
    || (due == "overdue" && t.completedAt == None && t.dueAt.Some? && t.dueAt.value < now)
    || (due == "none" && t.dueAt == None)
  }

  /** What a search asks for: the owner's live tasks whose title contains the text as typed,
      the spaces around it aside and whatever the case, and which meet the filters sent. */
  ghost predicate SearchAsks(raw: RawQuery, fold: char -> char, owner: nat, now: int, zone: Zone, t: Task) {
    && t.owner == owner && t.deletedAt == None
    && (raw.q.Some? ==>
          forall from: nat, to: nat | IsTrimmed(raw.q.value, from, to) ::
            L.Contains(L.Fold(fold, t.title), L.Fold(fold, raw.q.value[from..to])))
    && (raw.status.Some? ==> StatusMeans(raw.status.value, t, now))
    && (raw.due.Some? ==> DueMeans(raw.due.value, zone, t, now))
  }

  /** What a view asks for: the owner's active tasks which the client, with the same zone
      and the same now, puts zero days away, more than zero, past their instant, or
      anywhere. */
  predicate ViewAsks(view: string, owner: nat, now: int, zone: Zone, t: Task) {
    && t.owner == owner && t.deletedAt == None && t.completedAt == None
    && (|| (view == "today" && DaysAway(zone, now, t) == Some(0))
        || (view == "upcoming" && DaysAway(zone, now, t).Some? && DaysAway(zone, now, t).value > 0)
        || (view == "overdue" && t.dueAt.Some? && t.dueAt.value < now)
        || view == "all")
  }

  /** There is one such stretch, unless the text is all spaces. */
  lemma OneStretch(s: string, from: nat, to: nat, i: nat, j: nat)
    requires IsTrimmed(s, from, to) && from < to && IsTrimmed(s, i, j)
    ensures i == from && j == to
  {
    assert !IsSpace(s[from]) && !IsSpace(s[to - 1]);
  }

  lemma TrimmedText(s: string, fold: char -> char, title: string)
    requires Trim(s) != []
    ensures L.Contains(L.Fold(fold, title), L.Fold(fold, Trim(s)))
       <==> forall from: nat, to: nat | IsTrimmed(s, from, to) ::
              L.Contains(L.Fold(fold, title), L.Fold(fold, s[from..to]))
  {
    hide L.Contains, L.Fold, Trim;
    var from, to := TrimIsStretch(s);
    forall i: nat, j: nat | IsTrimmed(s, i, j) ensures i == from && j == to { OneStretch(s, from, to, i, j); }
  }

  /** A search that is accepted finds exactly what it asks for. */
  lemma SearchFindsWhatWasAsked(
    raw: RawQuery, dateOk: string -> bool, fold: char -> char, owner: nat, now: int, zone: Zone, t: Task)
    requires L.KeepsMeta(fold) && ParseCriteria(raw, dateOk).Ok?
    requires ModernDay(zone, now) && (t.dueAt.Some? ==> ModernDay(zone, t.dueAt.value))
    ensures Matches(fold, owner, ParseCriteria(raw, dateOk).value, now, zone, t)
       <==> SearchAsks(raw, fold, owner, now, zone, t)
  {
    ParsedFilters(raw, dateOk, zone, t, now);
    hide ParseCriteria, L.EscapeLike, L.ILike, L.Contains, L.Fold, L.KeepsMeta, Trim, IsTrimmed;
    hide StatusMeans, DueMeans, StatusHolds, DueHolds, ModernDay;
    if raw.q.Some? {
      L.SearchIsLiteral(fold, Trim(raw.q.value), t.title);
      TrimmedText(raw.q.value, fold, t.title);
    }
  }

  lemma ParsedFilters(raw: RawQuery, dateOk: string -> bool, zone: Zone, t: Task, now: int)
    requires ParseCriteria(raw, dateOk).Ok?
    requires ModernDay(zone, now) && (t.dueAt.Some? ==> ModernDay(zone, t.dueAt.value))
    ensures var c := ParseCriteria(raw, dateOk).value;
            && c.term == (if raw.q.Some? then Some(L.EscapeLike(Trim(raw.q.value))) else None)
            && (raw.q.Some? ==> Trim(raw.q.value) != [])
            && c.status.Some? == raw.status.Some? && c.due.Some? == raw.due.Some?
            && (c.status.Some? ==> (StatusHolds(c.status.value, t, now) <==> StatusMeans(raw.status.value, t, now)))
            && (c.due.Some? ==> (DueHolds(c.due.value, t, now, zone) <==> DueMeans(raw.due.value, zone, t, now)))
  {
    hide DD.InBucket, DD.CalendarDaysBetween, LocalDay, L.EscapeLike, Trim;
    if t.dueAt.Some? { DD.BucketsAgree(zone, Millis(now), Millis(t.dueAt.value)); }
  }

  /** The smart views hold exactly what they ask for. */
  lemma ViewsShowWhatTheClientSays(
    view: string, limit: Option<int>, cursor: Option<string>, dateOk: string -> bool,
    fold: char -> char, owner: nat, now: int, zone: Zone, t: Task)
    requires ViewCriteria(view, limit, cursor, dateOk).Ok?
    requires ModernDay(zone, now) && (t.dueAt.Some? ==> ModernDay(zone, t.dueAt.value))
    ensures Matches(fold, owner, ViewCriteria(view, limit, cursor, dateOk).value, now, zone, t)
       <==> ViewAsks(view, owner, now, zone, t)
  {
    hide DD.InBucket, DD.CalendarDaysBetween, LocalDay;
    if t.dueAt.Some? { DD.BucketsAgree(zone, Millis(now), Millis(t.dueAt.value)); }
  }
}
