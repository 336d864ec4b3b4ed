/** search.criteria.ts and views.service.ts: what a request may ask for. */
module SearchCriteria {
  import opened Wrappers
  import L = LikePattern
  import C = CursorCodec

  datatype Status = Active | Completed | OverdueStatus

  datatype Due = Today | Upcoming | Overdue | NoDue

  datatype SortOrder = Newest | ByDue

  datatype Criteria = Criteria(
    term: Option<string>,
    status: Option<Status>,
    due: Option<Due>,
    limit: nat,
    cursor: Option<C.Cursor>,
    sort: SortOrder)

  datatype View = TodayView | UpcomingView | OverdueView | AllView

  datatype RawQuery = RawQuery(
    q: Option<string>,
    status: Option<string>,
    due: Option<string>,
    limit: Option<int>,
    cursor: Option<string>)

  datatype Error = NoCriteria | FieldInvalid(field: string) | ViewNotFound

  const PAGE_SIZE := 25
  const PAGE_SIZE_MAX := 50
  const QUERY_MAX_LENGTH := 200

  /** The characters `String.trim` removes. */
  predicate IsSpace(c: char) {
    '\t' <= c <= '\r' || c == ' ' || c == '\U{A0}' || c == '\U{1680}' || '\U{2000}' <= c <= '\U{200A}'
    || c == '\U{2028}' || c == '\U{2029}' || c == '\U{202F}' || c == '\U{205F}' || c == '\U{3000}' || c == '\U{FEFF}'
  }

  function Trim(s: string): string
    decreases |s|
  {
    if s != [] && IsSpace(s[0]) then Trim(s[1..])
    else if s != [] && IsSpace(s[|s| - 1]) then Trim(s[..|s| - 1])
    else s
  }

  /** A stretch of the text with no space at either end, and only spaces around it. */
  ghost predicate IsTrimmed(s: string, from: nat, to: nat) {
    && from <= to <= |s|
    && (forall i | 0 <= i < |s| && !(from <= i < to) :: IsSpace(s[i]))
    && (from < to ==> !IsSpace(s[from]) && !IsSpace(s[to - 1]))
  }

  lemma {:induction false} TrimIsStretch(s: string) returns (from: nat, to: nat)
    ensures IsTrimmed(s, from, to) && Trim(s) == s[from..to]
    decreases |s|
  {
    if s != [] && IsSpace(s[0]) {
      var i, j := TrimIsStretch(s[1..]);
      from, to := i + 1, j + 1;
      assert forall k | 1 <= k < |s| :: s[k] == s[1..][k - 1];
    } else if s != [] && IsSpace(s[|s| - 1]) {
      from, to := TrimIsStretch(s[..|s| - 1]);
      assert forall k | 0 <= k < |s| - 1 :: s[k] == s[..|s| - 1][k];
    } else {
      from, to := 0, |s|;
    }
  }

  function ParseTerm(raw: Option<string>): Result<Option<string>, Error> {
    match raw
    case None => Ok(None)
    case Some(q) =>
      var trimmed := Trim(q);
      if trimmed == [] || |trimmed| > QUERY_MAX_LENGTH then Err(FieldInvalid("q"))
      else Ok(Some(L.EscapeLike(trimmed)))
  }

  function ParseStatus(raw: Option<string>): Result<Option<Status>, Error> {
    match raw
    case None => Ok(None)
    case Some(s) =>
      if s == "active" then Ok(Some(Active))
      else if s == "completed" then Ok(Some(Completed))
      else if s == "overdue" then Ok(Some(OverdueStatus))
      else Err(FieldInvalid("status"))
  }

  function ParseDue(raw: Option<string>): Result<Option<Due>, Error> {
    match raw
    case None => Ok(None)
    case Some(s) =>
      if s == "today" then Ok(Some(Today))
      else if s == "upcoming" then Ok(Some(Upcoming))
      else if s == "overdue" then Ok(Some(Overdue))
      else if s == "none" then Ok(Some(NoDue))
      else Err(FieldInvalid("due"))
  }

  function ParseLimit(raw: Option<int>): Result<nat, Error> {
    match raw
    case None => Ok(PAGE_SIZE)
    case Some(n) => if 1 <= n <= PAGE_SIZE_MAX then Ok(n) else Err(FieldInvalid("limit"))
  }

  function ParseCursor(raw: Option<string>, dateOk: string -> bool): Result<Option<C.Cursor>, Error> {
    match C.Decode(raw, dateOk)
    case Ok(c) => Ok(c)
    case Err(_) => Err(FieldInvalid("cursor"))
  }

  /** Fields are checked in this order, and the first that fails is reported. */
  function ParseCriteria(raw: RawQuery, dateOk: string -> bool): Result<Criteria, Error> {
    match ParseTerm(raw.q)
    case Err(e) => Err(e)
    case Ok(term) =>
      match ParseStatus(raw.status)
      case Err(e) => Err(e)
      case Ok(status) =>
        match ParseDue(raw.due)
        case Err(e) => Err(e)
        case Ok(due) =>
          if term == None && status == None && due == None then Err(NoCriteria)
          else
            match ParseLimit(raw.limit)
            case Err(e) => Err(e)
            case Ok(limit) =>
              match ParseCursor(raw.cursor, dateOk)
              case Err(e) => Err(e)
              case Ok(cursor) => Ok(Criteria(term, status, due, limit, cursor, Newest))
  }

  function ParseView(view: string): Result<View, Error> {
    if view == "today" then Ok(TodayView)
    else if view == "upcoming" then Ok(UpcomingView)
    else if view == "overdue" then Ok(OverdueView)
    else if view == "all" then Ok(AllView)
    else Err(ViewNotFound)
  }

  function CriteriaFor(view: View, limit: Option<int>, cursor: Option<string>, dateOk: string -> bool)
    : Result<Criteria, Error>
  {
    match ParseLimit(limit)
    case Err(e) => Err(e)
    case Ok(n) =>
      match ParseCursor(cursor, dateOk)
      case Err(e) => Err(e)
      case Ok(c) =>
        var base := Criteria(None, Some(Active), None, n, c, ByDue);
        Ok(match view
           case TodayView => base.(due := Some(Today))
           case UpcomingView => base.(due := Some(Upcoming))
           case OverdueView => base.(due := Some(Overdue))
           case AllView => base.(sort := Newest))
  }

  /** A view is found by its name before anything else of the request is read. */
  function ViewCriteria(view: string, limit: Option<int>, cursor: Option<string>, dateOk: string -> bool)
    : Result<Criteria, Error>
  {
    match ParseView(view)
    case Err(e) => Err(e)
    case Ok(v) => CriteriaFor(v, limit, cursor, dateOk)
  }

  /** What the repository counts on: a page holds at least one row, and sorting by due
      date comes with a predicate that gives every row a due date. */
  predicate Runnable(c: Criteria) {
    c.limit >= 1 && (c.sort == ByDue ==> c.due.Some? && c.due.value != NoDue)
  }

  /** Both ways of building criteria produce runnable ones, and a search names at least
      one criterion. */
  lemma BuiltCriteriaAreRunnable(raw: RawQuery, view: string, dateOk: string -> bool)
    ensures var r := ParseCriteria(raw, dateOk);
            r.Ok? ==> Runnable(r.value) && r.value.limit <= PAGE_SIZE_MAX
                      && (raw.q.Some? || raw.status.Some? || raw.due.Some?)
    ensures var r := ViewCriteria(view, raw.limit, raw.cursor, dateOk);
            r.Ok? ==> Runnable(r.value) && r.value.limit <= PAGE_SIZE_MAX
  {}
}
