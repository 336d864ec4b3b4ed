/** Requests as the client sends them, page after page: the criteria the parsers build from
    the query and the last page's cursor, the statement assembled from those, and the pages
    it returns. */
module SearchRequests {
  import opened Wrappers
  import opened Ordering
  import opened Schema
  import opened ZoneClock
  import opened SearchCriteria
  import opened SearchStatement
  import opened SearchPaging
  import opened SearchWalk
  import opened SearchMeaning
  import C = CursorCodec
  import L = LikePattern
  import T = Timestamps

  /** Everything a client sends but the cursor. */
  datatype Request =
    | Find(q: Option<string>, status: Option<string>, due: Option<string>, limit: Option<int>)
    | Show(view: string, limit: Option<int>)

  datatype Refusal = Invalid(error: Error) | CursorRejected

  function CriteriaOf(r: Request, cursor: Option<string>, dateOk: string -> bool): Result<Criteria, Error> {
    match r
    case Find(q, status, due, limit) => ParseCriteria(RawQuery(q, status, due, limit, cursor), dateOk)
    case Show(view, limit) => ViewCriteria(view, limit, cursor, dateOk)
  }

  // ---------- one request ----------

  /** The extra row says that there is more; the last row kept names the next page. */
  function Cut(rows: seq<Place>, limit: nat): Response
    requires forall p | p in rows :: T.Printable(p.key) && p.id < C.UUIDS
  {
    if |rows| > limit > 0 then
      assert rows[limit - 1] in rows;
      Response(rows[..limit], Some(CursorText(rows[limit - 1])))
    else Response(if |rows| > limit then rows[..limit] else rows, None)
  }

  lemma SelectedPrint(fold: char -> char, sort: SortOrder, st: Statement, s: Snapshot)
    requires Printed(s) && |st.params| > 0 && st.params[|st.params| - 1].LimitParam?
    ensures forall p | p in Execute(fold, sort, st, s) :: T.Printable(p.key) && p.id < C.UUIDS
  {
    hide Selects, T.Printable;
    var rows := Selected(fold, sort, st, s);
    OrderIsTotal(sort, rows);
    var sorted := Sort(Order(sort), rows);
    forall p | p in Execute(fold, sort, st, s) ensures T.Printable(p.key) && p.id < C.UUIDS {
      assert p in sorted;
      assert p in Elements(sorted);
    }
  }

  /** Parse, assemble, run, cut. */
  ghost function Serve(
    fold: char -> char, owner: nat, r: Request, cursor: Option<string>, s: Snapshot, dateOk: string -> bool)
    : Result<Response, Refusal>
    requires Printed(s)
  {
    match CriteriaOf(r, cursor, dateOk)
    case Err(e) => Err(Invalid(e))
    case Ok(c) =>
      if c.cursor.Some? && StartAt(c.cursor).None? then Err(CursorRejected)
      else
        var st := Assembled(owner, c, s.zone);
        AssembledMeans(fold, owner, c, s.zone);
        SelectedPrint(fold, c.sort, st, s);
        Ok(Cut(Execute(fold, c.sort, st, s), c.limit))
  }

  /** The cursor is the one thing in the criteria that changes from page to page. */
  lemma CursorGoesIn(r: Request, cursor: Option<string>, dateOk: string -> bool)
    requires CriteriaOf(r, None, dateOk).Ok?
    ensures CriteriaOf(r, cursor, dateOk) ==
              match C.Decode(cursor, dateOk)
              case Ok(c) => Ok(CriteriaOf(r, None, dateOk).value.(cursor := c))
              case Err(_) => Err(FieldInvalid("cursor"))
    ensures CriteriaOf(r, None, dateOk).value.cursor == None
  {
    hide C.Decode, ParseTerm, ParseStatus, ParseDue, ParseLimit;
    NoCursor(dateOk);
  }

  lemma NoCursor(dateOk: string -> bool)
    ensures C.Decode(None, dateOk) == Ok(None)
  {}

  lemma WithoutCursorFirst(r: Request, cursor: Option<string>, dateOk: string -> bool)
    requires CriteriaOf(r, cursor, dateOk).Ok?
    ensures CriteriaOf(r, None, dateOk).Ok?
  {
    hide C.Decode, ParseTerm, ParseStatus, ParseDue, ParseLimit;
    NoCursor(dateOk);
  }

  /** What the request stands for, its cursor apart. */
  function AskOf(fold: char -> char, owner: nat, r: Request, dateOk: string -> bool): Ask
    requires CriteriaOf(r, None, dateOk).Ok?
  {
    Ask(fold, owner, CriteriaOf(r, None, dateOk).value)
  }

  lemma CutIsAnswer(ask: Ask, s: Snapshot, at: Option<Place>)
    requires Printed(s)
    requires forall p | p in Fetch(ask, s, at) :: T.Printable(p.key) && p.id < C.UUIDS
    ensures Cut(Fetch(ask, s, at), ask.criteria.limit) == Answer(ask, s, at)
  {
    hide Fetch, CursorText, T.Printable, Printed;
  }

  /** A request is served as the walk's request. */
  lemma ServeIsRespond(
    fold: char -> char, owner: nat, r: Request, cursor: Option<string>, s: Snapshot, dateOk: string -> bool,
    page: Response)
    requires Printed(s) && CriteriaOf(r, None, dateOk).Ok?
    ensures Serve(fold, owner, r, cursor, s, dateOk) == Ok(page)
       <==> Respond(AskOf(fold, owner, r, dateOk), s, cursor, dateOk) == Ok(page)
  {
    hide CriteriaOf, C.Decode, Cast, Fetch, Execute, Answer, Cut, Means, Assembled, Printed, T.Printable;
    CursorGoesIn(r, cursor, dateOk);
    var ask := AskOf(fold, owner, r, dateOk);
    match C.Decode(cursor, dateOk)
    case Err(_) =>
    case Ok(c) =>
      if c.Some? ==> StartAt(c).Some? {
        var st := Assembled(owner, ask.criteria.(cursor := c), s.zone);
        AssembledMeans(fold, owner, ask.criteria.(cursor := c), s.zone);
        SelectedPrint(fold, ask.criteria.sort, st, s);
        ExecuteIsFetch(ask, s, c, st);
        CutIsAnswer(ask, s, StartAt(c));
      }
  }

  lemma ExecuteIsFetch(ask: Ask, s: Snapshot, cursor: Option<C.Cursor>, st: Statement)
    requires cursor.Some? ==> StartAt(cursor).Some?
    requires Means(ask.fold, st, ask.owner, ask.criteria.(cursor := cursor), s.zone)
    requires |st.params| > 0 && st.params[|st.params| - 1] == LimitParam(ask.criteria.limit + 1)
    ensures Execute(ask.fold, ask.criteria.sort, st, s) == Fetch(ask, s, StartAt(cursor))
  {
    hide Means, StartAt, Remaining, Selected;
    RemainingIsSelected(ask, s, cursor, st);
  }

  // ---------- which requests are served ----------

  predicate LimitOk(limit: Option<int>) {
    limit.Some? ==> 1 <= limit.value <= 50
  }

  /** Not blank, and at most 200 characters long once trimmed. */
  ghost predicate TextOk(q: Option<string>) {
    q.Some? ==> exists from: nat, to: nat :: IsTrimmed(q.value, from, to) && 0 < to - from <= 200
  }

  predicate OneOf(value: Option<string>, known: seq<string>) {
    value.Some? ==> value.value in known
  }

  lemma TextAccepted(q: Option<string>)
    ensures ParseTerm(q) == if TextOk(q) then Ok(if q.Some? then Some(L.EscapeLike(Trim(q.value))) else None)
                            else Err(FieldInvalid("q"))
  {
    hide L.EscapeLike, Trim, IsTrimmed;
    if q.Some? {
      var i, j := TrimIsStretch(q.value);
      if from: nat, to: nat :| IsTrimmed(q.value, from, to) && 0 < to - from <= 200 {
        OneStretch(q.value, from, to, i, j);
      }
    }
  }

  /** What is wrong with the request, the first thing in this order; None if nothing is. */
  ghost function Fault(r: Request, cursor: Option<string>, dateOk: string -> bool): Option<Error> {
    match r
    case Find(q, status, due, limit) =>
      if !TextOk(q) then Some(FieldInvalid("q"))
      else if !OneOf(status, ["active", "completed", "overdue"]) then Some(FieldInvalid("status"))
      else if !OneOf(due, ["today", "upcoming", "overdue", "none"]) then Some(FieldInvalid("due"))
      else if q == None && status == None && due == None then Some(NoCriteria)
      else if !LimitOk(limit) then Some(FieldInvalid("limit"))
      else if C.Decode(cursor, dateOk).Err? then Some(FieldInvalid("cursor"))
      else None
    case Show(view, limit) =>
      if view !in ["today", "upcoming", "overdue", "all"] then Some(ViewNotFound)
      else if !LimitOk(limit) then Some(FieldInvalid("limit"))
      else if C.Decode(cursor, dateOk).Err? then Some(FieldInvalid("cursor"))
      else None
  }

  lemma FiltersAccepted(status: Option<string>, due: Option<string>, limit: Option<int>)
    ensures var r := ParseStatus(status);
            if OneOf(status, ["active", "completed", "overdue"]) then r.Ok? && r.value.Some? == status.Some?
            else r == Err(FieldInvalid("status"))
    ensures var r := ParseDue(due);
            if OneOf(due, ["today", "upcoming", "overdue", "none"]) then r.Ok? && r.value.Some? == due.Some?
            else r == Err(FieldInvalid("due"))
    ensures var r := ParseLimit(limit); if LimitOk(limit) then r.Ok? else r == Err(FieldInvalid("limit"))
  {}

  /** A request is accepted exactly when nothing is wrong with it, and refused for the first
      thing that is. */
  lemma RefusedForItsFault(r: Request, cursor: Option<string>, dateOk: string -> bool)
    ensures match CriteriaOf(r, cursor, dateOk)
            case Ok(c) => Fault(r, cursor, dateOk) == None
            case Err(e) => Fault(r, cursor, dateOk) == Some(e)
  {
    hide ParseTerm, ParseStatus, ParseDue, ParseLimit, LimitOk, OneOf, TextOk, C.Decode, L.EscapeLike, Trim;
    match r
    case Find(q, status, due, limit) =>
      TextAccepted(q);
      FiltersAccepted(status, due, limit);
    case Show(view, limit) =>
      FiltersAccepted(None, None, limit);
  }
}
