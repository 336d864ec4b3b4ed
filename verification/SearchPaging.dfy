/** search.service.ts, views.service.ts and the tail of search.repository.ts: one page,
    the cursor it hands on, and walking the pages to the end. */
module SearchPaging {
  import opened Wrappers
  import opened Ordering
  import opened SearchCriteria
  import opened SearchStatement
  import opened ZoneClock
  import C = CursorCodec
  import T = Timestamps

  /** What stays the same from page to page: everything but the cursor. */
  datatype Ask = Ask(fold: char -> char, owner: nat, criteria: Criteria)

  datatype Response = Response(rows: seq<Place>, nextCursor: Option<string>)

  datatype Failure = BadRequest | BadCast

  ghost function Order(sort: SortOrder): (Place, Place) -> bool {
    (a: Place, b: Place) => Precedes(sort, a, b)
  }

  /** The snapshot's sort keys print with four-digit years, and its ids are uuids. */
  ghost predicate Printed(s: Snapshot) {
    forall id | id in s.tasks ::
      && id < C.UUIDS && T.Printable(s.tasks[id].createdAt)
      && (s.tasks[id].dueAt.Some? ==> T.Printable(s.tasks[id].dueAt.value))
  }

  /** And they lie in the common era: from the year 1 to the year 9999. */
  ghost predicate Sound(s: Snapshot) {
    && Printed(s)
    && forall id | id in s.tasks ::
         T.CommonEra(s.tasks[id].createdAt) && (s.tasks[id].dueAt.Some? ==> T.CommonEra(s.tasks[id].dueAt.value))
  }

  /** The row under `id` matches, and its place is `p`. */
  predicate MatchesAt(ask: Ask, s: Snapshot, p: Place) {
    && p.id in s.tasks
    && Matches(ask.fold, ask.owner, ask.criteria, s.now, s.zone, s.tasks[p.id])
    && SortKey(ask.criteria.sort, s.tasks[p.id]) == Some(p.key)
  }

  /** The whole result, before any cursor. */
  ghost function Corpus(ask: Ask, s: Snapshot): (r: set<Place>)
    ensures forall p :: p in r <==> MatchesAt(ask, s, p)
  {
    var r := set id | id in s.tasks && SortKey(ask.criteria.sort, s.tasks[id]).Some?
                      && MatchesAt(ask, s, Place(SortKey(ask.criteria.sort, s.tasks[id]).value, id))
      :: Place(SortKey(ask.criteria.sort, s.tasks[id]).value, id);
    r
  }

  predicate After(sort: SortOrder, at: Option<Place>, p: Place) {
    at.Some? ==> Precedes(sort, at.value, p)
  }

  ghost function Remaining(ask: Ask, s: Snapshot, at: Option<Place>): set<Place> {
    set p | p in Corpus(ask, s) && After(ask.criteria.sort, at, p)
  }

  lemma OrderIsTotal(sort: SortOrder, s: set<Place>)
    ensures StrictTotalOrder(Order(sort), s)
  {}

  /** `ORDER BY ... LIMIT n + 1`. */
  ghost function Fetch(ask: Ask, s: Snapshot, at: Option<Place>): seq<Place> {
    OrderIsTotal(ask.criteria.sort, Remaining(ask, s, at));
    var sorted := Sort(Order(ask.criteria.sort), Remaining(ask, s, at));
    if |sorted| > ask.criteria.limit + 1 then sorted[..ask.criteria.limit + 1] else sorted
  }

  /** The extra row says that there is more, and is dropped. */
  ghost function PageAt(ask: Ask, s: Snapshot, at: Option<Place>): (seq<Place>, bool) {
    var fetched := Fetch(ask, s, at);
    if |fetched| > ask.criteria.limit then (fetched[..ask.criteria.limit], true) else (fetched, false)
  }

  lemma RowPrints(ask: Ask, s: Snapshot, at: Option<Place>, p: Place)
    requires Printed(s) && p in Remaining(ask, s, at)
    ensures p.id < C.UUIDS && T.Printable(p.key) && (Sound(s) ==> T.CommonEra(p.key))
  {
    hide Matches, T.Printable, T.CommonEra;
    assert MatchesAt(ask, s, p);
  }

  lemma PageIsFromRemaining(ask: Ask, s: Snapshot, at: Option<Place>)
    ensures forall p | p in PageAt(ask, s, at).0 :: p in Remaining(ask, s, at)
  {
    OrderIsTotal(ask.criteria.sort, Remaining(ask, s, at));
    var sorted := Sort(Order(ask.criteria.sort), Remaining(ask, s, at));
    forall p | p in PageAt(ask, s, at).0 ensures p in Remaining(ask, s, at) {
      assert p in sorted;
      assert p in Elements(sorted);
    }
  }

  /** Where a request with this cursor parameter starts. */
  function Resume(raw: Option<string>, dateOk: string -> bool): Result<Option<Place>, Failure> {
    match C.Decode(raw, dateOk)
    case Err(_) => Err(BadRequest)
    case Ok(None) => Ok(None)
    case Ok(Some(c)) =>
      match Cast(c.sortKey, c.id)
      case None => Err(BadCast)
      case Some(at) => Ok(Some(at))
  }

  /** One request: decode the cursor, cast it, run the statement, and name the last row
      of the page if another page exists. */
  ghost function Respond(ask: Ask, s: Snapshot, raw: Option<string>, dateOk: string -> bool): Result<Response, Failure>
    requires Printed(s)
  {
    match Resume(raw, dateOk)
    case Err(e) => Err(e)
    case Ok(at) => Ok(Answer(ask, s, at))
  }

  ghost function Answer(ask: Ask, s: Snapshot, at: Option<Place>): Response
    requires Printed(s)
  {
    var (rows, hasMore) := PageAt(ask, s, at);
    if hasMore && rows != [] then
      var last := rows[|rows| - 1];
      PageIsFromRemaining(ask, s, at);
      RowPrints(ask, s, at, last);
      Response(rows, Some(CursorText(last)))
    else
      Response(rows, None)
  }

  function CursorText(p: Place): string
    requires T.Printable(p.key) && p.id < C.UUIDS
  {
    T.PrintIsAscii(p.key);
    C.UuidBack(p.id);
    C.NoBarInUuid(C.PrintUuid(p.id));
    C.Encode(C.RowCursor(p.key, p.id))
  }

  /** A next cursor sends the following request to just past the row it names, if and only
      if that row's sort key lies in the common era: the cursor names no era. */
  lemma CursorResumes(p: Place, dateOk: string -> bool)
    requires T.Printable(p.key) && p.id < C.UUIDS && C.AcceptsPrinted(dateOk)
    ensures Resume(Some(CursorText(p)), dateOk) == Ok(Some(p)) <==> T.CommonEra(p.key)
    ensures Resume(Some(CursorText(p)), dateOk) ==
              match T.Parse(T.Print(p.key)) case None => Err(BadCast) case Some(k) => Ok(Some(Place(k, p.id)))
  {
    hide C.Encode, C.Decode, T.Parse, C.ParseUuid, C.IsUuid, T.Print, C.PrintUuid, T.Printable, T.CommonEra;
    C.RowCursorRoundTrip(p.key, p.id, dateOk);
  }

  lemma RespondFrom(ask: Ask, s: Snapshot, raw: Option<string>, at: Option<Place>, dateOk: string -> bool)
    requires Printed(s) && Resume(raw, dateOk) == Ok(at)
    ensures Respond(ask, s, raw, dateOk) == Ok(Answer(ask, s, at))
  {
    hide Resume, Answer, Printed;
  }

  // ---------- the statement behind a page ----------

  /** The places of the rows the statement selects. */
  ghost function Selected(fold: char -> char, sort: SortOrder, st: Statement, s: Snapshot): set<Place> {
    set id | id in s.tasks && SortKey(sort, s.tasks[id]).Some? && Selects(fold, st, s.tasks[id], s.now)
      :: Place(SortKey(sort, s.tasks[id]).value, id)
  }

  /** Running the statement: sort what it selects and cut it at its last parameter. */
  ghost function Execute(fold: char -> char, sort: SortOrder, st: Statement, s: Snapshot): seq<Place>
    requires |st.params| > 0 && st.params[|st.params| - 1].LimitParam?
  {
    OrderIsTotal(sort, Selected(fold, sort, st, s));
    var sorted := Sort(Order(sort), Selected(fold, sort, st, s));
    var n := st.params[|st.params| - 1].n;
    if |sorted| > n then sorted[..n] else sorted
  }

  /** Where a request with this cursor starts. */
  function StartAt(cursor: Option<C.Cursor>): Option<Place> {
    if cursor.Some? then Cast(cursor.value.sortKey, cursor.value.id) else None
  }

  /** The rows behind a request, with a cursor or without, are those the assembled
      statement selects. */
  lemma RemainingIsSelected(ask: Ask, s: Snapshot, cursor: Option<C.Cursor>, st: Statement)
    requires cursor.Some? ==> StartAt(cursor).Some?
    requires Means(ask.fold, st, ask.owner, ask.criteria.(cursor := cursor), s.zone)
    ensures Remaining(ask, s, StartAt(cursor)) == Selected(ask.fold, ask.criteria.sort, st, s)
  {
    hide Cast, Selects, TitleHolds, StatusHolds, DueHolds, Precedes;
    var sort, at := ask.criteria.sort, StartAt(cursor);
    forall p ensures p in Remaining(ask, s, at) <==> p in Selected(ask.fold, sort, st, s) {
      assert p in Corpus(ask, s) <==> MatchesAt(ask, s, p);
      if p.id in s.tasks && SortKey(sort, s.tasks[p.id]) == Some(p.key) {
        var t := s.tasks[p.id];
        assert Selects(ask.fold, st, t, s.now)
          <==> Matches(ask.fold, ask.owner, ask.criteria.(cursor := cursor), s.now, s.zone, t)
               && PastCursor(sort, cursor, t);
      }
    }
  }

  /** One call of `search`: the statement it assembles, run on the snapshot, returns the
      rows a page is cut from. */
  method Search(ask: Ask, cursor: Option<C.Cursor>, zone: Zone) returns (st: Statement)
    ensures Bound(st, 1) && |st.params| > 0 && st.params[|st.params| - 1] == LimitParam(ask.criteria.limit + 1)
    ensures (cursor.Some? ==> StartAt(cursor).Some?) ==>
              forall s: Snapshot | s.zone == zone ::
                Execute(ask.fold, ask.criteria.sort, st, s) == Fetch(ask, s, StartAt(cursor))
  {
    hide Bound, Means, StartAt, Remaining, Selected;
    st := Assemble(ask.owner, ask.criteria.(cursor := cursor), zone, ask.fold);
    if cursor.Some? ==> StartAt(cursor).Some? {
      forall s: Snapshot | s.zone == zone
        ensures Execute(ask.fold, ask.criteria.sort, st, s) == Fetch(ask, s, StartAt(cursor))
      {
        RemainingIsSelected(ask, s, cursor, st);
      }
    }
  }

  /** Under criteria the parsers build, every matching row has a place in the order. */
  lemma NothingWithoutAPlace(ask: Ask, s: Snapshot, id: nat)
    requires Runnable(ask.criteria)
    requires id in s.tasks && Matches(ask.fold, ask.owner, ask.criteria, s.now, s.zone, s.tasks[id])
    ensures exists p :: p in Corpus(ask, s) && p.id == id
  {
    hide DD.InBucket, TitleHolds, StatusHolds;
    var key := SortKey(ask.criteria.sort, s.tasks[id]);
    assert key.Some?;
    assert MatchesAt(ask, s, Place(key.value, id));
  }

  // ---------- one page ----------

  lemma TakeIncreasing<X>(less: (X, X) -> bool, q: seq<X>, n: nat)
    requires Increasing(less, q) && n <= |q|
    ensures Increasing(less, q[..n])
  {}

  /** A row left out of a prefix of a sorted enumeration comes after all of it. */
  lemma LeftOut<X(!new)>(less: (X, X) -> bool, sorted: seq<X>, n: nat, p: X)
    requires Increasing(less, sorted) && n <= |sorted| && p in sorted && p !in sorted[..n]
    ensures n < |sorted| && forall x | x in sorted[..n] :: less(x, p)
  {
    var i :| 0 <= i < |sorted| && sorted[i] == p;
    assert forall k | 0 <= k < n :: sorted[k] in sorted[..n];
    forall x | x in sorted[..n] ensures less(x, p) {
      var k :| 0 <= k < n && sorted[..n][k] == x;
      assert less(sorted[k], sorted[i]);
    }
  }

  lemma PageLeavesOut(ask: Ask, s: Snapshot, at: Option<Place>, p: Place)
    requires p in Remaining(ask, s, at) && p !in PageAt(ask, s, at).0
    ensures var (rows, more) := PageAt(ask, s, at);
            more && (rows != [] ==> Precedes(ask.criteria.sort, rows[|rows| - 1], p))
  {
    var sort, rest := ask.criteria.sort, Remaining(ask, s, at);
    OrderIsTotal(sort, rest);
    var sorted := Sort(Order(sort), rest);
    var (rows, more) := PageAt(ask, s, at);
    hide Remaining, Precedes;
    assert rows == sorted[..|rows|];
    assert p in sorted by { assert p in Elements(sorted); }
    LeftOut(Order(sort), sorted, |rows|, p);
    if rows != [] { assert Order(sort)(rows[|rows| - 1], p); }
  }

  /** A page is in order, holds only rows past the cursor, and misses one only if it is
      full and the row comes after its last. */
  lemma PageFacts(ask: Ask, s: Snapshot, at: Option<Place>)
    ensures var (rows, more) := PageAt(ask, s, at);
            && Increasing(Order(ask.criteria.sort), rows)
            && (forall p | p in rows :: p in Remaining(ask, s, at))
            && (more ==> |rows| == ask.criteria.limit)
            && (forall p | p in Remaining(ask, s, at) ::
                  p in rows || (more && (rows != [] ==> Precedes(ask.criteria.sort, rows[|rows| - 1], p))))
  {
    var sort, rest := ask.criteria.sort, Remaining(ask, s, at);
    OrderIsTotal(sort, rest);
    var sorted := Sort(Order(sort), rest);
    var (rows, more) := PageAt(ask, s, at);
    hide Remaining, Precedes, Increasing;
    PageIsFromRemaining(ask, s, at);
    assert rows == sorted[..|rows|];
    TakeIncreasing(Order(sort), sorted, |rows|);
    hide PageAt;
    forall p | p in rest && p !in rows
      ensures more && (rows != [] ==> Precedes(sort, rows[|rows| - 1], p))
    {
      PageLeavesOut(ask, s, at, p);
    }
  }
}
