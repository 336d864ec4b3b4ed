/** search.repository.ts: the one statement, assembled clause by clause, and what it
    selects. */
module SearchStatement {
  import opened Wrappers
  import opened Schema
  import opened SearchCriteria
  import opened ZoneClock
  import L = LikePattern
  import C = CursorCodec
  import T = Timestamps
  import DD = DueDate

  /** What the statement reads besides its parameters. */
  datatype Snapshot = Snapshot(tasks: TaskTable, now: int, zone: Zone)

  function Millis(t: int): int { t / 1000 }

  /** The one overdue rule. */
  predicate IsOverdue(t: Task, now: int) {
    t.completedAt == None && t.dueAt.Some? && t.dueAt.value < now
  }

  predicate StatusHolds(s: Status, t: Task, now: int) {
    match s
    case Active => t.completedAt == None
    case Completed => t.completedAt.Some?
    case OverdueStatus => IsOverdue(t, now)
  }

  predicate DueHolds(d: Due, t: Task, now: int, zone: Zone) {
    match d
    case Today => t.dueAt.Some? && DD.InBucket(DD.Today, zone, Millis(now), Millis(t.dueAt.value))
    case Upcoming => t.dueAt.Some? && DD.InBucket(DD.Upcoming, zone, Millis(now), Millis(t.dueAt.value))
    case Overdue => IsOverdue(t, now)
    case NoDue => t.dueAt == None
  }

  predicate TitleHolds(fold: char -> char, term: string, t: Task) {
    L.ILike(fold, t.title, "%" + term + "%") == Some(true)
  }

  /** The filter the criteria stand for, cursor and limit aside. */
  predicate Matches(fold: char -> char, owner: nat, c: Criteria, now: int, zone: Zone, t: Task) {
    && t.owner == owner
    && t.deletedAt == None
    && (c.term.Some? ==> TitleHolds(fold, c.term.value, t))
    && (c.status.Some? ==> StatusHolds(c.status.value, t, now))
    && (c.due.Some? ==> DueHolds(c.due.value, t, now, zone))
  }

  function SortKey(sort: SortOrder, t: Task): Option<int> {
    match sort
    case Newest => Some(t.createdAt)
    case ByDue => t.dueAt
  }

  /** A row's place in the order: its sort key, ties broken by id. */
  datatype Place = Place(key: int, id: nat)

  predicate Less(a: Place, b: Place) {
    a.key < b.key || (a.key == b.key && a.id < b.id)
  }

  /** `created_at DESC, id DESC`, or `due_at ASC, id ASC`. */
  predicate Precedes(sort: SortOrder, a: Place, b: Place) {
    match sort
    case Newest => Less(b, a)
    case ByDue => Less(a, b)
  }

  /** The `::timestamptz` and `::uuid` casts of a cursor. */
  function Cast(key: string, id: string): Option<Place> {
    match (T.Parse(key), C.ParseUuid(id))
    case (Some(k), Some(i)) => Some(Place(k, i))
    case _ => None
  }

  predicate PastCursor(sort: SortOrder, cursor: Option<C.Cursor>, t: Task) {
    cursor.Some? ==>
      var at, key := Cast(cursor.value.sortKey, cursor.value.id), SortKey(sort, t);
      at.Some? && key.Some? && Precedes(sort, at.value, Place(key.value, t.id))
  }

  // ---------- the assembled statement ----------

  datatype Param = OwnerParam(owner: nat) | TextParam(text: string) | ZoneParam(zone: Zone) | LimitParam(n: nat)

  /** Placeholders count from 1; a due clause that takes no zone has placeholder 0. */
  datatype Clause =
    | OwnerIs(p: nat)
    | Live
    | TitleLike(p: nat)
    | StatusIs(status: Status)
    | DueIs(due: Due, p: nat)
    | Past(sort: SortOrder, pKey: nat, pId: nat)

  function Arg(params: seq<Param>, p: nat): Option<Param> {
    if 1 <= p <= |params| then Some(params[p - 1]) else None
  }

  predicate Holds(fold: char -> char, clause: Clause, params: seq<Param>, t: Task, now: int) {
    match clause
    case OwnerIs(p) => (match Arg(params, p) case Some(OwnerParam(o)) => t.owner == o case _ => false)
    case Live => t.deletedAt == None
    case TitleLike(p) => (match Arg(params, p) case Some(TextParam(x)) => TitleHolds(fold, x, t) case _ => false)
    case StatusIs(s) => StatusHolds(s, t, now)
    case DueIs(d, p) =>
      if d == Overdue then IsOverdue(t, now)
      else if d == NoDue then t.dueAt == None
      else (match Arg(params, p) case Some(ZoneParam(z)) => DueHolds(d, t, now, z) case _ => false)
    case Past(sort, pKey, pId) =>
      (match (Arg(params, pKey), Arg(params, pId))
       case (Some(TextParam(k)), Some(TextParam(i))) => PastCursor(sort, Some(C.Cursor(k, i)), t)
       case _ => false)
  }

  predicate Mentions(clause: Clause, p: nat) {
    match clause
    case OwnerIs(q) => p == q
    case TitleLike(q) => p == q
    case DueIs(_, q) => p == q
    case Past(_, k, i) => p == k || p == i
    case _ => false
  }

  /** `WHERE` and `LIMIT` with their parameters. */
  datatype Statement = Statement(where: seq<Clause>, params: seq<Param>)

  ghost predicate Selects(fold: char -> char, st: Statement, t: Task, now: int) {
    forall i | 0 <= i < |st.where| :: Holds(fold, st.where[i], st.params, t, now)
  }

  /** Every placeholder is bound, and every parameter is mentioned: an unused one makes
      the database reject the statement. The last `limits` are the limit's. */
  ghost predicate Bound(st: Statement, limits: nat) {
    && (forall i, p: nat | 0 <= i < |st.where| && Mentions(st.where[i], p) :: p <= |st.params|)
    && (forall p: nat | 1 <= p <= |st.params| - limits :: Mentioned(st.where, p))
  }

  ghost predicate Mentioned(where: seq<Clause>, p: nat) {
    exists i | 0 <= i < |where| :: Mentions(where[i], p)
  }

  /** Adding a parameter changes the meaning of no clause already there. */
  lemma HoldsWithMore(fold: char -> char, clause: Clause, params: seq<Param>, more: seq<Param>, t: Task, now: int)
    requires forall p: nat | Mentions(clause, p) :: p <= |params|
    ensures Holds(fold, clause, params + more, t, now) == Holds(fold, clause, params, t, now)
  {
    match clause
    case OwnerIs(p) => assert Mentions(clause, p);
    case TitleLike(p) => assert Mentions(clause, p);
    case DueIs(_, p) => assert Mentions(clause, p);
    case Past(_, k, i) => assert Mentions(clause, k) && Mentions(clause, i);
    case _ =>
  }

  /** One more clause, with the parameters it brings. */
  lemma Push(fold: char -> char, st: Statement, clause: Clause, more: seq<Param>)
    requires Bound(st, 0)
    requires forall p: nat | Mentions(clause, p) :: p <= |st.params| + |more|
    requires forall p: nat | |st.params| < p <= |st.params| + |more| :: Mentions(clause, p)
    ensures Bound(Statement(st.where + [clause], st.params + more), 0)
    ensures var st' := Statement(st.where + [clause], st.params + more);
            forall t, now :: Selects(fold, st', t, now)
                        <==> Selects(fold, st, t, now) && Holds(fold, clause, st'.params, t, now)
  {
    var st' := Statement(st.where + [clause], st.params + more);
    assert forall i | 0 <= i < |st.where| :: st'.where[i] == st.where[i];
    assert st'.where[|st.where|] == clause;
    forall p: nat | 1 <= p <= |st'.params| ensures Mentioned(st'.where, p) {
      if p <= |st.params| {
        assert Mentioned(st.where, p);
        var i :| 0 <= i < |st.where| && Mentions(st.where[i], p);
        assert Mentions(st'.where[i], p);
      } else {
        assert Mentions(st'.where[|st.where|], p);
      }
    }
    forall t, now
      ensures Selects(fold, st', t, now) <==> Selects(fold, st, t, now) && Holds(fold, clause, st'.params, t, now)
    {
      forall i | 0 <= i < |st.where|
        ensures Holds(fold, st'.where[i], st'.params, t, now) == Holds(fold, st.where[i], st.params, t, now)
      {
        HoldsWithMore(fold, st.where[i], st.params, more, t, now);
      }
    }
  }

  lemma EmptyStatement(fold: char -> char)
    ensures Bound(Statement([], []), 0)
    ensures forall t, now :: Selects(fold, Statement([], []), t, now)
  {}

  lemma LimitLast(fold: char -> char, st: Statement, p: Param)
    requires Bound(st, 0)
    ensures var st' := st.(params := st.params + [p]);
            Bound(st', 1) && forall t, now :: Selects(fold, st', t, now) <==> Selects(fold, st, t, now)
  {
    var st' := st.(params := st.params + [p]);
    forall t, now ensures Selects(fold, st', t, now) <==> Selects(fold, st, t, now) {
      forall i | 0 <= i < |st.where|
        ensures Holds(fold, st.where[i], st'.params, t, now) == Holds(fold, st.where[i], st.params, t, now)
      {
        HoldsWithMore(fold, st.where[i], st.params, [p], t, now);
      }
    }
  }

  // ---------- the statement a request is run by ----------

  function Pushed(st: Statement, clause: Clause, more: seq<Param>): Statement {
    Statement(st.where + [clause], st.params + more)
  }

  /** The zone is bound only for the buckets that mention it. */
  function WithDue(st: Statement, due: Due, zone: Zone): Statement {
    if due == Today || due == Upcoming then Pushed(st, DueIs(due, |st.params| + 1), [ZoneParam(zone)])
    else Pushed(st, DueIs(due, 0), [])
  }

  function WithCursor(st: Statement, sort: SortOrder, cursor: C.Cursor): Statement {
    Pushed(st, Past(sort, |st.params| + 1, |st.params| + 2), [TextParam(cursor.sortKey), TextParam(cursor.id)])
  }

  function WithCriteria(st: Statement, c: Criteria, zone: Zone): Statement {
    var titled := if c.term.Some? then Pushed(st, TitleLike(|st.params| + 1), [TextParam(c.term.value)]) else st;
    var held := if c.status.Some? then Pushed(titled, StatusIs(c.status.value), []) else titled;
    var due := if c.due.Some? then WithDue(held, c.due.value, zone) else held;
    if c.cursor.Some? then WithCursor(due, c.sort, c.cursor.value) else due
  }

  function Assembled(owner: nat, c: Criteria, zone: Zone): Statement {
    var owned := Pushed(Pushed(Statement([], []), OwnerIs(1), [OwnerParam(owner)]), Live, []);
    var st := WithCriteria(owned, c, zone);
    st.(params := st.params + [LimitParam(c.limit + 1)])
  }

  lemma DueMeans(fold: char -> char, st: Statement, due: Due, zone: Zone)
    requires Bound(st, 0)
    ensures var st' := WithDue(st, due, zone);
            && Bound(st', 0)
            && forall t, now :: Selects(fold, st', t, now) <==> Selects(fold, st, t, now) && DueHolds(due, t, now, zone)
  {
    hide Selects, Bound, DD.InBucket;
    if due == Today || due == Upcoming {
      Push(fold, st, DueIs(due, |st.params| + 1), [ZoneParam(zone)]);
    } else {
      Push(fold, st, DueIs(due, 0), []);
    }
  }

  lemma CursorMeans(fold: char -> char, st: Statement, sort: SortOrder, cursor: C.Cursor)
    requires Bound(st, 0)
    ensures var st' := WithCursor(st, sort, cursor);
            && Bound(st', 0)
            && forall t, now :: Selects(fold, st', t, now)
                           <==> Selects(fold, st, t, now) && PastCursor(sort, Some(cursor), t)
  {
    hide Selects, Bound, PastCursor;
    Push(fold, st, Past(sort, |st.params| + 1, |st.params| + 2), [TextParam(cursor.sortKey), TextParam(cursor.id)]);
  }

  lemma CriteriaMean(fold: char -> char, st: Statement, c: Criteria, zone: Zone)
    requires Bound(st, 0)
    ensures Bound(WithCriteria(st, c, zone), 0)
    ensures forall t, now :: Selects(fold, WithCriteria(st, c, zone), t, now)
                        <==> && Selects(fold, st, t, now)
                             && (c.term.Some? ==> TitleHolds(fold, c.term.value, t))
                             && (c.status.Some? ==> StatusHolds(c.status.value, t, now))
                             && (c.due.Some? ==> DueHolds(c.due.value, t, now, zone))
                             && PastCursor(c.sort, c.cursor, t)
  {
    hide Selects, Bound, StatusHolds, DueHolds, TitleHolds, Cast, Precedes, WithDue, WithCursor;
    if c.term.Some? { Push(fold, st, TitleLike(|st.params| + 1), [TextParam(c.term.value)]); }
    var titled := if c.term.Some? then Pushed(st, TitleLike(|st.params| + 1), [TextParam(c.term.value)]) else st;
    if c.status.Some? { Push(fold, titled, StatusIs(c.status.value), []); }
    var held := if c.status.Some? then Pushed(titled, StatusIs(c.status.value), []) else titled;
    if c.due.Some? { DueMeans(fold, held, c.due.value, zone); }
    var due := if c.due.Some? then WithDue(held, c.due.value, zone) else held;
    if c.cursor.Some? { CursorMeans(fold, due, c.sort, c.cursor.value); }
  }

  /** The statement selects exactly the owner's live tasks that meet every criterion
      given and lie past the cursor. */
  ghost predicate Means(fold: char -> char, st: Statement, owner: nat, c: Criteria, zone: Zone) {
    forall t, now :: Selects(fold, st, t, now)
                <==> Matches(fold, owner, c, now, zone, t) && PastCursor(c.sort, c.cursor, t)
  }

  lemma AssembledMeans(fold: char -> char, owner: nat, c: Criteria, zone: Zone)
    ensures var st := Assembled(owner, c, zone);
            && Bound(st, 1) && Means(fold, st, owner, c, zone)
            && |st.params| > 0 && st.params[|st.params| - 1] == LimitParam(c.limit + 1)
  {
    hide Selects, Bound, StatusHolds, DueHolds, TitleHolds, PastCursor, WithCriteria;
    EmptyStatement(fold);
    var empty := Statement([], []);
    Push(fold, empty, OwnerIs(1), [OwnerParam(owner)]);
    var owned := Pushed(empty, OwnerIs(1), [OwnerParam(owner)]);
    Push(fold, owned, Live, []);
    var live := Pushed(owned, Live, []);
    assert Arg(owned.params, 1) == Some(OwnerParam(owner));
    CriteriaMean(fold, live, c, zone);
    LimitLast(fold, WithCriteria(live, c, zone), LimitParam(c.limit + 1));
  }

  /** `where.push(...)` and `params.push(...)`. */
  method Add(st: Statement, clause: Clause, more: seq<Param>, ghost fold: char -> char) returns (st': Statement)
    requires Bound(st, 0)
    requires forall p: nat | Mentions(clause, p) :: p <= |st.params| + |more|
    requires forall p: nat | |st.params| < p <= |st.params| + |more| :: Mentions(clause, p)
    ensures st' == Pushed(st, clause, more) && Bound(st', 0)
    ensures forall t, now :: Selects(fold, st', t, now)
                        <==> Selects(fold, st, t, now) && Holds(fold, clause, st'.params, t, now)
  {
    Push(fold, st, clause, more);
    st' := Statement(st.where + [clause], st.params + more);
  }

  method AddDue(st: Statement, due: Due, zone: Zone, ghost fold: char -> char) returns (st': Statement)
    requires Bound(st, 0)
    ensures st' == WithDue(st, due, zone) && Bound(st', 0)
    ensures forall t, now :: Selects(fold, st', t, now) <==> Selects(fold, st, t, now) && DueHolds(due, t, now, zone)
  {
    hide Selects, Bound, DD.InBucket;
    if due == Today || due == Upcoming {
      st' := Add(st, DueIs(due, |st.params| + 1), [ZoneParam(zone)], fold);
    } else {
      st' := Add(st, DueIs(due, 0), [], fold);
    }
  }

  method AddCursor(st: Statement, sort: SortOrder, cursor: C.Cursor, ghost fold: char -> char) returns (st': Statement)
    requires Bound(st, 0)
    ensures st' == WithCursor(st, sort, cursor) && Bound(st', 0)
    ensures forall t, now :: Selects(fold, st', t, now)
                        <==> Selects(fold, st, t, now) && PastCursor(sort, Some(cursor), t)
  {
    hide Selects, Bound, PastCursor;
    var past := Past(sort, |st.params| + 1, |st.params| + 2);
    st' := Add(st, past, [TextParam(cursor.sortKey), TextParam(cursor.id)], fold);
  }

  /** `search` pushes each clause and its parameters in turn. */
  method Assemble(owner: nat, c: Criteria, zone: Zone, ghost fold: char -> char) returns (st: Statement)
    ensures st == Assembled(owner, c, zone)
    ensures Bound(st, 1)
    ensures |st.params| > 0 && st.params[|st.params| - 1] == LimitParam(c.limit + 1)
    ensures Means(fold, st, owner, c, zone)
  {
    hide Selects, Bound, StatusHolds, DueHolds, TitleHolds, Cast, Precedes, Means, WithDue, WithCursor;
    AssembledMeans(fold, owner, c, zone);
    st := Statement([], []);
    EmptyStatement(fold);
    st := Add(st, OwnerIs(1), [OwnerParam(owner)], fold);
    st := Add(st, Live, [], fold);
    if c.term.Some? {
      st := Add(st, TitleLike(|st.params| + 1), [TextParam(c.term.value)], fold);
    }
    if c.status.Some? {
      st := Add(st, StatusIs(c.status.value), [], fold);
    }
    if c.due.Some? {
      st := AddDue(st, c.due.value, zone, fold);
    }
    if c.cursor.Some? {
      st := AddCursor(st, c.sort, c.cursor.value, fold);
    }
    st := st.(params := st.params + [LimitParam(c.limit + 1)]);
  }
}
