/** The list view: the order of `findByList`, the split of `readView`, and what reorder,
    create and the other operations do to the active section. */
module TaskOrder {
  import opened Wrappers
  import opened Ordering
  import opened Schema
  import opened Store
  import opened StoreInvariants

  /** `ORDER BY` of `findByList`: active rows first, by position, creation and id; then
      completed rows, latest first. */
  predicate Precedes(a: Task, b: Task) {
    if a.completedAt.None? != b.completedAt.None? then a.completedAt.None?
    else if a.completedAt.None? then
      a.position < b.position
      || (a.position == b.position && (a.createdAt < b.createdAt || (a.createdAt == b.createdAt && a.id < b.id)))
    else
      a.completedAt.value > b.completedAt.value || (a.completedAt == b.completedAt && a.id < b.id)
  }

  const ORDER: (Task, Task) -> bool := (a: Task, b: Task) => Precedes(a, b)

  function LiveRows(db: Db, owner: nat, list: nat): set<Task> {
    set id | id in db.tasks && InList(db.tasks[id], owner, list) && db.tasks[id].deletedAt == None :: db.tasks[id]
  }

  function ActiveRows(db: Db, owner: nat, list: nat): set<Task> {
    set id | id in db.tasks && InList(db.tasks[id], owner, list) && IsActive(db.tasks[id]) :: db.tasks[id]
  }

  ghost predicate IdsApart(s: set<Task>) {
    forall a, b | a in s && b in s && a.id == b.id :: a == b
  }

  lemma OrderIsTotal(s: set<Task>)
    requires IdsApart(s)
    ensures StrictTotalOrder(ORDER, s)
  {
    forall a, b | a in s && b in s && a != b ensures ORDER(a, b) || ORDER(b, a) {
      assert a.id != b.id;
    }
  }

  lemma RowsApart(db: Db, owner: nat, list: nat)
    ensures IdsApart(LiveRows(db, owner, list)) && IdsApart(ActiveRows(db, owner, list))
    ensures StrictTotalOrder(ORDER, LiveRows(db, owner, list)) && StrictTotalOrder(ORDER, ActiveRows(db, owner, list))
  {
    OrderIsTotal(LiveRows(db, owner, list));
    OrderIsTotal(ActiveRows(db, owner, list));
  }

  ghost function FindByList(db: Db, owner: nat, list: nat): seq<Task> {
    RowsApart(db, owner, list);
    Sort(ORDER, LiveRows(db, owner, list))
  }

  function ActiveOnly(rows: seq<Task>): seq<Task> {
    if rows == [] then []
    else ActiveOnly(rows[..|rows| - 1]) + (if rows[|rows| - 1].completedAt == None then [rows[|rows| - 1]] else [])
  }

  /** The active section of `readView`. */
  ghost function ActiveView(db: Db, owner: nat, list: nat): seq<Task> {
    ActiveOnly(FindByList(db, owner, list))
  }

  function Ids(rows: seq<Task>): seq<nat> {
    seq(|rows|, i requires 0 <= i < |rows| => rows[i].id)
  }

  // ---------- the active section is the active rows, sorted ----------

  lemma {:induction false} ActiveOnlyFacts(rows: seq<Task>)
    requires Increasing(ORDER, rows)
    ensures Increasing(ORDER, ActiveOnly(rows))
    ensures forall t :: t in ActiveOnly(rows) <==> t in rows && t.completedAt == None
  {
    if rows != [] {
      var n := |rows| - 1;
      var before, kept := rows[..n], ActiveOnly(rows[..n]);
      assert rows == before + [rows[n]];
      ActiveOnlyFacts(before);
      forall i | 0 <= i < |kept| ensures ORDER(kept[i], rows[n]) {
        assert kept[i] in before;
        var k :| 0 <= k < n && rows[k] == kept[i];
      }
    }
  }

  lemma ActiveViewIsSort(db: Db, owner: nat, list: nat)
    ensures StrictTotalOrder(ORDER, ActiveRows(db, owner, list))
    ensures ActiveView(db, owner, list) == Sort(ORDER, ActiveRows(db, owner, list))
  {
    RowsApart(db, owner, list);
    var rows, view := FindByList(db, owner, list), ActiveView(db, owner, list);
    ActiveOnlyFacts(rows);
    forall t ensures t in view <==> t in ActiveRows(db, owner, list) {
      assert t in rows <==> t in Elements(rows);
    }
    assert Elements(view) == ActiveRows(db, owner, list);
    hide StrictTotalOrder, Increasing;
    SortUnique(ORDER, ActiveRows(db, owner, list), view);
  }

  /** Any increasing arrangement of exactly the active rows is the active section. */
  lemma ActiveViewIs(db: Db, owner: nat, list: nat, q: seq<Task>)
    requires Increasing(ORDER, q)
    requires forall t :: t in q <==> t in ActiveRows(db, owner, list)
    ensures ActiveView(db, owner, list) == q
  {
    ActiveViewIsSort(db, owner, list);
    assert Elements(q) == ActiveRows(db, owner, list);
    hide StrictTotalOrder, Increasing;
    SortUnique(ORDER, ActiveRows(db, owner, list), q);
  }

  lemma IdsOf(view: seq<Task>, s: set<Task>)
    requires Increasing(ORDER, view) && IdsApart(s) && forall t :: t in view <==> t in s
    ensures Distinct(Ids(view))
    ensures forall t | t in s :: t.id in Ids(view)
  {
    forall i, j | 0 <= i < j < |view| ensures Ids(view)[i] != Ids(view)[j] {
      assert ORDER(view[i], view[j]);
      assert view[i] in view && view[j] in view;
    }
    forall t | t in s ensures t.id in Ids(view) {
      var i :| 0 <= i < |view| && view[i] == t;
      assert Ids(view)[i] == t.id;
    }
  }

  lemma ActiveViewFacts(db: Db, owner: nat, list: nat)
    ensures Increasing(ORDER, ActiveView(db, owner, list))
    ensures forall t :: t in ActiveView(db, owner, list) <==> t in ActiveRows(db, owner, list)
    ensures IsOrderOf(Ids(ActiveView(db, owner, list)), ActiveIds(db, owner, list))
  {
    ActiveViewIsSort(db, owner, list);
    RowsApart(db, owner, list);
    var view := ActiveView(db, owner, list);
    hide ActiveView, Sort, StrictTotalOrder, Increasing;
    assert forall t :: t in view <==> t in Elements(view);
    IdsOf(view, ActiveRows(db, owner, list));
    hide IdsApart;
    forall id | id in ActiveIds(db, owner, list) ensures id in Ids(view) {
      assert db.tasks[id] in ActiveRows(db, owner, list);
    }
    forall id | id in Ids(view) ensures id in ActiveIds(db, owner, list) {
      var i :| 0 <= i < |view| && Ids(view)[i] == id;
      assert view[i] in view;
    }
  }

  // ---------- the two sections of the list view ----------

  function CompletedOnly(rows: seq<Task>): seq<Task> {
    if rows == [] then []
    else
      CompletedOnly(rows[..|rows| - 1]) + (if rows[|rows| - 1].completedAt != None then [rows[|rows| - 1]] else [])
  }

  /** The completed section of `readView`. */
  ghost function CompletedView(db: Db, owner: nat, list: nat): seq<Task> {
    CompletedOnly(FindByList(db, owner, list))
  }

  lemma ActiveComeFirst(rows: seq<Task>)
    requires Increasing(ORDER, rows) && rows != [] && rows[|rows| - 1].completedAt == None
    ensures forall t | t in rows :: t.completedAt == None
  {
    var n := |rows| - 1;
    forall t | t in rows ensures t.completedAt == None {
      var k :| 0 <= k <= n && rows[k] == t;
      if k < n { assert ORDER(rows[k], rows[n]); }
    }
  }

  lemma {:induction false} NoneCompleted(rows: seq<Task>)
    requires forall t | t in rows :: t.completedAt == None
    ensures CompletedOnly(rows) == []
  {
    if rows != [] { NoneCompleted(rows[..|rows| - 1]); }
  }

  lemma {:induction false} CompletedOnlyFacts(rows: seq<Task>)
    ensures forall t :: t in CompletedOnly(rows) <==> t in rows && t.completedAt.Some?
  {
    if rows != [] {
      var n := |rows| - 1;
      CompletedOnlyFacts(rows[..n]);
      assert rows == rows[..n] + [rows[n]];
    }
  }

  lemma {:induction false} SplitRows(rows: seq<Task>)
    requires Increasing(ORDER, rows)
    ensures rows == ActiveOnly(rows) + CompletedOnly(rows)
  {
    if rows != [] {
      hide Precedes, Increasing;
      var n := |rows| - 1;
      IncreasingFront(rows);
      SplitRows(rows[..n]);
      assert rows == rows[..n] + [rows[n]];
      if rows[n].completedAt == None {
        ActiveComeFirst(rows);
        assert forall t | t in rows[..n] :: t in rows;
        NoneCompleted(rows[..n]);
      }
    }
  }

  lemma IncreasingFront(rows: seq<Task>)
    requires Increasing(ORDER, rows) && rows != []
    ensures Increasing(ORDER, rows[..|rows| - 1])
  {}

  predicate IsLive(db: Db, owner: nat, list: nat, t: Task) {
    t.id in db.tasks && db.tasks[t.id] == t && t.owner == owner && t.list == list && t.deletedAt == None
  }

  lemma LiveRowsAre(db: Db, owner: nat, list: nat, t: Task)
    ensures t in FindByList(db, owner, list) <==> IsLive(db, owner, list, t)
  {
    RowsApart(db, owner, list);
    assert t in FindByList(db, owner, list) <==> t in Elements(FindByList(db, owner, list));
  }

  lemma RowsInOrder(db: Db, owner: nat, list: nat)
    ensures Increasing(ORDER, FindByList(db, owner, list))
  {
    RowsApart(db, owner, list);
    hide Increasing, StrictTotalOrder;
  }

  /** The list view is the live active rows and then the live completed ones. */
  lemma SectionsOfTheView(db: Db, owner: nat, list: nat)
    ensures var active, done := ActiveView(db, owner, list), CompletedView(db, owner, list);
            && FindByList(db, owner, list) == active + done
            && (forall t :: t in active <==> IsLive(db, owner, list, t) && t.completedAt == None)
            && (forall t :: t in done <==> IsLive(db, owner, list, t) && t.completedAt.Some?)
  {
    hide FindByList, Increasing, IsLive, Precedes, ActiveOnly, CompletedOnly;
    var rows := FindByList(db, owner, list);
    RowsInOrder(db, owner, list);
    ActiveOnlyFacts(rows);
    CompletedOnlyFacts(rows);
    SplitRows(rows);
    forall t ensures t in rows <==> IsLive(db, owner, list, t) { LiveRowsAre(db, owner, list, t); }
  }

  /** The active ones by position, then creation, then id. */
  lemma ActiveByPosition(db: Db, owner: nat, list: nat, i: nat, j: nat)
    requires i < j < |ActiveView(db, owner, list)|
    ensures var a, b := ActiveView(db, owner, list)[i], ActiveView(db, owner, list)[j];
            || a.position < b.position
            || (a.position == b.position && a.createdAt < b.createdAt)
            || (a.position == b.position && a.createdAt == b.createdAt && a.id < b.id)
  {
    SectionsOfTheView(db, owner, list);
    ActiveViewFacts(db, owner, list);
    var active := ActiveView(db, owner, list);
    hide ActiveView, CompletedView, FindByList, IsLive;
    assert active[i] in active && active[j] in active && ORDER(active[i], active[j]);
  }

  /** The completed ones by completion, the latest first, and then by id. */
  lemma LatestCompletedFirst(db: Db, owner: nat, list: nat, i: nat, j: nat)
    requires i < j < |CompletedView(db, owner, list)|
    ensures var a, b := CompletedView(db, owner, list)[i], CompletedView(db, owner, list)[j];
            && a.completedAt.Some? && b.completedAt.Some?
            && (a.completedAt.value > b.completedAt.value || (a.completedAt == b.completedAt && a.id < b.id))
  {
    hide ActiveView, CompletedView, FindByList, IsLive, Precedes, Increasing;
    var active, done := ActiveView(db, owner, list), CompletedView(db, owner, list);
    RowsInOrder(db, owner, list);
    SectionsOfTheView(db, owner, list);
    SecondPart(active, done, i, j);
    assert done[i] in done && done[j] in done;
    CompletedFirstMeans(done[i], done[j]);
  }

  lemma SecondPart(active: seq<Task>, done: seq<Task>, i: nat, j: nat)
    requires Increasing(ORDER, active + done) && i < j < |done|
    ensures Precedes(done[i], done[j])
  {
    hide Precedes;
    var rows := active + done;
    assert rows[|active| + i] == done[i] && rows[|active| + j] == done[j];
    assert ORDER(rows[|active| + i], rows[|active| + j]);
  }

  lemma CompletedFirstMeans(a: Task, b: Task)
    requires Precedes(a, b) && a.completedAt.Some? && b.completedAt.Some?
    ensures a.completedAt.value > b.completedAt.value || (a.completedAt == b.completedAt && a.id < b.id)
  {}

  // ---------- the count beside the list ----------

  /** `COUNT(t.id) FILTER (WHERE completed_at IS NULL AND deleted_at IS NULL)` over the
      list's tasks, whoever owns them. */
  function ActiveTaskCount(db: Db, list: nat): nat {
    |set id | id in db.tasks && db.tasks[id].list == list && IsActive(db.tasks[id])|
  }

  /** In every reachable state the count is the length of the active section. */
  lemma CountIsViewLength(db: Db, owner: nat, list: nat)
    requires Reachable(db) && OwnsList(db, owner, list)
    ensures ActiveTaskCount(db, list) == |ActiveView(db, owner, list)|
  {
    ReachableSound(db);
    var counted := set id | id in db.tasks && db.tasks[id].list == list && IsActive(db.tasks[id]);
    assert counted == ActiveIds(db, owner, list) by {
      forall id | id in counted ensures id in ActiveIds(db, owner, list) {
        assert OwnsList(db, db.tasks[id].owner, list);
      }
    }
    ActiveViewFacts(db, owner, list);
    DistinctSize(Ids(ActiveView(db, owner, list)));
  }

  // ---------- reorder ----------

  /** Only the order has changed: of these rows, the position and the time of the write. */
  predicate OnlyMoved(db: Db, db': Db, ids: seq<nat>) {
    && db' == db.(tasks := db'.tasks)
    && db'.tasks.Keys == db.tasks.Keys
    && forall id | id in db.tasks ::
         if id in ids then db'.tasks[id] == db.tasks[id].(position := IndexOf(ids, id), updatedAt := db.now)
         else db'.tasks[id] == db.tasks[id]
  }

  lemma ReorderMoves(db: Db, owner: nat, list: nat, ids: seq<nat>)
    requires OwnsList(db, owner, list) && IsOrderOf(ids, ActiveIds(db, owner, list))
    ensures var (db', reply) := TasksReordered(db, owner, list, ids);
            reply == Done && OnlyMoved(db, db', ids) && ActiveIds(db', owner, list) == ActiveIds(db, owner, list)
            && forall i | 0 <= i < |ids| :: ids[i] in db'.tasks && db'.tasks[ids[i]].position == i
  {
    OrderChecksIff(ids, ActiveIds(db, owner, list));
    hide OrderChecks;
    forall id | id in ids ensures id in ActiveIds(db, owner, list) { assert id in Elements(ids); }
    var db' := TasksReordered(db, owner, list, ids).0;
    forall i | 0 <= i < |ids| ensures ids[i] in db'.tasks && db'.tasks[ids[i]].position == i {
      assert ids[i] in ids;
    }
  }

  lemma ArrangedByPosition(db: Db, owner: nat, list: nat, ids: seq<nat>)
    requires IsOrderOf(ids, ActiveIds(db, owner, list))
    requires forall i | 0 <= i < |ids| :: ids[i] in db.tasks && db.tasks[ids[i]].position == i
    ensures Ids(ActiveView(db, owner, list)) == ids
  {
    forall id | id in ids ensures id in ActiveIds(db, owner, list) { assert id in Elements(ids); }
    var q := seq(|ids|, i requires 0 <= i < |ids| => db.tasks[ids[i]]);
    forall i, j | 0 <= i < j < |q| ensures ORDER(q[i], q[j]) {
      assert ids[i] in ids && ids[j] in ids;
    }
    forall t ensures t in q <==> t in ActiveRows(db, owner, list) {
      if t in q {
        var i :| 0 <= i < |q| && q[i] == t;
        assert ids[i] in ids;
      }
      if t in ActiveRows(db, owner, list) {
        assert t.id in ActiveIds(db, owner, list);
        assert t.id in Elements(ids);
        var i :| 0 <= i < |ids| && ids[i] == t.id;
        assert q[i] == t;
      }
    }
    ActiveViewIs(db, owner, list, q);
    assert Ids(q) == ids by {
      forall i | 0 <= i < |ids| ensures Ids(q)[i] == ids[i] { assert ids[i] in ids; }
    }
  }

  /** Reorder accepts exactly the permutations of the list's active ids. Accepted, it makes
      them the active section, at positions 0..n-1, and touches no other row; rejected, it
      changes nothing. */
  lemma ReorderExact(db: Db, owner: nat, list: nat, ids: seq<nat>)
    requires OwnsList(db, owner, list)
    ensures var (db', reply) := TasksReordered(db, owner, list, ids);
            if IsOrderOf(ids, ActiveIds(db, owner, list)) then
              && reply == Done
              && Ids(ActiveView(db', owner, list)) == ids
              && (forall i | 0 <= i < |ids| :: ids[i] in db'.tasks && db'.tasks[ids[i]].position == i)
              && OnlyMoved(db, db', ids)
            else reply == OrderInvalid && db' == db
  {
    OrderChecksIff(ids, ActiveIds(db, owner, list));
    if IsOrderOf(ids, ActiveIds(db, owner, list)) {
      ReorderMoves(db, owner, list, ids);
      ArrangedByPosition(TasksReordered(db, owner, list, ids).0, owner, list, ids);
    }
  }

  /** Sending the same order again, at whatever later time, is accepted and changes no
      more than the rows' `updatedAt`. */
  lemma ReorderTwice(db: Db, owner: nat, list: nat, ids: seq<nat>, later: int)
    requires OwnsList(db, owner, list) && IsOrderOf(ids, ActiveIds(db, owner, list))
    ensures var db' := TasksReordered(db, owner, list, ids).0.(now := later);
            var (again, reply) := TasksReordered(db', owner, list, ids);
            && reply == Done
            && again == db'.(tasks := again.tasks) && again.tasks.Keys == db'.tasks.Keys
            && forall id | id in db'.tasks :: again.tasks[id] == db'.tasks[id].(updatedAt := again.tasks[id].updatedAt)
  {
    ReorderMoves(db, owner, list, ids);
    var db' := TasksReordered(db, owner, list, ids).0.(now := later);
    assert ActiveIds(db', owner, list) == ActiveIds(db, owner, list);
    hide TasksReordered, IsOrderOf;
    ReorderMoves(db', owner, list, ids);
  }

  // ---------- create ----------

  /** A new task is last in the active section, the rest of which stays as it was. */
  lemma CreatedIsLast(db: Db, owner: nat, list: nat, id: nat, title: string, dueAt: Option<int>, priority: Priority)
    requires OwnsList(db, owner, list) && id !in db.tasks
    ensures var db' := TaskCreated(db, owner, list, id, title, dueAt, priority).0;
            && id in db'.tasks
            && ActiveView(db', owner, list) == ActiveView(db, owner, list) + [db'.tasks[id]]
            && forall t | t in ActiveRows(db, owner, list) :: t.position < db'.tasks[id].position
  {
    var db' := TaskCreated(db, owner, list, id, title, dueAt, priority).0;
    var view, row := ActiveView(db, owner, list), db'.tasks[id];
    ActiveViewFacts(db, owner, list);
    forall t | t in ActiveRows(db, owner, list) ensures t.position < row.position {
      assert t.position in TaskPositions(db, owner, list);
    }
    var q := view + [row];
    hide ActiveView, Ids, Appended;
    forall i, j | 0 <= i < j < |q| ensures ORDER(q[i], q[j]) {
      assert view[i] in view;
      if j < |view| { assert ORDER(view[i], view[j]); }
    }
    forall t ensures t in q <==> t in ActiveRows(db', owner, list) {
      NewActiveRow(db, db', owner, list, row, t);
      assert t in q <==> t in view || t == row;
    }
    ActiveViewIs(db', owner, list, q);
  }

  lemma NewActiveRow(db: Db, db': Db, owner: nat, list: nat, row: Task, t: Task)
    requires row.id !in db.tasks && db'.tasks == db.tasks[row.id := row] && InList(row, owner, list) && IsActive(row)
    ensures t in ActiveRows(db', owner, list) <==> t in ActiveRows(db, owner, list) || t == row
  {
    assert forall id | id in db.tasks :: db'.tasks[id] == db.tasks[id];
    assert row.id in db'.tasks;
  }
}
