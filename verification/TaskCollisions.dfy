/** Active tasks that share a position: right after a reorder, exactly when a task that was
    hidden comes back to a number the reorder has given away. `TaskPlaces` has whole runs. */
module TaskCollisions {
  import opened Wrappers
  import opened Ordering
  import opened Schema
  import opened Store
  import opened StoreInvariants
  import opened TaskOrder

  /** The task is in the active section, and so is another at the same position. */
  ghost predicate Collides(db: Db, owner: nat, list: nat, id: nat) {
    && id in ActiveIds(db, owner, list)
    && exists a :: a in ActiveIds(db, owner, list) && a != id && db.tasks[a].position == db.tasks[id].position
  }

  /** The active rows stand at 0..n-1 in the order `ids`, and this one is hidden. */
  ghost predicate HiddenBeside(db: Db, owner: nat, list: nat, ids: seq<nat>, id: nat) {
    && IsOrderOf(ids, ActiveIds(db, owner, list))
    && (forall i | 0 <= i < |ids| :: ids[i] in db.tasks && db.tasks[ids[i]].position == i)
    && id in db.tasks && InList(db.tasks[id], owner, list) && !IsActive(db.tasks[id])
  }

  lemma HiddenAfterReorder(db: Db, owner: nat, list: nat, ids: seq<nat>, id: nat)
    requires OwnsList(db, owner, list) && IsOrderOf(ids, ActiveIds(db, owner, list))
    requires id in db.tasks && InList(db.tasks[id], owner, list) && !IsActive(db.tasks[id])
    ensures var db' := TasksReordered(db, owner, list, ids).0;
            HiddenBeside(db', owner, list, ids, id) && db'.tasks[id] == db.tasks[id]
  {
    ReorderMoves(db, owner, list, ids);
    assert id in ids ==> id in Elements(ids);
    hide TasksReordered;
  }

  /** The row comes back as it was hidden, and nothing else changes. */
  lemma ComesBack(db: Db, owner: nat, list: nat, ids: seq<nat>, id: nat, row: Task)
    requires HiddenBeside(db, owner, list, ids, id)
    requires row.id == id && InList(row, owner, list) && IsActive(row) && row.position == db.tasks[id].position
    ensures forall back: Db | back.tasks == db.tasks[id := row] ::
              Collides(back, owner, list, id) <==> 0 <= row.position < |ids|
  {
    forall back: Db | back.tasks == db.tasks[id := row]
      ensures Collides(back, owner, list, id) <==> 0 <= row.position < |ids|
    {
      var p := row.position;
      assert forall x | x in ids :: x in Elements(ids);
      assert forall a | a in db.tasks && a != id :: back.tasks[a] == db.tasks[a];
      if 0 <= p < |ids| {
        assert ids[p] in Elements(ids);
        assert ids[p] in ActiveIds(back, owner, list);
      }
      forall a | a in ActiveIds(back, owner, list) && a != id ensures 0 <= back.tasks[a].position < |ids| {
        assert a in ActiveIds(db, owner, list);
        assert a in Elements(ids);
      }
    }
  }

  lemma ReopenedBeside(db: Db, owner: nat, list: nat, ids: seq<nat>, id: nat)
    requires HiddenBeside(db, owner, list, ids, id) && db.tasks[id].deletedAt == None
    ensures Collides(CompletionSet(db, owner, id, false).0, owner, list, id) <==> 0 <= db.tasks[id].position < |ids|
  {
    ComesBack(db, owner, list, ids, id, db.tasks[id].(completedAt := None, updatedAt := db.now));
    hide Collides;
  }

  lemma RestoredBeside(db: Db, owner: nat, list: nat, ids: seq<nat>, id: nat)
    requires HiddenBeside(db, owner, list, ids, id) && db.tasks[id].completedAt == None
    ensures Collides(DeletionSet(db, owner, id, false).0, owner, list, id) <==> 0 <= db.tasks[id].position < |ids|
  {
    ComesBack(db, owner, list, ids, id, db.tasks[id].(deletedAt := None, updatedAt := db.now));
    hide Collides;
  }

  lemma BothBeside(db: Db, owner: nat, list: nat, ids: seq<nat>, id: nat)
    requires HiddenBeside(db, owner, list, ids, id)
    ensures Collides(CompletionSet(DeletionSet(db, owner, id, false).0, owner, id, false).0, owner, list, id)
       <==> 0 <= db.tasks[id].position < |ids|
  {
    var row := db.tasks[id].(completedAt := None, deletedAt := None, updatedAt := db.now);
    ComesBack(db, owner, list, ids, id, row);
    hide Collides;
    assert CompletionSet(DeletionSet(db, owner, id, false).0, owner, id, false).0.tasks == db.tasks[id := row];
  }

  /** Hidden rows keep the number they had while the visible ones are renumbered 0..n-1.
      So a task that is reopened, restored, or both lands on another's number if and only
      if its own is below n. */
  lemma ReopenedCollides(db: Db, owner: nat, list: nat, ids: seq<nat>, id: nat)
    requires OwnsList(db, owner, list) && IsOrderOf(ids, ActiveIds(db, owner, list))
    requires id in db.tasks && InList(db.tasks[id], owner, list) && !IsActive(db.tasks[id])
    ensures var db' := TasksReordered(db, owner, list, ids).0;
            var taken := 0 <= db.tasks[id].position < |ids|;
            var restored := DeletionSet(db', owner, id, false).0;
            && (db.tasks[id].deletedAt == None ==>
                  (Collides(CompletionSet(db', owner, id, false).0, owner, list, id) <==> taken))
            && (db.tasks[id].completedAt == None ==> (Collides(restored, owner, list, id) <==> taken))
            && (Collides(CompletionSet(restored, owner, id, false).0, owner, list, id) <==> taken)
  {
    hide TasksReordered, Collides, IsOrderOf, HiddenBeside, CompletionSet, DeletionSet;
    var db' := TasksReordered(db, owner, list, ids).0;
    HiddenAfterReorder(db, owner, list, ids, id);
    if db.tasks[id].deletedAt == None { ReopenedBeside(db', owner, list, ids, id); }
    if db.tasks[id].completedAt == None { RestoredBeside(db', owner, list, ids, id); }
    BothBeside(db', owner, list, ids, id);
  }

  // ---------- and it happens ----------

  const OWNER := 1
  const INBOX := 2

  function Plain(id: nat, completedAt: Option<int>, position: int): Task {
    Task(id, OWNER, INBOX, "", completedAt, None, 0, 0, None, NoPriority, position)
  }

  lemma AccountWithInbox() returns (db: Db)
    ensures Reachable(db) && OwnsList(db, OWNER, INBOX)
    ensures db.now == 0 && db.tasks == map[] && db.used == {OWNER, INBOX}
  {
    assert Run(Empty, [], Empty);
    ReachableThen(Empty, Register(OWNER, INBOX));
    db := Step(Empty, Register(OWNER, INBOX));
  }

  lemma NextPosition(positions: set<int>, last: int)
    requires last in positions && forall x | x in positions :: x <= last
    ensures Appended(positions) == last + 1
  {}

  lemma FirstTask() returns (db: Db)
    ensures Reachable(db) && OwnsList(db, OWNER, INBOX)
    ensures db.now == 0 && db.tasks == map[3 := Plain(3, None, 0)] && db.used == {OWNER, INBOX, 3}
  {
    var db0 := AccountWithInbox();
    var create := CreateTask(OWNER, INBOX, 3, "", None, NoPriority);
    ReachableThen(db0, create);
    hide Reachable;
    assert TaskPositions(db0, OWNER, INBOX) == {};
    db := Step(db0, create);
  }

  lemma SecondTask() returns (db: Db)
    ensures Reachable(db) && OwnsList(db, OWNER, INBOX)
    ensures db.now == 0 && db.tasks == map[3 := Plain(3, None, 0), 4 := Plain(4, None, 1)]
  {
    var db1 := FirstTask();
    var create := CreateTask(OWNER, INBOX, 4, "", None, NoPriority);
    ReachableThen(db1, create);
    hide Reachable;
    assert db1.tasks[3].position == 0 && 0 in TaskPositions(db1, OWNER, INBOX);
    NextPosition(TaskPositions(db1, OWNER, INBOX), 0);
    hide Appended;
    db := Step(db1, create);
  }

  /** Two tasks, at positions 0 and 1, the first of them completed. */
  lemma TwoTasks() returns (db: Db)
    ensures Reachable(db) && OwnsList(db, OWNER, INBOX)
    ensures db.now == 0 && db.tasks == map[3 := Plain(3, Some(0), 0), 4 := Plain(4, None, 1)]
  {
    var db2 := SecondTask();
    ReachableThen(db2, SetCompletion(OWNER, 3, true));
    hide Reachable;
    db := Step(db2, SetCompletion(OWNER, 3, true));
  }

  /** Create two tasks, complete the first, reorder what is left, reopen: both are active,
      and at the same position. */
  lemma ReachableCollision()
    ensures exists db :: Reachable(db) && Collides(db, OWNER, INBOX, 3)
  {
    var db := TwoTasks();
    var reorder, reopen := ReorderTasks(OWNER, INBOX, [4]), SetCompletion(OWNER, 3, false);
    hide Reachable, Collides;
    assert ActiveIds(db, OWNER, INBOX) == {4} == Elements([4]);
    ReorderMoves(db, OWNER, INBOX, [4]);
    ReopenedCollides(db, OWNER, INBOX, [4], 3);
    hide TasksReordered, CompletionSet;
    ReachableThen(db, reorder);
    ReachableThen(Step(db, reorder), reopen);
    assert Collides(Step(Step(db, reorder), reopen), OWNER, INBOX, 3);
  }
}
