/** Whole runs of the operations: relative order, retention, and what is never touched. */
module TaskRuns {
  import opened Wrappers
  import opened Ordering
  import opened Schema
  import opened Store
  import opened StoreInvariants
  import opened TaskOrder

  // ---------- a task's place is its own ----------

  /** What nothing but a reorder of the list changes. */
  predicate SamePlace(a: Task, b: Task) {
    a.id == b.id && a.owner == b.owner && a.list == b.list && a.createdAt == b.createdAt && a.position == b.position
  }

  predicate Reorders(op: Op, list: nat) {
    op.ReorderTasks? && op.list == list
  }

  lemma StepKeepsPlace(db: Db, op: Op, id: nat)
    requires Enabled(db, op) && id in db.tasks && id in db.used && !Reorders(op, db.tasks[id].list)
    ensures var db' := Step(db, op); id in db'.used && (id in db'.tasks ==> SamePlace(db'.tasks[id], db.tasks[id]))
  {
    hide OrderChecks, Appended, IndexOf, Stamped, Expired;
    if op.ReorderTasks? {
      hide Step;
      ReorderKeepsOtherPlaces(db, op, id);
    }
  }

  lemma ReorderKeepsOtherPlaces(db: Db, op: Op, id: nat)
    requires op.ReorderTasks? && id in db.tasks && op.list != db.tasks[id].list
    ensures var db' := Step(db, op); db'.used == db.used && id in db'.tasks && db'.tasks[id] == db.tasks[id]
  {
    hide OrderChecks;
  }

  lemma StepMakesFresh(db: Db, op: Op, id: nat)
    requires Enabled(db, op) && id in db.used && id !in db.tasks
    ensures id in Step(db, op).used && id !in Step(db, op).tasks
  {
    hide OrderChecks;
  }

  /** A task that is gone does not come back. */
  lemma {:induction false} GoneForGood(db: Db, ops: seq<Op>, end: Db, id: nat)
    requires Run(db, ops, end) && id in db.used && id !in db.tasks
    ensures id !in end.tasks
    decreases |ops|
  {
    hide Step, Enabled;
    if ops != [] {
      StepMakesFresh(db, ops[0], id);
      GoneForGood(Step(db, ops[0]), ops[1..], end, id);
    }
  }

  lemma {:induction false} RunKeepsPlace(db: Db, ops: seq<Op>, end: Db, id: nat)
    requires Run(db, ops, end) && id in db.tasks && id in db.used
    requires forall i | 0 <= i < |ops| :: !Reorders(ops[i], db.tasks[id].list)
    ensures id in end.tasks ==> SamePlace(end.tasks[id], db.tasks[id])
    decreases |ops|
  {
    hide Step, Enabled;
    if ops != [] {
      var next := Step(db, ops[0]);
      StepKeepsPlace(db, ops[0], id);
      if id in next.tasks {
        RunKeepsPlace(next, ops[1..], end, id);
      } else {
        GoneForGood(next, ops[1..], end, id);
      }
    }
  }

  /** `a` and `b` are both in the active section, `a` above `b`. */
  ghost predicate ShownAbove(db: Db, owner: nat, list: nat, a: nat, b: nat) {
    var ids := Ids(ActiveView(db, owner, list));
    exists i, j :: 0 <= i < j < |ids| && ids[i] == a && ids[j] == b
  }

  lemma ShownAboveIff(db: Db, owner: nat, list: nat, a: nat, b: nat)
    requires a in ActiveIds(db, owner, list) && b in ActiveIds(db, owner, list)
    ensures ShownAbove(db, owner, list, a, b) <==> Precedes(db.tasks[a], db.tasks[b])
  {
    ActiveViewFacts(db, owner, list);
    var view := ActiveView(db, owner, list);
    var ids := Ids(view);
    hide ActiveView;
    assert a in Elements(ids) && b in Elements(ids);
    var i :| 0 <= i < |ids| && ids[i] == a;
    var j :| 0 <= j < |ids| && ids[j] == b;
    assert view[i] in view && view[j] in view;
    assert view[i] == db.tasks[a] && view[j] == db.tasks[b];
    if i < j { assert ORDER(view[i], view[j]); }
    if j < i { assert ORDER(view[j], view[i]); }
  }

  /** Without a reorder of the list, two tasks keep the same order every time both are
      shown active, through completes, reopens, deletes, restores, edits and the rest. */
  lemma RelativeOrderKept(db: Db, ops: seq<Op>, end: Db, owner: nat, list: nat, a: nat, b: nat)
    requires Sound(db) && Run(db, ops, end)
    requires forall i | 0 <= i < |ops| :: !Reorders(ops[i], list)
    requires a in ActiveIds(db, owner, list) && b in ActiveIds(db, owner, list)
    requires a in ActiveIds(end, owner, list) && b in ActiveIds(end, owner, list)
    ensures ShownAbove(db, owner, list, a, b) <==> ShownAbove(end, owner, list, a, b)
  {
    hide ShownAbove, Run;
    RunKeepsPlace(db, ops, end, a);
    RunKeepsPlace(db, ops, end, b);
    ShownAboveIff(db, owner, list, a, b);
    ShownAboveIff(end, owner, list, a, b);
  }

  // ---------- what one call undoes ----------

  /** Restoring a deleted task brings it back to its list with its original status and
      place, only the time of the write having moved, if and only if it was not deleted
      already: a second delete cannot be undone to the first. */
  lemma RestoreUndoesDelete(db: Db, owner: nat, id: nat, later: int)
    requires OwnsTask(db, owner, id)
    ensures var away := DeletionSet(db, owner, id, true).0;
            var back := DeletionSet(away.(now := later), owner, id, false).0;
            && id !in ActiveIds(away, owner, db.tasks[id].list)
            && (back == db.(now := later, tasks := db.tasks[id := db.tasks[id].(updatedAt := later)])
                <==> db.tasks[id].deletedAt == None)
  {
    var t := db.tasks[id];
    var back := DeletionSet(DeletionSet(db, owner, id, true).0.(now := later), owner, id, false).0;
    assert back.tasks == db.tasks[id := t.(deletedAt := None, updatedAt := later)];
    assert back.tasks[id].deletedAt == None;
  }

  /** Reopening undoes a complete if and only if the task was not completed already. */
  lemma ReopenUndoesComplete(db: Db, owner: nat, id: nat, later: int)
    requires OwnsTask(db, owner, id) && db.tasks[id].deletedAt == None
    ensures var away := CompletionSet(db, owner, id, true).0;
            var back := CompletionSet(away.(now := later), owner, id, false).0;
            && id !in ActiveIds(away, owner, db.tasks[id].list)
            && (back == db.(now := later, tasks := db.tasks[id := db.tasks[id].(updatedAt := later)])
                <==> db.tasks[id].completedAt == None)
  {
    var t := db.tasks[id];
    var back := CompletionSet(CompletionSet(db, owner, id, true).0.(now := later), owner, id, false).0;
    assert back.tasks == db.tasks[id := t.(completedAt := None, updatedAt := later)];
    assert back.tasks[id].completedAt == None;
  }

  /** Doing it twice is doing it once: the instant first recorded stands, so that neither
      the completed section's order nor the retention clock can be moved by a repeat. */
  lemma RepeatKeepsInstant(db: Db, owner: nat, id: nat, later: int)
    requires OwnsTask(db, owner, id) && db.tasks[id].deletedAt == None
    ensures var once := CompletionSet(db, owner, id, true).0;
            var twice := CompletionSet(once.(now := later), owner, id, true).0;
            twice.tasks[id] == once.tasks[id].(updatedAt := later) && once.tasks[id].completedAt.Some?
    ensures var once := DeletionSet(db, owner, id, true).0;
            var twice := DeletionSet(once.(now := later), owner, id, true).0;
            twice.tasks[id] == once.tasks[id].(updatedAt := later) && once.tasks[id].deletedAt == Some(db.now)
  {}

  // ---------- retention ----------

  /** The states of a run, first to last. */
  ghost predicate States(ops: seq<Op>, dbs: seq<Db>) {
    && |dbs| == |ops| + 1
    && forall i | 0 <= i < |ops| :: Enabled(dbs[i], ops[i]) && dbs[i + 1] == Step(dbs[i], ops[i])
  }

  predicate DeletedSince(db: Db, id: nat, t: int) {
    id in db.tasks && db.tasks[id].deletedAt == Some(t)
  }

  lemma StepDeletes(db: Db, op: Op, id: nat, t: int)
    requires Enabled(db, op) && DeletedSince(Step(db, op), id, t)
    ensures DeletedSince(db, id, t)
         || (op.SetDeletion? && op.id == id && op.deleted && t == db.now
             && id in db.tasks && db.tasks[id].deletedAt == None)
  {
    hide OrderChecks;
  }

  /** A task stamped as deleted at `t` was deleted by a call made at `t`, and has been
      deleted, with that stamp, at every moment since: a repeated delete does not move
      the stamp, and a restore ends it. */
  lemma {:induction false} StampIsUninterrupted(ops: seq<Op>, dbs: seq<Db>, id: nat, t: int) returns (k: int)
    requires States(ops, dbs) && !(id in dbs[0].tasks && dbs[0].tasks[id].deletedAt.Some?)
    requires DeletedSince(dbs[|ops|], id, t)
    ensures 0 <= k < |ops| && ops[k].SetDeletion? && ops[k].id == id && ops[k].deleted && dbs[k].now == t
    ensures forall m | k < m <= |ops| :: DeletedSince(dbs[m], id, t)
    decreases |ops|
  {
    var n := |ops|;
    k := n - 1;
    if n > 0 {
      StepDeletes(dbs[n - 1], ops[n - 1], id, t);
      hide Step, Enabled;
      if DeletedSince(dbs[n - 1], id, t) {
        k := StampIsUninterrupted(ops[..n - 1], dbs[..n], id, t);
        forall m | k < m <= n ensures DeletedSince(dbs[m], id, t) {
          if m < n { assert DeletedSince(dbs[..n][m], id, t); }
        }
      }
    }
  }

  /** Purge removes only tasks that have been deleted, without interruption, for longer
      than the retention window, whatever was interleaved. */
  lemma PurgedOnlyAfterRetention(ops: seq<Op>, dbs: seq<Db>, retention: nat, gone: set<nat>, id: nat) returns (k: int)
    requires States(ops, dbs) && dbs[0].tasks == map[]
    requires Enabled(dbs[|ops|], PurgeBatch(retention, gone)) && id in gone
    ensures 0 <= k < |ops| && ops[k].SetDeletion? && ops[k].id == id && ops[k].deleted
    ensures dbs[k].now < dbs[|ops|].now - retention
    ensures forall m | k < m <= |ops| :: id in dbs[m].tasks && dbs[m].tasks[id].deletedAt == Some(dbs[k].now)
  {
    var last := dbs[|ops|];
    k := StampIsUninterrupted(ops, dbs, id, last.tasks[id].deletedAt.value);
    assert DeletedSince(last, id, dbs[k].now);
    forall m | k < m <= |ops| ensures id in dbs[m].tasks && dbs[m].tasks[id].deletedAt == Some(dbs[k].now) {
      assert DeletedSince(dbs[m], id, dbs[k].now);
    }
  }

  /** A purge reports how many rows it took and leaves the others as they were. */
  lemma PurgeTakesOnly(db: Db, retention: nat, gone: set<nat>)
    requires Enabled(db, PurgeBatch(retention, gone))
    ensures var (db', reply) := Apply(db, PurgeBatch(retention, gone));
            && reply == Count(|db.tasks| - |db'.tasks|)
            && (forall id | id in db'.tasks :: db'.tasks[id] == db.tasks[id])
  {
    var db' := Step(db, PurgeBatch(retention, gone));
    assert db'.tasks.Keys == db.tasks.Keys - gone;
    assert |db.tasks.Keys| == |db.tasks| && |db'.tasks.Keys| == |db'.tasks|;
  }

  /** A task's row goes with its account, with its list, or by a purge once it has expired,
      and in no other way. */
  lemma LeavesOnlyBy(db: Db, op: Op, id: nat)
    requires Sound(db) && Enabled(db, op) && id in db.tasks
    ensures id !in Step(db, op).tasks <==>
              match op
              case DeleteAccount(user) => db.tasks[id].owner == user
              case DeleteList(owner, list) =>
                db.tasks[id].list == list && db.tasks[id].owner == owner && !db.lists[list].isDefault
              case PurgeBatch(retention, gone) => id in gone && Expired(db.tasks[id], retention, db.now)
              case _ => false
  {
    assert OwnsList(db, db.tasks[id].owner, db.tasks[id].list);
    hide OrderChecks, Appended, Sound;
  }

  /** Registering makes an account with one list, its default, and nothing else; deleting an
      account takes it and every list and task of its owner's, and nobody else's. */
  lemma AccountsComeAndGo(db: Db, user: nat, inbox: nat)
    requires Sound(db)
    ensures Enabled(db, Register(user, inbox)) ==>
              var db' := Step(db, Register(user, inbox));
              && db'.users == db.users + {user} && db'.tasks == db.tasks
              && db'.lists == db.lists[inbox := TaskList(inbox, user, "Inbox", true, 0, db.now, db.now)]
              && OwnedLists(db', user) == {inbox}
    ensures var db' := Step(db, DeleteAccount(user));
            && db'.users == db.users - {user}
            && (forall id :: id in db'.lists <==> id in db.lists && db.lists[id].owner != user)
            && (forall id :: id in db'.tasks <==> id in db.tasks && db.tasks[id].owner != user)
            && (forall id | id in db'.lists :: db'.lists[id] == db.lists[id])
            && (forall id | id in db'.tasks :: db'.tasks[id] == db.tasks[id])
  {
    assert forall id | id in db.tasks :: OwnsList(db, db.tasks[id].owner, db.tasks[id].list);
    if Enabled(db, Register(user, inbox)) { FreshIds(db, user); }
    hide Sound, ListsSound, TasksSound;
  }
}
