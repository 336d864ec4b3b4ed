/** Whether the tasks of a list have places of their own, over whole runs: which step takes
    that away, and what it leads to. */
module TaskPlaces {
  import opened Wrappers
  import opened Ordering
  import opened Schema
  import opened Store
  import opened StoreInvariants
  import opened TaskOrder
  import opened TaskRuns
  import opened TaskCollisions

  predicate IsRow(db: Db, owner: nat, list: nat, id: nat) {
    id in db.tasks && InList(db.tasks[id], owner, list)
  }

  /** No two rows of the list, hidden ones included, share a position. */
  ghost predicate PlacesApart(db: Db, owner: nat, list: nat) {
    forall a, b | IsRow(db, owner, list, a) && IsRow(db, owner, list, b) && a != b ::
      db.tasks[a].position != db.tasks[b].position
  }

  predicate Accepted(db: Db, op: Op, owner: nat, list: nat) {
    op.ReorderTasks? && op.owner == owner && op.list == list
    && OwnsList(db, owner, list) && OrderChecks(op.ids, ActiveIds(db, owner, list))
  }

  /** The hidden row holds a number that a reorder of `n` rows hands out. */
  predicate HoldsNumber(db: Db, owner: nat, list: nat, id: nat, n: nat) {
    IsRow(db, owner, list, id) && !IsActive(db.tasks[id]) && 0 <= db.tasks[id].position < n
  }

  /** An accepted reorder of the list that hands out a number a hidden row holds. */
  ghost predicate GivesAway(db: Db, op: Op, owner: nat, list: nat) {
    Accepted(db, op, owner, list) && exists h :: HoldsNumber(db, owner, list, h, |op.ids|)
  }

  // ---------- one step ----------

  /** Only a reorder and a create concern the places of a list. */
  lemma OtherStepsKeepRows(db: Db, op: Op, owner: nat, list: nat, id: nat)
    requires Sound(db) && Enabled(db, op) && !Accepted(db, op, owner, list)
    requires IsRow(Step(db, op), owner, list, id)
    requires !(op.CreateTask? && op.id == id)
    ensures IsRow(db, owner, list, id) && Step(db, op).tasks[id].position == db.tasks[id].position
  {
    if op.ReorderTasks? {
      assert Step(db, op) == TasksReordered(db, op.owner, op.list, op.ids).0;
      hide Sound, TasksReordered, Step;
      SoundTasks(db);
      OtherReordersKeepRows(db, op.owner, op.list, op.ids, owner, list, id);
    } else {
      NoNewRow(db, op, id);
      StepKeepsPlace(db, op, id);
    }
    hide Enabled, Step, Sound;
  }

  /** Another list's reorder, another owner's, or a refused one. */
  lemma OtherReordersKeepRows(db: Db, actor: nat, moved: nat, ids: seq<nat>, owner: nat, list: nat, id: nat)
    requires TasksSound(db) && !Accepted(db, ReorderTasks(actor, moved, ids), owner, list)
    requires IsRow(TasksReordered(db, actor, moved, ids).0, owner, list, id)
    ensures IsRow(db, owner, list, id)
    ensures TasksReordered(db, actor, moved, ids).0.tasks[id].position == db.tasks[id].position
  {
    hide OrderChecks;
    if id in db.tasks { assert OwnsList(db, db.tasks[id].owner, db.tasks[id].list); }
    hide TasksSound;
  }

  lemma SoundTasks(db: Db)
    requires Sound(db)
    ensures TasksSound(db)
  {}

  lemma NoNewRow(db: Db, op: Op, id: nat)
    requires Sound(db) && Enabled(db, op) && id in Step(db, op).tasks && !(op.CreateTask? && op.id == id)
    ensures id in db.tasks && id in db.used
  {
    hide OrderChecks, Appended, Stamped, IndexOf, Expired;
  }

  lemma CreateGivesNewPlace(db: Db, op: Op, owner: nat, list: nat, id: nat)
    requires Sound(db) && op.CreateTask? && Enabled(db, op)
    requires IsRow(Step(db, op), owner, list, op.id) && IsRow(Step(db, op), owner, list, id) && id != op.id
    ensures Step(db, op).tasks[id].position < Step(db, op).tasks[op.id].position
  {
    OtherStepsKeepRows(db, op, owner, list, id);
    assert db.tasks[id].position in TaskPositions(db, owner, list);
    assert op.id !in db.tasks;
    hide Sound, Greatest;
  }

  lemma UnlessReordered(db: Db, op: Op, owner: nat, list: nat)
    requires Sound(db) && Enabled(db, op) && PlacesApart(db, owner, list) && !Accepted(db, op, owner, list)
    ensures PlacesApart(Step(db, op), owner, list)
  {
    var db' := Step(db, op);
    hide Sound, Enabled, Step, Accepted;
    forall a, b | IsRow(db', owner, list, a) && IsRow(db', owner, list, b) && a != b
      ensures db'.tasks[a].position != db'.tasks[b].position
    {
      if op.CreateTask? && op.id == a {
        CreateGivesNewPlace(db, op, owner, list, b);
      } else if op.CreateTask? && op.id == b {
        CreateGivesNewPlace(db, op, owner, list, a);
      } else {
        OtherStepsKeepRows(db, op, owner, list, a);
        OtherStepsKeepRows(db, op, owner, list, b);
      }
    }
  }

  /** After a reorder the active rows are at 0..n-1, each at its own place, and the hidden
      ones where they were. */
  lemma ReorderedPlaces(db: Db, op: Op, owner: nat, list: nat)
    requires Accepted(db, op, owner, list)
    ensures var db' := Step(db, op);
            && (forall id :: IsRow(db', owner, list, id) <==> IsRow(db, owner, list, id))
            && Distinct(op.ids)
            && (forall id | IsRow(db, owner, list, id) :: IsActive(db.tasks[id]) <==> id in op.ids)
            && (forall id | IsRow(db, owner, list, id) && id !in op.ids :: db'.tasks[id] == db.tasks[id])
            && (forall i | 0 <= i < |op.ids| ::
                  IsRow(db', owner, list, op.ids[i]) && db'.tasks[op.ids[i]].position == i)
  {
    var ids := op.ids;
    OrderChecksIff(ids, ActiveIds(db, owner, list));
    ReorderMoves(db, owner, list, ids);
    hide OrderChecks, TasksReordered;
    assert Step(db, op) == TasksReordered(db, owner, list, ids).0;
    forall id ensures id in ids <==> id in ActiveIds(db, owner, list) { assert id in ids <==> id in Elements(ids); }
  }

  lemma ReorderKeepsApart(db: Db, op: Op, owner: nat, list: nat)
    requires PlacesApart(db, owner, list) && Accepted(db, op, owner, list)
    ensures PlacesApart(Step(db, op), owner, list) <==> !GivesAway(db, op, owner, list)
  {
    ReorderedPlaces(db, op, owner, list);
    hide Step, Accepted;
    var db', ids := Step(db, op), op.ids;
    if h :| HoldsNumber(db, owner, list, h, |ids|) {
      var p := db.tasks[h].position;
      assert IsRow(db', owner, list, ids[p]) && IsRow(db', owner, list, h) && ids[p] != h;
    } else {
      forall a, b | IsRow(db', owner, list, a) && IsRow(db', owner, list, b) && a != b
        ensures db'.tasks[a].position != db'.tasks[b].position
      {
        assert !HoldsNumber(db, owner, list, a, |ids|) && !HoldsNumber(db, owner, list, b, |ids|);
      }
    }
  }

  /** While the rows of a list have places of their own, every operation keeps it so,
      except exactly an accepted reorder that hands out a number a hidden row holds. */
  lemma StepKeepsApart(db: Db, op: Op, owner: nat, list: nat)
    requires Sound(db) && Enabled(db, op) && PlacesApart(db, owner, list)
    ensures PlacesApart(Step(db, op), owner, list) <==> !GivesAway(db, op, owner, list)
  {
    hide Sound, Enabled, Step, PlacesApart, Accepted;
    if Accepted(db, op, owner, list) {
      ReorderKeepsApart(db, op, owner, list);
    } else {
      UnlessReordered(db, op, owner, list);
    }
  }

  // ---------- runs ----------

  /** A run in which no step gives a hidden row's number away. */
  ghost predicate CarefulRun(db: Db, ops: seq<Op>, end: Db, owner: nat, list: nat)
    decreases |ops|
  {
    if ops == [] then db == end
    else
      && Enabled(db, ops[0]) && !GivesAway(db, ops[0], owner, list)
      && CarefulRun(Step(db, ops[0]), ops[1..], end, owner, list)
  }

  ghost predicate SomeCollide(db: Db, owner: nat, list: nat) {
    exists id :: Collides(db, owner, list, id)
  }

  lemma ApartNoneCollide(db: Db, owner: nat, list: nat)
    requires PlacesApart(db, owner, list)
    ensures !SomeCollide(db, owner, list)
  {
    forall a, b | a in ActiveIds(db, owner, list) && b in ActiveIds(db, owner, list) && a != b
      ensures db.tasks[a].position != db.tasks[b].position
    {
      assert IsRow(db, owner, list, a) && IsRow(db, owner, list, b);
    }
  }

  /** Reorders that take care of the hidden rows keep every task at its own place. */
  lemma {:induction false} CarefulRunsKeepApart(db: Db, ops: seq<Op>, end: Db, owner: nat, list: nat)
    requires Sound(db) && PlacesApart(db, owner, list) && CarefulRun(db, ops, end, owner, list)
    ensures Sound(end) && PlacesApart(end, owner, list) && !SomeCollide(end, owner, list)
    decreases |ops|
  {
    hide Sound, Enabled, Step, PlacesApart, GivesAway, SomeCollide;
    if ops == [] {
      ApartNoneCollide(db, owner, list);
    } else {
      StepKeepsSound(db, ops[0]);
      StepKeepsApart(db, ops[0], owner, list);
      CarefulRunsKeepApart(Step(db, ops[0]), ops[1..], end, owner, list);
    }
  }

  ghost predicate RunWithoutReorder(db: Db, ops: seq<Op>, end: Db, list: nat) {
    Run(db, ops, end) && forall i | 0 <= i < |ops| :: !Reorders(ops[i], list)
  }

  /** Some run that reorders nothing ends with two active tasks at one position. */
  ghost predicate CanCollide(db: Db, owner: nat, list: nat) {
    exists ops, end :: RunWithoutReorder(db, ops, end, list) && SomeCollide(end, owner, list)
  }

  lemma {:induction false} WithoutReorderIsCareful(db: Db, ops: seq<Op>, end: Db, owner: nat, list: nat)
    requires RunWithoutReorder(db, ops, end, list)
    ensures CarefulRun(db, ops, end, owner, list)
    decreases |ops|
  {
    hide Step, Enabled;
    if ops != [] {
      assert !Reorders(ops[0], list);
      WithoutReorderIsCareful(Step(db, ops[0]), ops[1..], end, owner, list);
    }
  }

  /** Restore, then reopen: the row is active again, and nothing else has changed. */
  function BroughtBack(db: Db, id: nat): Db
    requires id in db.tasks
  {
    db.(tasks := db.tasks[id := db.tasks[id].(completedAt := None, deletedAt := None, updatedAt := db.now)])
  }

  function BringBack(owner: nat, id: nat): seq<Op> {
    [SetDeletion(owner, id, false), SetCompletion(owner, id, false)]
  }

  lemma BringBackRuns(db: Db, owner: nat, id: nat)
    requires OwnsTask(db, owner, id)
    ensures Run(db, BringBack(owner, id), BroughtBack(db, id))
  {
    var ops := BringBack(owner, id);
    var db1 := DeletionSet(db, owner, id, false).0;
    var db2 := CompletionSet(db1, owner, id, false).0;
    assert db2.tasks == BroughtBack(db, id).tasks;
    assert Step(db, ops[0]) == db1 && Step(db1, ops[1]) == db2;
    hide DeletionSet, CompletionSet, Step;
    assert ops[1..] == [ops[1]] && ops[1..][1..] == [];
    assert Run(db2, [], db2);
    assert Run(db1, ops[1..], db2);
  }

  lemma {:induction false} RunConcat(db: Db, a: seq<Op>, mid: Db, b: seq<Op>, end: Db)
    requires Run(db, a, mid) && Run(mid, b, end)
    ensures Run(db, a + b, end)
    decreases |a|
  {
    hide Step, Enabled;
    if a == [] {
      assert a + b == b;
    } else {
      assert (a + b)[1..] == a[1..] + b;
      RunConcat(Step(db, a[0]), a[1..], mid, b, end);
    }
  }

  lemma SharedRowsCollide(db: Db, owner: nat, list: nat, a: nat, b: nat)
    requires IsRow(db, owner, list, a) && IsRow(db, owner, list, b) && a != b
    requires db.tasks[a].position == db.tasks[b].position
    ensures CanCollide(db, owner, list)
  {
    var mid := BroughtBack(db, a);
    var end := BroughtBack(mid, b);
    var ops := BringBack(owner, a) + BringBack(owner, b);
    BringBackRuns(db, owner, a);
    BringBackRuns(mid, owner, b);
    hide Run;
    RunConcat(db, BringBack(owner, a), mid, BringBack(owner, b), end);
    assert a in ActiveIds(end, owner, list) && b in ActiveIds(end, owner, list);
    assert Collides(end, owner, list, a);
    hide Collides;
    assert RunWithoutReorder(db, ops, end, list);
  }

  /** Two active tasks come to share a position without another reorder if and only if two
      rows of the list, hidden or not, share one already. */
  lemma CollisionsAhead(db: Db, owner: nat, list: nat)
    requires Sound(db)
    ensures CanCollide(db, owner, list) <==> !PlacesApart(db, owner, list)
  {
    if PlacesApart(db, owner, list) {
      hide Sound, PlacesApart, CarefulRun, RunWithoutReorder, SomeCollide;
      forall ops, end | RunWithoutReorder(db, ops, end, list) ensures !SomeCollide(end, owner, list) {
        WithoutReorderIsCareful(db, ops, end, owner, list);
        CarefulRunsKeepApart(db, ops, end, owner, list);
      }
    } else {
      hide Sound, CanCollide;
      var a, b :| IsRow(db, owner, list, a) && IsRow(db, owner, list, b) && a != b
                  && db.tasks[a].position == db.tasks[b].position;
      SharedRowsCollide(db, owner, list, a, b);
    }
  }
}
