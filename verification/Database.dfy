/** tasks.service.ts and lists.service.ts over the tables they change. A transaction that
    throws has written nothing. */
module Database {
  import opened Wrappers
  import opened Numbers
  import opened Ordering
  import opened Schema
  import opened Store
  import opened StoreInvariants
  import T = TaskOrder
  import L = ListOrder

  // ---------- what the operations give their callers ----------

  lemma CreateTaskGives(
    db: Db, owner: nat, list: nat, id: nat, title: string, dueAt: Option<int>, priority: Priority)
    requires Sound(db) && id !in db.used
    ensures var (db', reply) := TaskCreated(db, owner, list, id, title, dueAt, priority);
            && Sound(db') && (reply == Done <==> OwnsList(db, owner, list))
            && (reply == Done ==>
                  id in db'.tasks && T.ActiveView(db', owner, list) == T.ActiveView(db, owner, list) + [db'.tasks[id]])
  {
    NewTaskId(db, id);
    hide Sound;
    StepKeepsSound(db, CreateTask(owner, list, id, title, dueAt, priority));
    if OwnsList(db, owner, list) { T.CreatedIsLast(db, owner, list, id, title, dueAt, priority); }
  }

  lemma NewTaskId(db: Db, id: nat)
    requires Sound(db) && id !in db.used
    ensures id !in db.tasks
  {}

  /** An edit leaves every section as it is. */
  lemma EditGives(db: Db, owner: nat, id: nat, patch: Patch)
    requires Sound(db)
    ensures var (db', reply) := TaskEdited(db, owner, id, patch);
            Sound(db') && forall o, l :: ActiveIds(db', o, l) == ActiveIds(db, o, l)
  {
    hide Sound;
    StepKeepsSound(db, EditTask(owner, id, patch));
    var db' := TaskEdited(db, owner, id, patch).0;
    forall o, l ensures ActiveIds(db', o, l) == ActiveIds(db, o, l) {
      assert forall x | x in db.tasks :: IsActive(db'.tasks[x]) == IsActive(db.tasks[x]);
    }
  }

  lemma ReorderTasksGives(db: Db, owner: nat, list: nat, ids: seq<nat>)
    requires Sound(db)
    ensures var (db', reply) := TasksReordered(db, owner, list, ids);
            && Sound(db')
            && (reply == Done <==> OwnsList(db, owner, list) && IsOrderOf(ids, ActiveIds(db, owner, list)))
            && (reply == Done ==>
                  && T.Ids(T.ActiveView(db', owner, list)) == ids
                  && db'.tasks.Keys == db.tasks.Keys
                  && (forall i | 0 <= i < |ids| ::
                        ids[i] in db.tasks
                        && db'.tasks[ids[i]] == db.tasks[ids[i]].(position := i, updatedAt := db.now))
                  && (forall id | id in db.tasks && id !in ids :: db'.tasks[id] == db.tasks[id]))
  {
    hide Sound, IsOrderOf, OrderChecks, T.ActiveView, T.Ids, T.OnlyMoved, ActiveIds;
    StepKeepsSound(db, ReorderTasks(owner, list, ids));
    if OwnsList(db, owner, list) {
      T.ReorderExact(db, owner, list, ids);
      hide TasksReordered;
    }
  }

  lemma CreateListGives(db: Db, owner: nat, id: nat, name: string)
    requires Sound(db) && id !in db.used
    ensures var (db', reply) := ListCreated(db, owner, id, name);
            && Sound(db') && (reply == Done <==> owner in db.users)
            && (reply == Done ==> id in db'.lists && L.ListView(db', owner) == L.ListView(db, owner) + [db'.lists[id]])
  {
    hide PositionsApart, TasksSound, L.ListView;
    StepKeepsSound(db, CreateList(owner, id, name));
    if owner in db.users { L.CreatedIsLast(db, owner, id, name); }
  }

  lemma DeleteListGives(db: Db, owner: nat, id: nat)
    requires Sound(db)
    ensures var (db', reply) := ListDeleted(db, owner, id);
            && Sound(db') && (reply.Count? <==> OwnsList(db, owner, id) && !db.lists[id].isDefault)
            && (reply.Count? ==> reply.n == |db.tasks| - |db'.tasks| && TasksIn(db', id) == {})
  {
    hide Sound;
    StepKeepsSound(db, DeleteList(owner, id));
    L.DeleteExact(db, owner, id);
  }

  lemma ReorderListsGives(db: Db, owner: nat, ids: seq<nat>)
    requires Sound(db)
    ensures var (db', reply) := ListsReordered(db, owner, ids);
            && Sound(db') && (reply == Done <==> IsOrderOf(ids, OwnedLists(db, owner)))
            && (reply == Done ==>
                  && L.Ids(L.ListView(db', owner)) == ids
                  && db'.lists.Keys == db.lists.Keys
                  && (forall i | 0 <= i < |ids| ::
                        ids[i] in db.lists
                        && db'.lists[ids[i]] == db.lists[ids[i]].(position := i, updatedAt := db.now))
                  && (forall id | id in db.lists && id !in ids :: db'.lists[id] == db.lists[id]))
  {
    hide PositionsApart, TasksSound, IsOrderOf, OrderChecks, L.ListView, L.Ids, L.OnlyMoved, OwnedLists, ListsReordered;
    StepKeepsSound(db, ReorderLists(owner, ids));
    L.ReorderExact(db, owner, ids);
  }

  // ---------- the operations ----------

  class Database {
    var now: int
    var users: set<nat>
    var lists: ListTable
    var tasks: TaskTable
    var used: set<nat>

    ghost function View(): Db
      reads this
    {
      Db(now, users, lists, tasks, used)
    }

    /** Every task's list is there and its owner's; every account has one default list and
        no two of its lists share a position. */
    ghost predicate Valid()
      reads this
    {
      Sound(View())
    }

    constructor ()
      ensures View() == Empty && Valid()
    {
      now, users, lists, tasks, used := 0, {}, map[], map[], {};
      new;
      EmptySound();
    }

    /** A uuid nobody has had. */
    method FreshId() returns (id: nat)
      ensures id !in used
    {
      var positions := set x: nat | x in used :: x as int;
      id := Appended(positions);
      assert id in used ==> id as int in positions;
    }

    // ---------- tasks ----------

    method CreateTask(owner: nat, list: nat, title: string, dueAt: Option<int>, priority: Priority)
      returns (id: nat, reply: Reply)
      requires Valid()
      modifies this`tasks, this`used
      ensures id !in old(used)
      ensures (View(), reply) == TaskCreated(old(View()), owner, list, id, title, dueAt, priority)
      ensures Valid() && (reply == Done <==> list in lists && lists[list].owner == owner)
      ensures reply != Done ==> reply == ListNotFound && tasks == old(tasks)
      ensures reply == Done ==>
                && id in tasks && used == old(used) + {id}
                && var at := tasks[id].position;
                   && tasks == old(tasks)[id := Task(id, owner, list, title, None, None, now, now, dueAt, priority, at)]
                   && forall t | t in old(tasks) && old(tasks)[t].owner == owner && old(tasks)[t].list == list ::
                        old(tasks)[t].position < at
      ensures reply == Done ==>
                && id in tasks
                && T.ActiveView(View(), owner, list) == old(T.ActiveView(View(), owner, list)) + [tasks[id]]
    {
      id := FreshId();
      hide Sound, T.ActiveView;
      CreateTaskGives(View(), owner, list, id, title, dueAt, priority);
      if !(list in lists && lists[list].owner == owner) { return id, ListNotFound; }
      var positions := set t | t in tasks && InList(tasks[t], owner, list) :: tasks[t].position;
      assert forall t | t in tasks && InList(tasks[t], owner, list) :: tasks[t].position in positions;
      var row := Task(id, owner, list, title, None, None, now, now, dueAt, priority, Appended(positions));
      tasks := tasks[id := row];
      used := used + {id};
      reply := Done;
    }

    /** Only the fields that were sent are written; a due date sent as null is cleared. */
    method UpdateTask(
      owner: nat, id: nat, title: Option<string>, dueAt: Option<Option<int>>, priority: Option<Priority>)
      returns (reply: Reply)
      requires Valid()
      modifies this`tasks
      ensures (View(), reply) == TaskEdited(old(View()), owner, id, Patch(title, dueAt, priority))
      ensures Valid() && forall o, l :: ActiveIds(View(), o, l) == old(ActiveIds(View(), o, l))
      ensures reply ==
                if title == None && dueAt == None && priority == None then NothingToUpdate
                else if id in old(tasks) && old(tasks)[id].owner == owner && old(tasks)[id].deletedAt == None then Done
                else TaskNotFound
      ensures reply != Done ==> tasks == old(tasks)
      ensures reply == Done ==>
                && id in tasks && tasks == old(tasks)[id := tasks[id]]
                && var was, row := old(tasks)[id], tasks[id];
                   && row == was.(title := row.title, dueAt := row.dueAt, priority := row.priority, updatedAt := now)
                   && row.title == (match title case None => was.title case Some(x) => x)
                   && row.priority == (match priority case None => was.priority case Some(x) => x)
                   && row.dueAt ==
                        (match dueAt case None => was.dueAt case Some(None) => None case Some(Some(x)) => Some(x))
    {
      hide Sound, ActiveIds;
      EditGives(View(), owner, id, Patch(title, dueAt, priority));
      var toApply := Patch(None, None, None);
      if title.Some? { toApply := toApply.(title := title); }
      if dueAt.Some? { toApply := toApply.(dueAt := dueAt); }
      if priority.Some? { toApply := toApply.(priority := priority); }
      if toApply == Patch(None, None, None) { return NothingToUpdate; }
      if !(id in tasks && tasks[id].owner == owner && tasks[id].deletedAt == None) { return TaskNotFound; }
      var row := tasks[id];
      if toApply.title.Some? { row := row.(title := toApply.title.value); }
      if toApply.dueAt.Some? { row := row.(dueAt := toApply.dueAt.value); }
      if toApply.priority.Some? { row := row.(priority := toApply.priority.value); }
      tasks := tasks[id := row.(updatedAt := now)];
      reply := Done;
    }

    /** Completing keeps the instant of the first completion. */
    method SetCompletion(owner: nat, id: nat, completed: bool) returns (reply: Reply)
      requires Valid()
      modifies this`tasks
      ensures (View(), reply) == CompletionSet(old(View()), owner, id, completed)
      ensures Valid()
      ensures reply ==
                if id in old(tasks) && old(tasks)[id].owner == owner && old(tasks)[id].deletedAt == None then Done
                else TaskNotFound
      ensures reply != Done ==> tasks == old(tasks)
      ensures reply == Done ==>
                var was := old(tasks)[id];
                var at := if !completed then None else if was.completedAt.Some? then was.completedAt else Some(now);
                tasks == old(tasks)[id := was.(completedAt := at, updatedAt := now)]
      ensures reply == Done ==> id in tasks && (id in ActiveIds(View(), owner, tasks[id].list) <==> !completed)
    {
      hide Sound;
      StepKeepsSound(View(), Op.SetCompletion(owner, id, completed));
      if !(id in tasks && tasks[id].owner == owner && tasks[id].deletedAt == None) { return TaskNotFound; }
      var at := None;
      if completed { at := if tasks[id].completedAt.Some? then tasks[id].completedAt else Some(now); }
      tasks := tasks[id := tasks[id].(completedAt := at, updatedAt := now)];
      reply := Done;
    }

    /** Deleting keeps the instant of the first deletion; restoring clears it. */
    method SetDeletion(owner: nat, id: nat, deleted: bool) returns (reply: Reply)
      requires Valid()
      modifies this`tasks
      ensures (View(), reply) == DeletionSet(old(View()), owner, id, deleted)
      ensures Valid()
      ensures reply == if id in old(tasks) && old(tasks)[id].owner == owner then Done else TaskNotFound
      ensures reply != Done ==> tasks == old(tasks)
      ensures reply == Done ==>
                var was := old(tasks)[id];
                var at := if !deleted then None else if was.deletedAt.Some? then was.deletedAt else Some(now);
                tasks == old(tasks)[id := was.(deletedAt := at, updatedAt := now)]
      ensures reply == Done ==> id in tasks && (tasks[id].deletedAt.Some? <==> deleted)
    {
      hide Sound;
      StepKeepsSound(View(), Op.SetDeletion(owner, id, deleted));
      if !(id in tasks && tasks[id].owner == owner) { return TaskNotFound; }
      var at := None;
      if deleted { at := if tasks[id].deletedAt.Some? then tasks[id].deletedAt else Some(now); }
      tasks := tasks[id := tasks[id].(deletedAt := at, updatedAt := now)];
      reply := Done;
    }

    method ReorderTasks(owner: nat, list: nat, taskIds: seq<nat>) returns (reply: Reply)
      requires Valid()
      modifies this`tasks
      ensures (View(), reply) == TasksReordered(old(View()), owner, list, taskIds)
      ensures Valid()
      ensures reply == Done <==>
                OwnsList(old(View()), owner, list) && IsOrderOf(taskIds, ActiveIds(old(View()), owner, list))
      ensures reply == Done ==> T.Ids(T.ActiveView(View(), owner, list)) == taskIds
      ensures tasks.Keys == old(tasks).Keys && (reply != Done ==> tasks == old(tasks))
      ensures reply == Done ==>
                && (forall i | 0 <= i < |taskIds| ::
                      taskIds[i] in tasks
                      && tasks[taskIds[i]] == old(tasks)[taskIds[i]].(position := i, updatedAt := now))
                && (forall id | id in tasks && id !in taskIds :: tasks[id] == old(tasks)[id])
    {
      hide Sound, IsOrderOf, T.ActiveView, T.Ids;
      ReorderTasksGives(View(), owner, list, taskIds);
      if !(list in lists && lists[list].owner == owner) { return ListNotFound; }
      var submitted := IdSet(taskIds);
      if |submitted| != |taskIds| { return OrderInvalid; }
      var active := set id | id in tasks && InList(tasks[id], owner, list) && IsActive(tasks[id]);
      assert active == ActiveIds(View(), owner, list);
      var sameSet := |active| == |taskIds| && forall id | id in taskIds :: id in active;
      if !sameSet { return OrderInvalid; }
      tasks := map id | id in tasks ::
        if id in taskIds && InList(tasks[id], owner, list)
        then tasks[id].(position := IndexOf(taskIds, id), updatedAt := now)
        else tasks[id];
      reply := Done;
    }

    // ---------- lists ----------

    method CreateList(owner: nat, name: string) returns (id: nat, reply: Reply)
      requires Valid()
      modifies this`lists, this`used
      ensures id !in old(used)
      ensures (View(), reply) == ListCreated(old(View()), owner, id, name)
      ensures Valid() && (reply == Done <==> owner in users)
      ensures reply != Done ==> reply == ListNotFound && lists == old(lists)
      ensures reply == Done ==>
                && id in lists && used == old(used) + {id}
                && var at := lists[id].position;
                   && lists == old(lists)[id := TaskList(id, owner, name, false, at, now, now)]
                   && forall l | l in old(lists) && old(lists)[l].owner == owner :: old(lists)[l].position < at
      ensures reply == Done ==> id in lists && L.ListView(View(), owner) == old(L.ListView(View(), owner)) + [lists[id]]
    {
      id := FreshId();
      hide PositionsApart, TasksSound, OneDefault, L.ListView;
      CreateListGives(View(), owner, id, name);
      if owner !in users { return id, ListNotFound; }
      var positions := set l | l in lists && lists[l].owner == owner :: lists[l].position;
      assert forall l | l in lists && lists[l].owner == owner :: lists[l].position in positions;
      lists := lists[id := TaskList(id, owner, name, false, Appended(positions), now, now)];
      used := used + {id};
      reply := Done;
    }

    method RenameList(owner: nat, id: nat, name: string) returns (reply: Reply)
      requires Valid()
      modifies this`lists
      ensures (View(), reply) == ListRenamed(old(View()), owner, id, name)
      ensures Valid()
      ensures reply == if id in old(lists) && old(lists)[id].owner == owner then Done else ListNotFound
      ensures lists ==
                if reply == Done then old(lists)[id := old(lists)[id].(name := name, updatedAt := now)] else old(lists)
    {
      hide Sound;
      StepKeepsSound(View(), Op.RenameList(owner, id, name));
      if !(id in lists && lists[id].owner == owner) { return ListNotFound; }
      lists := lists[id := lists[id].(name := name, updatedAt := now)];
      reply := Done;
    }

    /** Count, then delete and cascade, in one transaction. */
    method DeleteList(owner: nat, id: nat) returns (reply: Reply)
      requires Valid()
      modifies this`lists, this`tasks
      ensures (View(), reply) == ListDeleted(old(View()), owner, id)
      ensures Valid() && (reply.Count? <==> OwnsList(old(View()), owner, id) && !old(lists)[id].isDefault)
      ensures reply.Count? ==> reply.n == |old(tasks)| - |tasks| && TasksIn(View(), id) == {}
      ensures reply.Count? ==>
                && lists == old(lists) - {id}
                && (forall t :: t in tasks <==> t in old(tasks) && old(tasks)[t].list != id)
                && (forall t | t in tasks :: tasks[t] == old(tasks)[t])
      ensures !reply.Count? ==>
                && lists == old(lists) && tasks == old(tasks)
                && reply == if id in lists && lists[id].owner == owner then ListNotDeletable else ListNotFound
    {
      hide Sound;
      DeleteListGives(View(), owner, id);
      if !(id in lists && lists[id].owner == owner) { return ListNotFound; }
      if lists[id].isDefault { return ListNotDeletable; }
      var contained := set t | t in tasks && tasks[t].list == id;
      assert contained == TasksIn(View(), id);
      var deletedTaskCount := |contained|;
      lists := lists - {id};
      tasks := tasks - contained;
      reply := Count(deletedTaskCount);
    }

    method ReorderLists(owner: nat, listIds: seq<nat>) returns (reply: Reply)
      requires Valid()
      modifies this`lists
      ensures (View(), reply) == ListsReordered(old(View()), owner, listIds)
      ensures Valid() && (reply == Done <==> IsOrderOf(listIds, OwnedLists(old(View()), owner)))
      ensures reply == Done ==> L.Ids(L.ListView(View(), owner)) == listIds
      ensures lists.Keys == old(lists).Keys && (reply != Done ==> reply == OrderInvalid && lists == old(lists))
      ensures reply == Done ==>
                && (forall i | 0 <= i < |listIds| ::
                      listIds[i] in lists
                      && lists[listIds[i]] == old(lists)[listIds[i]].(position := i, updatedAt := now))
                && (forall id | id in lists && id !in listIds :: lists[id] == old(lists)[id])
    {
      hide PositionsApart, TasksSound, OneDefault, IsOrderOf, L.ListView, L.Ids;
      ReorderListsGives(View(), owner, listIds);
      var submitted := IdSet(listIds);
      if |submitted| != |listIds| { return OrderInvalid; }
      var owned := set id | id in lists && lists[id].owner == owner;
      assert owned == OwnedLists(View(), owner);
      var sameSet := |owned| == |submitted| && forall id | id in owned :: id in submitted;
      SameSetBothWays(owned, submitted, listIds);
      if !sameSet { return OrderInvalid; }
      lists := map id | id in lists ::
        if id in listIds && lists[id].owner == owner
        then lists[id].(position := IndexOf(listIds, id), updatedAt := now)
        else lists[id];
      reply := Done;
    }
  }

  /** The two services check inclusion in opposite directions; with equal sizes that is
      the same. */
  lemma SameSetBothWays(owned: set<nat>, submitted: set<nat>, ids: seq<nat>)
    requires submitted == IdSet(ids)
    ensures |owned| == |submitted| ==>
              ((forall id | id in owned :: id in submitted) <==> (forall id | id in ids :: id in owned))
  {
    if |owned| == |submitted| {
      if forall id | id in owned :: id in submitted {
        SubsetSize(owned, submitted);
      }
      if forall id | id in ids :: id in owned {
        SubsetSize(submitted, owned);
      }
    }
  }
}
