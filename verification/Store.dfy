/** The `users`, `lists` and `tasks` tables and what every operation of the tasks, lists
    and account modules, and the worker's purge, does to them. */
module Store {
  import opened Wrappers
  import opened Numbers
  import opened Ordering
  import opened Schema

  /** `used` holds every id ever given out: uuids are never given out twice. */
  datatype Db = Db(now: int, users: set<nat>, lists: ListTable, tasks: TaskTable, used: set<nat>)

  const Empty := Db(0, {}, map[], map[], {})

  /** The fields an edit sends; an absent one is left alone, and an absent due date is
      not the same as a cleared one. */
  datatype Patch = Patch(title: Option<string>, dueAt: Option<Option<int>>, priority: Option<Priority>)

  datatype Op =
    | Tick(d: nat)
    | Register(user: nat, inbox: nat)
    | DeleteAccount(user: nat)
    | CreateList(owner: nat, id: nat, name: string)
    | RenameList(owner: nat, id: nat, name: string)
    | DeleteList(owner: nat, id: nat)
    | ReorderLists(owner: nat, ids: seq<nat>)
    | CreateTask(owner: nat, list: nat, id: nat, title: string, dueAt: Option<int>, priority: Priority)
    | EditTask(owner: nat, id: nat, patch: Patch)
    | SetCompletion(owner: nat, id: nat, completed: bool)
    | SetDeletion(owner: nat, id: nat, deleted: bool)
    | ReorderTasks(owner: nat, list: nat, ids: seq<nat>)
    | PurgeBatch(retention: nat, gone: set<nat>)

  datatype Reply =
    Done | Count(n: nat) | ListNotFound | ListNotDeletable | TaskNotFound | OrderInvalid | NothingToUpdate

  // ---------- reading ----------

  predicate OwnsList(db: Db, owner: nat, id: nat) {
    id in db.lists && db.lists[id].owner == owner
  }

  predicate OwnsTask(db: Db, owner: nat, id: nat) {
    id in db.tasks && db.tasks[id].owner == owner
  }

  predicate InList(t: Task, owner: nat, list: nat) { t.owner == owner && t.list == list }

  predicate IsActive(t: Task) { t.completedAt == None && t.deletedAt == None }

  /** `findActiveIdsByList`. */
  function ActiveIds(db: Db, owner: nat, list: nat): set<nat> {
    set id | id in db.tasks && InList(db.tasks[id], owner, list) && IsActive(db.tasks[id])
  }

  function OwnedLists(db: Db, owner: nat): set<nat> {
    set id | id in db.lists && db.lists[id].owner == owner
  }

  /** Every task of the list, in whatever state: they all go when it goes. */
  function TasksIn(db: Db, list: nat): set<nat> {
    set id | id in db.tasks && db.tasks[id].list == list
  }

  // ---------- writing ----------

  predicate IsGreatest(s: set<int>, m: int) {
    m in s && forall x | x in s :: x <= m
  }

  lemma HasGreatest(s: set<int>)
    requires s != {}
    ensures exists m :: m in s && IsGreatest(s, m)
  {
    var more := (a: int, b: int) => a > b;
    var m := FindLeast(more, s);
    assert IsGreatest(s, m);
  }

  function Greatest(s: set<int>): (m: int)
    requires s != {}
    ensures IsGreatest(s, m)
  {
    HasGreatest(s);
    var m :| m in s && IsGreatest(s, m);
    m
  }

  /** `COALESCE(MAX(position) + 1, 0)`. */
  function Appended(positions: set<int>): (p: int)
    ensures forall x | x in positions :: x < p
    ensures positions == {} ==> p == 0
    ensures positions != {} ==> p - 1 in positions
  {
    if positions == {} then 0 else Greatest(positions) + 1
  }

  /** Active, completed and deleted rows alike. */
  function TaskPositions(db: Db, owner: nat, list: nat): set<int> {
    set id | id in db.tasks && InList(db.tasks[id], owner, list) :: db.tasks[id].position
  }

  function ListPositions(db: Db, owner: nat): set<int> {
    set id | id in db.lists && db.lists[id].owner == owner :: db.lists[id].position
  }

  function IndexOf(ids: seq<nat>, id: nat): (i: nat)
    requires id in ids
    ensures i < |ids| && ids[i] == id && id !in ids[..i]
  {
    if ids[0] == id then 0
    else
      assert ids == [ids[0]] + ids[1..];
      var i := IndexOf(ids[1..], id);
      assert ids[..i + 1] == [ids[0]] + ids[1..][..i];
      i + 1
  }

  /** Dense positions 0..n-1 in the submitted order, for the rows of this list only. */
  function TaskPositionsSet(db: Db, owner: nat, list: nat, ids: seq<nat>): TaskTable {
    map id | id in db.tasks ::
      if id in ids && InList(db.tasks[id], owner, list)
      then db.tasks[id].(position := IndexOf(ids, id), updatedAt := db.now)
      else db.tasks[id]
  }

  function ListPositionsSet(db: Db, owner: nat, ids: seq<nat>): ListTable {
    map id | id in db.lists ::
      if id in ids && db.lists[id].owner == owner
      then db.lists[id].(position := IndexOf(ids, id), updatedAt := db.now)
      else db.lists[id]
  }

  /** What a submitted order must be: the set, each id once. */
  ghost predicate IsOrderOf(ids: seq<nat>, s: set<nat>) {
    Distinct(ids) && Elements(ids) == s
  }

  /** The check as the service makes it: no duplicates, the right number, all known. */
  predicate OrderChecks(ids: seq<nat>, s: set<nat>) {
    |IdSet(ids)| == |ids| && |s| == |ids| && forall id | id in ids :: id in s
  }

  /** `new Set(ids)`. */
  function IdSet(ids: seq<nat>): set<nat> {
    set id | id in ids
  }

  function Patched(t: Task, patch: Patch): Task {
    t.(title := if patch.title.Some? then patch.title.value else t.title,
       dueAt := if patch.dueAt.Some? then patch.dueAt.value else t.dueAt,
       priority := if patch.priority.Some? then patch.priority.value else t.priority)
  }

  /** `COALESCE(completed_at, now())`, or NULL. */
  function Stamped(stored: Option<int>, on: bool, now: int): Option<int> {
    if !on then None else if stored.Some? then stored else Some(now)
  }

  predicate Expired(t: Task, retention: nat, now: int) {
    t.deletedAt.Some? && t.deletedAt.value < now - retention
  }

  /** Ids given out are new; a purge batch holds only expired rows, any of them. */
  predicate Enabled(db: Db, op: Op) {
    match op
    case Register(user, inbox) => user !in db.used && inbox !in db.used && user != inbox
    case CreateList(_, id, _) => id !in db.used
    case CreateTask(_, _, id, _, _, _) => id !in db.used
    case PurgeBatch(retention, gone) =>
      forall id | id in gone :: id in db.tasks && Expired(db.tasks[id], retention, db.now)
    case _ => true
  }

  function Registered(db: Db, user: nat, inbox: nat): Db {
    db.(users := db.users + {user},
        lists := db.lists[inbox := TaskList(inbox, user, "Inbox", true, 0, db.now, db.now)],
        used := db.used + {user, inbox})
  }

  /** Foreign keys cascade from users to lists and tasks, and from lists to tasks. */
  function AccountDeleted(db: Db, user: nat): Db {
    db.(users := db.users - {user},
        lists := map id | id in db.lists && db.lists[id].owner != user :: db.lists[id],
        tasks := map id | id in db.tasks && db.tasks[id].owner != user && !OwnsList(db, user, db.tasks[id].list)
                   :: db.tasks[id])
  }

  function ListCreated(db: Db, owner: nat, id: nat, name: string): (Db, Reply) {
    if owner !in db.users then (db, ListNotFound)
    else
      var position := Appended(ListPositions(db, owner));
      (db.(lists := db.lists[id := TaskList(id, owner, name, false, position, db.now, db.now)],
           used := db.used + {id}),
       Done)
  }

  function ListRenamed(db: Db, owner: nat, id: nat, name: string): (Db, Reply) {
    if !OwnsList(db, owner, id) then (db, ListNotFound)
    else (db.(lists := db.lists[id := db.lists[id].(name := name, updatedAt := db.now)]), Done)
  }

  function ListDeleted(db: Db, owner: nat, id: nat): (Db, Reply) {
    if !OwnsList(db, owner, id) then (db, ListNotFound)
    else if db.lists[id].isDefault then (db, ListNotDeletable)
    else (db.(lists := db.lists - {id}, tasks := db.tasks - TasksIn(db, id)), Count(|TasksIn(db, id)|))
  }

  function ListsReordered(db: Db, owner: nat, ids: seq<nat>): (Db, Reply) {
    if !OrderChecks(ids, OwnedLists(db, owner)) then (db, OrderInvalid)
    else (db.(lists := ListPositionsSet(db, owner, ids)), Done)
  }

  function TaskCreated(
    db: Db, owner: nat, list: nat, id: nat, title: string, dueAt: Option<int>, priority: Priority): (Db, Reply)
  {
    if !OwnsList(db, owner, list) then (db, ListNotFound)
    else
      var position := Appended(TaskPositions(db, owner, list));
      (db.(tasks := db.tasks[id := Task(id, owner, list, title, None, None, db.now, db.now, dueAt, priority, position)],
           used := db.used + {id}),
       Done)
  }

  /** `UPDATE tasks SET ... WHERE owner_id = ... AND id = ...`. */
  function TaskSet(db: Db, t: Task): Db {
    db.(tasks := db.tasks[t.id := t.(updatedAt := db.now)])
  }

  function TaskEdited(db: Db, owner: nat, id: nat, patch: Patch): (Db, Reply) {
    if patch == Patch(None, None, None) then (db, NothingToUpdate)
    else if !OwnsTask(db, owner, id) || db.tasks[id].deletedAt.Some? then (db, TaskNotFound)
    else (TaskSet(db, Patched(db.tasks[id], patch)), Done)
  }

  function CompletionSet(db: Db, owner: nat, id: nat, completed: bool): (Db, Reply) {
    if !OwnsTask(db, owner, id) || db.tasks[id].deletedAt.Some? then (db, TaskNotFound)
    else (TaskSet(db, db.tasks[id].(completedAt := Stamped(db.tasks[id].completedAt, completed, db.now))), Done)
  }

  /** The one statement that also reaches deleted rows. */
  function DeletionSet(db: Db, owner: nat, id: nat, deleted: bool): (Db, Reply) {
    if !OwnsTask(db, owner, id) then (db, TaskNotFound)
    else (TaskSet(db, db.tasks[id].(deletedAt := Stamped(db.tasks[id].deletedAt, deleted, db.now))), Done)
  }

  function TasksReordered(db: Db, owner: nat, list: nat, ids: seq<nat>): (Db, Reply) {
    if !OwnsList(db, owner, list) then (db, ListNotFound)
    else if !OrderChecks(ids, ActiveIds(db, owner, list)) then (db, OrderInvalid)
    else (db.(tasks := TaskPositionsSet(db, owner, list, ids)), Done)
  }

  function Apply(db: Db, op: Op): (Db, Reply)
    requires Enabled(db, op)
  {
    match op
    case Tick(d) => (db.(now := db.now + d), Done)
    case Register(user, inbox) => (Registered(db, user, inbox), Done)
    case DeleteAccount(user) => (AccountDeleted(db, user), Done)
    case CreateList(owner, id, name) => ListCreated(db, owner, id, name)
    case RenameList(owner, id, name) => ListRenamed(db, owner, id, name)
    case DeleteList(owner, id) => ListDeleted(db, owner, id)
    case ReorderLists(owner, ids) => ListsReordered(db, owner, ids)
    case CreateTask(owner, list, id, title, dueAt, priority) => TaskCreated(db, owner, list, id, title, dueAt, priority)
    case EditTask(owner, id, patch) => TaskEdited(db, owner, id, patch)
    case SetCompletion(owner, id, completed) => CompletionSet(db, owner, id, completed)
    case SetDeletion(owner, id, deleted) => DeletionSet(db, owner, id, deleted)
    case ReorderTasks(owner, list, ids) => TasksReordered(db, owner, list, ids)
    case PurgeBatch(_, gone) => (db.(tasks := db.tasks - gone), Count(|gone|))
  }

  function Step(db: Db, op: Op): Db
    requires Enabled(db, op)
  {
    Apply(db, op).0
  }

  ghost predicate Run(db: Db, ops: seq<Op>, end: Db)
    decreases |ops|
  {
    if ops == [] then db == end
    else Enabled(db, ops[0]) && Run(Step(db, ops[0]), ops[1..], end)
  }

  /** The service's check accepts exactly the orderings of the set. */
  lemma OrderChecksIff(ids: seq<nat>, s: set<nat>)
    ensures OrderChecks(ids, s) <==> IsOrderOf(ids, s)
  {
    DistinctSize(ids);
    assert IdSet(ids) == Elements(ids);
    if OrderChecks(ids, s) {
      SubsetSize(IdSet(ids), s);
    }
    assert forall id | id in ids :: id in Elements(ids);
  }
}
