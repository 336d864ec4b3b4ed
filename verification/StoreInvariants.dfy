/** What every serial run of the operations keeps. */
module StoreInvariants {
  import opened Wrappers
  import opened Ordering
  import opened Schema
  import opened Store

  predicate IsDefault(db: Db, user: nat, id: nat) {
    OwnsList(db, user, id) && db.lists[id].isDefault
  }

  /** The account has a default list and no other. */
  ghost predicate OneDefault(db: Db, user: nat) {
    exists d :: IsSoleDefault(db, user, d)
  }

  ghost predicate IsSoleDefault(db: Db, user: nat, d: nat) {
    IsDefault(db, user, d) && forall id :: IsDefault(db, user, id) ==> id == d
  }

  ghost predicate PositionsApart(db: Db) {
    forall a, b | a in db.lists && b in db.lists && a != b && db.lists[a].owner == db.lists[b].owner ::
      db.lists[a].position != db.lists[b].position
  }

  ghost predicate ListsSound(db: Db) {
    && (forall id | id in db.lists :: id in db.used && db.lists[id].owner in db.users)
    && (forall u | u in db.users :: u in db.used && OneDefault(db, u))
    && PositionsApart(db)
  }

  /** Each task's list exists, and belongs to the task's owner. */
  ghost predicate TasksSound(db: Db) {
    forall id | id in db.tasks :: id in db.used && OwnsList(db, db.tasks[id].owner, db.tasks[id].list)
  }

  ghost predicate Sound(db: Db) {
    ListsSound(db) && TasksSound(db)
  }

  lemma EmptySound()
    ensures Sound(Empty)
  {}

  // ---------- the lists ----------

  /** The default list stays what it was wherever its row is kept as a row of its owner
      with the same mark. */
  lemma DefaultKept(db: Db, db': Db, user: nat)
    requires OneDefault(db, user)
    requires forall id :: IsDefault(db, user, id) <==> IsDefault(db', user, id)
    ensures OneDefault(db', user)
  {
    var d :| IsSoleDefault(db, user, d);
    assert IsSoleDefault(db', user, d);
  }

  lemma FreshIds(db: Db, id: nat)
    requires ListsSound(db) && id !in db.used
    ensures id !in db.lists && id !in db.users
    ensures forall l | l in db.lists :: db.lists[l].owner != id
  {}

  lemma RegisteredApart(db: Db, user: nat, inbox: nat)
    requires PositionsApart(db) && inbox !in db.lists
    requires forall l | l in db.lists :: db.lists[l].owner != user
    ensures PositionsApart(Registered(db, user, inbox))
  {}

  lemma RegisterKeepsLists(db: Db, user: nat, inbox: nat)
    requires ListsSound(db) && Enabled(db, Register(user, inbox))
    ensures ListsSound(Registered(db, user, inbox))
  {
    var db' := Registered(db, user, inbox);
    FreshIds(db, user);
    FreshIds(db, inbox);
    RegisteredApart(db, user, inbox);
    hide PositionsApart, Enabled;
    InboxIsDefault(db, user, inbox);
    OthersKeepDefaults(db, user, inbox);
    hide OneDefault, IsDefault;
    forall u | u in db'.users && u != user ensures OneDefault(db', u) { DefaultKept(db, db', u); }
  }

  /** The inbox is the new account's default list, and no other account's. */
  lemma InboxIsDefault(db: Db, user: nat, inbox: nat)
    requires inbox !in db.lists && forall l | l in db.lists :: db.lists[l].owner != user
    ensures OneDefault(Registered(db, user, inbox), user)
  {
    var db' := Registered(db, user, inbox);
    assert db'.lists[inbox].isDefault && OwnsList(db', user, inbox);
    forall id | IsDefault(db', user, id) ensures id == inbox {
      assert id in db'.lists;
    }
    assert IsSoleDefault(db', user, inbox);
  }

  lemma OthersKeepDefaults(db: Db, user: nat, inbox: nat)
    requires inbox !in db.lists
    ensures forall u, id | u != user :: IsDefault(db, u, id) <==> IsDefault(Registered(db, user, inbox), u, id)
  {}

  lemma DeleteAccountKeepsLists(db: Db, user: nat)
    requires ListsSound(db)
    ensures ListsSound(AccountDeleted(db, user))
  {
    var db' := AccountDeleted(db, user);
    forall u | u in db'.users ensures OneDefault(db', u) { DefaultKept(db, db', u); }
  }

  lemma CreateListKeepsLists(db: Db, owner: nat, id: nat, name: string)
    requires ListsSound(db) && id !in db.used
    ensures ListsSound(ListCreated(db, owner, id, name).0)
  {
    var db' := ListCreated(db, owner, id, name).0;
    FreshIds(db, id);
    forall u | u in db'.users ensures OneDefault(db', u) { DefaultKept(db, db', u); }
    forall l | l in db.lists && db.lists[l].owner == owner ensures db.lists[l].position in ListPositions(db, owner) {}
  }

  lemma RenameKeepsLists(db: Db, owner: nat, id: nat, name: string)
    requires ListsSound(db)
    ensures ListsSound(ListRenamed(db, owner, id, name).0)
  {
    var db' := ListRenamed(db, owner, id, name).0;
    forall u | u in db'.users ensures OneDefault(db', u) { DefaultKept(db, db', u); }
  }

  lemma DeleteKeepsLists(db: Db, owner: nat, id: nat)
    requires ListsSound(db)
    ensures ListsSound(ListDeleted(db, owner, id).0)
  {
    var db' := ListDeleted(db, owner, id).0;
    forall u | u in db'.users ensures OneDefault(db', u) { DefaultKept(db, db', u); }
  }

  lemma ReorderKeepsLists(db: Db, owner: nat, ids: seq<nat>)
    requires ListsSound(db)
    ensures ListsSound(ListsReordered(db, owner, ids).0)
  {
    var db' := ListsReordered(db, owner, ids).0;
    ReorderedApart(db, owner, ids);
    ReorderKeepsMarks(db, owner, ids);
    hide PositionsApart, OneDefault, ListsReordered;
    forall u | u in db'.users ensures OneDefault(db', u) { DefaultKept(db, db', u); }
  }

  lemma ReorderKeepsMarks(db: Db, owner: nat, ids: seq<nat>)
    ensures var db' := ListsReordered(db, owner, ids).0;
            && db'.users == db.users && db'.used == db.used && db'.lists.Keys == db.lists.Keys
            && (forall id | id in db.lists ::
                  db'.lists[id].owner == db.lists[id].owner && db'.lists[id].isDefault == db.lists[id].isDefault)
  {
    hide OrderChecks;
  }

  /** An accepted order gives every list of the owner its own place. */
  lemma ReorderedApart(db: Db, owner: nat, ids: seq<nat>)
    requires PositionsApart(db)
    ensures PositionsApart(ListsReordered(db, owner, ids).0)
  {
    OrderChecksIff(ids, OwnedLists(db, owner));
    hide OrderChecks;
    if IsOrderOf(ids, OwnedLists(db, owner)) {
      forall id | id in db.lists && db.lists[id].owner == owner ensures id in ids {
        assert id in OwnedLists(db, owner);
        assert id in Elements(ids);
      }
    }
  }

  lemma SameListsKept(db: Db, db': Db)
    requires ListsSound(db) && db'.lists == db.lists && db'.users == db.users && db.used <= db'.used
    ensures ListsSound(db')
  {
    forall u | u in db'.users ensures OneDefault(db', u) { DefaultKept(db, db', u); }
  }

  lemma StepKeepsLists(db: Db, op: Op)
    requires ListsSound(db) && Enabled(db, op)
    ensures ListsSound(Step(db, op))
  {
    hide ListsSound, Registered, AccountDeleted, ListCreated, ListRenamed, ListDeleted, ListsReordered;
    match op
    case Register(user, inbox) => RegisterKeepsLists(db, user, inbox);
    case DeleteAccount(user) => DeleteAccountKeepsLists(db, user);
    case CreateList(owner, id, name) => CreateListKeepsLists(db, owner, id, name);
    case RenameList(owner, id, name) => RenameKeepsLists(db, owner, id, name);
    case DeleteList(owner, id) => DeleteKeepsLists(db, owner, id);
    case ReorderLists(owner, ids) => ReorderKeepsLists(db, owner, ids);
    case _ => SameListsKept(db, Step(db, op));
  }

  // ---------- the tasks ----------

  /** Ownership and membership are all that counts. */
  lemma TasksCarry(db: Db, db': Db)
    requires TasksSound(db) && db.used <= db'.used
    requires forall id | id in db'.tasks ::
               id in db.tasks && db'.tasks[id].owner == db.tasks[id].owner && db'.tasks[id].list == db.tasks[id].list
    requires forall id | id in db'.tasks ::
               OwnsList(db, db.tasks[id].owner, db.tasks[id].list) ==>
                 OwnsList(db', db.tasks[id].owner, db.tasks[id].list)
    ensures TasksSound(db')
  {
    forall id | id in db'.tasks ensures id in db'.used && OwnsList(db', db'.tasks[id].owner, db'.tasks[id].list) {
      assert OwnsList(db, db.tasks[id].owner, db.tasks[id].list);
    }
  }

  lemma DeleteAccountKeepsTasks(db: Db, user: nat)
    requires TasksSound(db)
    ensures TasksSound(AccountDeleted(db, user))
  {
    hide TasksSound;
    TasksCarry(db, AccountDeleted(db, user));
  }

  lemma NewListKeepsTasks(db: Db, db': Db, id: nat)
    requires TasksSound(db) && id !in db.lists
    requires db'.tasks == db.tasks && db.used <= db'.used && id in db'.lists && db'.lists - {id} == db.lists
    ensures TasksSound(db')
  {
    hide TasksSound;
    forall l | l in db.lists ensures l in db'.lists && db'.lists[l] == db.lists[l] { assert l in db'.lists - {id}; }
    TasksCarry(db, db');
  }

  lemma ListOpKeepsTasks(db: Db, op: Op)
    requires TasksSound(db) && (op.RenameList? || op.DeleteList? || op.ReorderLists?)
    ensures TasksSound(Step(db, op))
  {
    hide TasksSound, OrderChecks;
    TasksCarry(db, Step(db, op));
  }

  lemma TaskOpKeepsTasks(db: Db, op: Op)
    requires TasksSound(db)
    requires op.EditTask? || op.SetCompletion? || op.SetDeletion? || op.ReorderTasks?
    ensures TasksSound(Step(db, op))
  {
    hide TasksSound, OrderChecks;
    TasksCarry(db, Step(db, op));
  }

  lemma CreateTaskKeepsTasks(db: Db, op: Op)
    requires TasksSound(db) && op.CreateTask? && Enabled(db, op)
    ensures TasksSound(Step(db, op))
  {}

  lemma FewerTasksKept(db: Db, db': Db, gone: set<nat>)
    requires TasksSound(db) && db'.lists == db.lists && db'.used == db.used && db'.tasks == db.tasks - gone
    ensures TasksSound(db')
  {
    hide TasksSound;
    TasksCarry(db, db');
  }

  lemma RegisterKeepsTasks(db: Db, user: nat, inbox: nat)
    requires Sound(db) && inbox !in db.used
    ensures TasksSound(Registered(db, user, inbox))
  {
    FreshIds(db, inbox);
    hide ListsSound, TasksSound;
    NewListKeepsTasks(db, Registered(db, user, inbox), inbox);
  }

  lemma CreateListKeepsTasks(db: Db, owner: nat, id: nat, name: string)
    requires Sound(db) && id !in db.used
    ensures TasksSound(ListCreated(db, owner, id, name).0)
  {
    FreshIds(db, id);
    hide ListsSound, TasksSound;
    if owner in db.users { NewListKeepsTasks(db, ListCreated(db, owner, id, name).0, id); }
  }

  lemma StepKeepsTasks(db: Db, op: Op)
    requires Sound(db) && Enabled(db, op)
    ensures TasksSound(Step(db, op))
  {
    if op.PurgeBatch? {
      hide TasksSound, ListsSound;
      FewerTasksKept(db, Step(db, op), op.gone);
    } else if op.Tick? {
      hide TasksSound, ListsSound;
      FewerTasksKept(db, Step(db, op), {});
    } else if op.Register? {
      RegisterKeepsTasks(db, op.user, op.inbox);
      hide TasksSound, ListsSound, Registered;
    } else if op.CreateList? {
      CreateListKeepsTasks(db, op.owner, op.id, op.name);
      hide TasksSound, ListsSound, ListCreated;
    } else {
      hide Step, ListsSound, TasksSound, Enabled;
      match op
      case DeleteAccount(user) => DeleteAccountStep(db, user);
      case CreateTask(_, _, _, _, _, _) => CreateTaskKeepsTasks(db, op);
      case EditTask(_, _, _) => TaskOpKeepsTasks(db, op);
      case SetCompletion(_, _, _) => TaskOpKeepsTasks(db, op);
      case SetDeletion(_, _, _) => TaskOpKeepsTasks(db, op);
      case ReorderTasks(_, _, _) => TaskOpKeepsTasks(db, op);
      case _ => ListOpKeepsTasks(db, op);
    }
  }

  lemma DeleteAccountStep(db: Db, user: nat)
    requires TasksSound(db)
    ensures TasksSound(Step(db, DeleteAccount(user)))
  {
    hide TasksSound;
    DeleteAccountKeepsTasks(db, user);
  }

  lemma StepKeepsSound(db: Db, op: Op)
    requires Sound(db) && Enabled(db, op)
    ensures Sound(Step(db, op))
  {
    hide Step, Enabled, ListsSound, TasksSound;
    StepKeepsLists(db, op);
    StepKeepsTasks(db, op);
  }

  lemma {:induction false} RunKeepsSound(db: Db, ops: seq<Op>, end: Db)
    requires Sound(db) && Run(db, ops, end)
    ensures Sound(end)
    decreases |ops|
  {
    hide Step, Enabled, Sound;
    if ops != [] {
      StepKeepsSound(db, ops[0]);
      RunKeepsSound(Step(db, ops[0]), ops[1..], end);
    }
  }

  ghost predicate Reachable(db: Db) {
    exists ops :: Run(Empty, ops, db)
  }

  lemma ReachableSound(db: Db)
    requires Reachable(db)
    ensures Sound(db)
  {
    var ops :| Run(Empty, ops, db);
    EmptySound();
    RunKeepsSound(Empty, ops, db);
  }

  lemma {:induction false} RunThen(db: Db, ops: seq<Op>, end: Db, op: Op)
    requires Run(db, ops, end) && Enabled(end, op)
    ensures Run(db, ops + [op], Step(end, op))
    decreases |ops|
  {
    hide Step, Enabled;
    if ops == [] {
      assert (ops + [op])[1..] == [];
    } else {
      assert (ops + [op])[1..] == ops[1..] + [op];
      RunThen(Step(db, ops[0]), ops[1..], end, op);
    }
  }

  lemma ReachableThen(db: Db, op: Op)
    requires Reachable(db) && Enabled(db, op)
    ensures Reachable(Step(db, op))
  {
    var ops :| Run(Empty, ops, db);
    RunThen(Empty, ops, db, op);
  }
}
