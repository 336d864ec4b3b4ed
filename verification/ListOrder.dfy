/** The lists of an account: their order, the default list, and deleting one. */
module ListOrder {
  import opened Ordering
  import opened Schema
  import opened Store
  import opened StoreInvariants

  /** `ORDER BY l.position ASC, l.created_at ASC`. */
  predicate Precedes(a: TaskList, b: TaskList) {
    a.position < b.position || (a.position == b.position && a.createdAt < b.createdAt)
  }

  const ORDER: (TaskList, TaskList) -> bool := (a: TaskList, b: TaskList) => Precedes(a, b)

  function OwnedRows(db: Db, owner: nat): set<TaskList> {
    set id | id in db.lists && db.lists[id].owner == owner :: db.lists[id]
  }

  /** Positions of one account's lists are distinct, so that the order is total. */
  lemma OrderIsTotal(db: Db, owner: nat)
    requires PositionsApart(db)
    ensures StrictTotalOrder(ORDER, OwnedRows(db, owner))
  {
    forall a, b | a in OwnedRows(db, owner) && b in OwnedRows(db, owner) && a != b ensures ORDER(a, b) || ORDER(b, a) {
      assert a.id in db.lists && b.id in db.lists && a.id != b.id;
    }
  }

  /** `findAllWithCounts`, the rows alone. */
  ghost function ListView(db: Db, owner: nat): seq<TaskList>
    requires PositionsApart(db)
  {
    OrderIsTotal(db, owner);
    Sort(ORDER, OwnedRows(db, owner))
  }

  function Ids(rows: seq<TaskList>): seq<nat> {
    seq(|rows|, i requires 0 <= i < |rows| => rows[i].id)
  }

  /** In every state a serial run can reach, an account has exactly one default list, and
      no two of its lists share a position. */
  lemma AccountAlwaysHas(db: Db, user: nat)
    requires Reachable(db) && user in db.users
    ensures exists d :: IsDefault(db, user, d) && forall id :: IsDefault(db, user, id) ==> id == d
    ensures forall a, b | OwnsList(db, user, a) && OwnsList(db, user, b) && a != b ::
              db.lists[a].position != db.lists[b].position
  {
    ReachableSound(db);
    assert OneDefault(db, user);
    var d :| IsSoleDefault(db, user, d);
  }

  predicate OnlyMoved(db: Db, db': Db, ids: seq<nat>) {
    && db' == db.(lists := db'.lists)
    && db'.lists.Keys == db.lists.Keys
    && forall id | id in db.lists ::
         if id in ids then db'.lists[id] == db.lists[id].(position := IndexOf(ids, id), updatedAt := db.now)
         else db'.lists[id] == db.lists[id]
  }

  lemma ReorderMoves(db: Db, owner: nat, ids: seq<nat>)
    requires IsOrderOf(ids, OwnedLists(db, owner))
    ensures var (db', reply) := ListsReordered(db, owner, ids);
            reply == Done && OnlyMoved(db, db', ids) && OwnedLists(db', owner) == OwnedLists(db, owner)
            && forall i | 0 <= i < |ids| :: ids[i] in db'.lists && db'.lists[ids[i]].position == i
  {
    OrderChecksIff(ids, OwnedLists(db, owner));
    hide OrderChecks;
    forall id | id in ids ensures id in OwnedLists(db, owner) { assert id in Elements(ids); }
    var db' := ListsReordered(db, owner, ids).0;
    forall i | 0 <= i < |ids| ensures ids[i] in db'.lists && db'.lists[ids[i]].position == i {
      assert ids[i] in ids;
    }
  }

  lemma ArrangedRows(db: Db, owner: nat, ids: seq<nat>) returns (q: seq<TaskList>)
    requires IsOrderOf(ids, OwnedLists(db, owner))
    requires forall i | 0 <= i < |ids| :: ids[i] in db.lists && db.lists[ids[i]].position == i
    ensures |q| == |ids| && forall i | 0 <= i < |q| :: q[i].position == i && q[i].id == ids[i]
    ensures Elements(q) == OwnedRows(db, owner)
  {
    forall id | id in ids ensures id in OwnedLists(db, owner) { assert id in Elements(ids); }
    q := seq(|ids|, i requires 0 <= i < |ids| => db.lists[ids[i]]);
    forall t ensures t in q <==> t in OwnedRows(db, owner) {
      if t in q {
        var i :| 0 <= i < |q| && q[i] == t;
        assert ids[i] in ids;
      }
      if t in OwnedRows(db, owner) {
        assert t.id in OwnedLists(db, owner);
        assert t.id in Elements(ids);
        var i :| 0 <= i < |ids| && ids[i] == t.id;
        assert q[i] == t;
      }
    }
  }

  lemma ArrangedByPosition(db: Db, owner: nat, ids: seq<nat>)
    requires PositionsApart(db) && IsOrderOf(ids, OwnedLists(db, owner))
    requires forall i | 0 <= i < |ids| :: ids[i] in db.lists && db.lists[ids[i]].position == i
    ensures Ids(ListView(db, owner)) == ids
  {
    hide PositionsApart, OwnedRows, IsOrderOf;
    var q := ArrangedRows(db, owner, ids);
    OrderIsTotal(db, owner);
    assert Increasing(ORDER, q);
    hide StrictTotalOrder, Increasing, Elements;
    SortUnique(ORDER, OwnedRows(db, owner), q);
    assert Ids(q) == ids;
  }

  /** Reordering the lists accepts exactly the permutations of the account's lists.
      Accepted, it leaves positions 0..n-1 in the submitted order and touches no other
      account's; rejected, it changes nothing. */
  lemma ReorderExact(db: Db, owner: nat, ids: seq<nat>)
    requires PositionsApart(db)
    ensures var (db', reply) := ListsReordered(db, owner, ids);
            if IsOrderOf(ids, OwnedLists(db, owner)) then
              && reply == Done && OnlyMoved(db, db', ids)
              && (forall i | 0 <= i < |ids| :: ids[i] in db'.lists && db'.lists[ids[i]].position == i)
              && PositionsApart(db') && Ids(ListView(db', owner)) == ids
            else reply == OrderInvalid && db' == db
  {
    OrderChecksIff(ids, OwnedLists(db, owner));
    if IsOrderOf(ids, OwnedLists(db, owner)) {
      ReorderMoves(db, owner, ids);
      ReorderedApart(db, owner, ids);
      ArrangedByPosition(ListsReordered(db, owner, ids).0, owner, ids);
    }
  }

  /** A new list is last, and the others stay as they were. */
  lemma CreatedIsLast(db: Db, owner: nat, id: nat, name: string)
    requires ListsSound(db) && owner in db.users && id !in db.used
    ensures var db' := ListCreated(db, owner, id, name).0;
            PositionsApart(db') && id in db'.lists && ListView(db', owner) == ListView(db, owner) + [db'.lists[id]]
  {
    var db' := ListCreated(db, owner, id, name).0;
    FreshIds(db, id);
    CreateListKeepsLists(db, owner, id, name);
    hide ListsSound, PositionsApart, StrictTotalOrder;
    OrderIsTotal(db, owner);
    OrderIsTotal(db', owner);
    NewRow(db, owner, id, name);
    hide OwnedRows, ListCreated;
    SortAppend(ORDER, OwnedRows(db, owner), db'.lists[id]);
  }

  lemma NewRow(db: Db, owner: nat, id: nat, name: string)
    requires owner in db.users && id !in db.lists
    ensures var db' := ListCreated(db, owner, id, name).0;
            && OwnedRows(db', owner) == OwnedRows(db, owner) + {db'.lists[id]}
            && forall t | t in OwnedRows(db, owner) :: Precedes(t, db'.lists[id])
  {
    var db' := ListCreated(db, owner, id, name).0;
    assert forall l | l in db.lists :: db'.lists[l] == db.lists[l];
    forall t | t in OwnedRows(db, owner) ensures t.position < db'.lists[id].position {
      assert t.position in ListPositions(db, owner);
    }
  }

  /** Deleting a list takes with it exactly the tasks it held, in whatever state, and
      reports how many; an account's default list is never deleted, and neither is a list
      of someone else's. */
  lemma DeleteExact(db: Db, owner: nat, id: nat)
    ensures var (db', reply) := ListDeleted(db, owner, id);
            if OwnsList(db, owner, id) && !db.lists[id].isDefault then
              && reply == Count(|db.tasks| - |db'.tasks|)
              && id !in db'.lists && db'.lists == db.lists - {id}
              && (forall t | t in db.tasks :: t in db'.tasks <==> db.tasks[t].list != id)
              && (forall t | t in db'.tasks :: t in db.tasks && db'.tasks[t] == db.tasks[t])
            else db' == db && reply == if OwnsList(db, owner, id) then ListNotDeletable else ListNotFound
  {
    var db' := ListDeleted(db, owner, id).0;
    if OwnsList(db, owner, id) && !db.lists[id].isDefault {
      assert db'.tasks.Keys == db.tasks.Keys - TasksIn(db, id);
      assert TasksIn(db, id) <= db.tasks.Keys;
      assert |db.tasks.Keys| == |db.tasks| && |db'.tasks.Keys| == |db'.tasks|;
    }
  }
}
