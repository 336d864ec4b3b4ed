/** account-export.service.ts: filing the account's live tasks under their lists. */
module AccountExport {
  import opened Wrappers
  import opened Ordering
  import opened Schema
  import opened Store
  import opened StoreInvariants

  datatype ExportError = ExportIntegrity(taskId: nat, listId: nat)

  datatype ExportList = ExportList(list: TaskList, tasks: seq<Task>)

  /** The tasks of one list, in the order the rows came. */
  function Bucket(rows: seq<Task>, list: nat): seq<Task> {
    if rows == [] then []
    else Bucket(rows[..|rows| - 1], list) + (if rows[|rows| - 1].list == list then [rows[|rows| - 1]] else [])
  }

  function ListIds(lists: seq<TaskList>): set<nat> {
    set l | l in lists :: l.id
  }

  function Buckets(lists: seq<TaskList>, tasks: seq<Task>): map<nat, seq<Task>> {
    map id | id in ListIds(lists) :: Bucket(tasks, id)
  }

  function Document(lists: seq<TaskList>, tasks: seq<Task>): seq<ExportList> {
    seq(|lists|, i requires 0 <= i < |lists| => ExportList(lists[i], Bucket(tasks, lists[i].id)))
  }

  /** One pass over the task rows, into their lists; a row whose list is not among the
      lists read stops the export, and never goes missing. */
  method Export(lists: seq<TaskList>, tasks: seq<Task>) returns (r: Result<seq<ExportList>, ExportError>)
    ensures match r
            case Ok(doc) =>
              doc == Document(lists, tasks) && forall j | 0 <= j < |tasks| :: tasks[j].list in ListIds(lists)
            case Err(ExportIntegrity(task, list)) =>
              exists j | 0 <= j < |tasks| :: tasks[j].id == task && tasks[j].list == list && list !in ListIds(lists)
  {
    hide ListIds, Bucket;
    var byList: map<nat, seq<Task>> := map[];
    NoLists();
    for i := 0 to |lists|
      invariant byList == Buckets(lists[..i], [])
    {
      NextList(lists, i);
      byList := byList[lists[i].id := []];
    }
    assert lists[..|lists|] == lists;
    assert tasks[..0] == [];
    for j := 0 to |tasks|
      invariant byList == Buckets(lists, tasks[..j])
      invariant forall k | 0 <= k < j :: tasks[k].list in ListIds(lists)
    {
      var task := tasks[j];
      if task.list !in byList {
        return Err(ExportIntegrity(task.id, task.list));
      }
      NextRow(lists, tasks, j);
      byList := byList[task.list := byList[task.list] + [task]];
    }
    assert tasks[..|tasks|] == tasks;
    var doc: seq<ExportList> := [];
    for i := 0 to |lists|
      invariant doc == Document(lists, tasks)[..i]
    {
      ListIsThere(lists, i);
      doc := doc + [ExportList(lists[i], byList[lists[i].id])];
    }
    return Ok(doc);
  }

  lemma NoLists()
    ensures Buckets([], []) == map[]
  {}

  lemma ListIsThere(lists: seq<TaskList>, i: nat)
    requires i < |lists|
    ensures lists[i].id in ListIds(lists)
  {
    assert lists[i] in lists;
  }

  lemma NextList(lists: seq<TaskList>, i: nat)
    requires i < |lists|
    ensures Buckets(lists[..i + 1], []) == Buckets(lists[..i], [])[lists[i].id := []]
  {
    assert lists[..i + 1] == lists[..i] + [lists[i]];
    assert ListIds(lists[..i + 1]) == ListIds(lists[..i]) + {lists[i].id} by {
      assert lists[i] in lists[..i + 1];
      forall l | l in lists[..i] ensures l in lists[..i + 1] {}
    }
  }

  lemma NextRow(lists: seq<TaskList>, tasks: seq<Task>, j: nat)
    requires j < |tasks| && tasks[j].list in ListIds(lists)
    ensures var before := Buckets(lists, tasks[..j]);
            tasks[j].list in before
            && Buckets(lists, tasks[..j + 1]) == before[tasks[j].list := before[tasks[j].list] + [tasks[j]]]
  {
    hide ListIds;
    var rows := tasks[..j + 1];
    assert rows[..|rows| - 1] == tasks[..j] && rows[|rows| - 1] == tasks[j];
    forall id: nat
      ensures Bucket(rows, id) ==
                if tasks[j].list == id then Bucket(tasks[..j], id) + [tasks[j]] else Bucket(tasks[..j], id)
    {
      assert Bucket(tasks[..j], id) + [] == Bucket(tasks[..j], id);
    }
    var before := Buckets(lists, tasks[..j]);
    assert Buckets(lists, rows) == before[tasks[j].list := before[tasks[j].list] + [tasks[j]]];
  }

  // ---------- over a reading of the tables ----------

  /** The account's lists and live tasks, each row once, tasks by list, position and
      creation: one snapshot, as the repository reads it. */
  ghost predicate IsReading(db: Db, user: nat, lists: seq<TaskList>, tasks: seq<Task>) {
    && Distinct(lists) && Distinct(tasks)
    && (forall l :: l in lists <==> l.id in db.lists && db.lists[l.id] == l && l.owner == user)
    && (forall t :: t in tasks <==> t.id in db.tasks && db.tasks[t.id] == t && t.owner == user && t.deletedAt == None)
    && (forall i, j | 0 <= i < j < |tasks| :: NotAfter(tasks[i], tasks[j]))
  }

  predicate NotAfter(a: Task, b: Task) {
    a.list < b.list || (a.list == b.list && InOrder(a, b))
  }

  predicate InOrder(a: Task, b: Task) {
    a.position < b.position || (a.position == b.position && a.createdAt <= b.createdAt)
  }

  lemma {:induction false} BucketFacts(rows: seq<Task>, list: nat)
    requires Distinct(rows) && forall i, j | 0 <= i < j < |rows| :: NotAfter(rows[i], rows[j])
    ensures forall t :: t in Bucket(rows, list) <==> t in rows && t.list == list
    ensures Distinct(Bucket(rows, list))
    ensures forall i, j | 0 <= i < j < |Bucket(rows, list)| :: InOrder(Bucket(rows, list)[i], Bucket(rows, list)[j])
  {
    if rows != [] {
      var n := |rows| - 1;
      var before, kept := rows[..n], Bucket(rows[..n], list);
      BucketFacts(before, list);
      assert rows == before + [rows[n]];
      forall i | 0 <= i < |kept| ensures kept[i] != rows[n] && NotAfter(kept[i], rows[n]) && kept[i].list == list {
        assert kept[i] in before;
        var k :| 0 <= k < n && rows[k] == kept[i];
      }
    }
  }

  lemma ListIsRead(db: Db, user: nat, lists: seq<TaskList>, tasks: seq<Task>, j: nat)
    requires Sound(db) && IsReading(db, user, lists, tasks) && j < |tasks|
    ensures tasks[j].list in ListIds(lists)
  {
    var t := tasks[j];
    assert t in tasks;
    assert OwnsList(db, t.owner, t.list);
    assert db.lists[t.list] in lists;
  }

  /** In every state a serial run can reach, each task's list exists and belongs to its
      owner, so the integrity error never fires. */
  lemma NeverAnIntegrityError(db: Db, user: nat, lists: seq<TaskList>, tasks: seq<Task>)
    requires Reachable(db) && IsReading(db, user, lists, tasks)
    ensures forall j | 0 <= j < |tasks| :: tasks[j].list in ListIds(lists)
  {
    ReachableSound(db);
    forall j | 0 <= j < |tasks| ensures tasks[j].list in ListIds(lists) { ListIsRead(db, user, lists, tasks, j); }
  }

  /** A live task of the account's, filed under the list. */
  ghost predicate FiledUnder(db: Db, list: nat, t: Task) {
    t.id in db.tasks && db.tasks[t.id] == t && t.deletedAt == None && t.list == list
  }

  lemma BucketIsComplete(db: Db, user: nat, lists: seq<TaskList>, tasks: seq<Task>, i: nat)
    requires Sound(db) && IsReading(db, user, lists, tasks) && i < |lists|
    ensures var bucket := Bucket(tasks, lists[i].id);
            && Distinct(bucket)
            && (forall t :: t in bucket <==> FiledUnder(db, lists[i].id, t))
            && (forall a, b | 0 <= a < b < |bucket| :: InOrder(bucket[a], bucket[b]))
  {
    BucketFacts(tasks, lists[i].id);
    assert lists[i] in lists;
    hide Bucket, ListsSound;
    forall t | FiledUnder(db, lists[i].id, t) ensures t in tasks {
      assert OwnsList(db, t.owner, t.list);
    }
  }

  /** The document holds each of the account's lists once, and each of its live tasks
      exactly once, under its own list, by position and then creation. */
  lemma ExportIsComplete(db: Db, user: nat, lists: seq<TaskList>, tasks: seq<Task>)
    requires Sound(db) && IsReading(db, user, lists, tasks)
    ensures var doc := Document(lists, tasks);
            && |doc| == |lists| && (forall i | 0 <= i < |doc| :: doc[i].list == lists[i])
            && (forall i, j | 0 <= i < |doc| && 0 <= j < |doc| && i != j :: doc[i].list.id != doc[j].list.id)
            && (forall i | 0 <= i < |doc| :: Distinct(doc[i].tasks))
            && (forall i, t | 0 <= i < |doc| :: t in doc[i].tasks <==> FiledUnder(db, doc[i].list.id, t))
            && (forall t | t in tasks :: exists i :: 0 <= i < |doc| && t in doc[i].tasks)
            && (forall i, a, b | 0 <= i < |doc| && 0 <= a < b < |doc[i].tasks| ::
                  var t, u := doc[i].tasks[a], doc[i].tasks[b];
                  t.position < u.position || (t.position == u.position && t.createdAt <= u.createdAt))
  {
    var doc := Document(lists, tasks);
    hide Sound;
    forall i | 0 <= i < |doc|
      ensures Distinct(doc[i].tasks)
      ensures forall t :: t in doc[i].tasks <==> FiledUnder(db, lists[i].id, t)
      ensures forall a, b | 0 <= a < b < |doc[i].tasks| :: InOrder(doc[i].tasks[a], doc[i].tasks[b])
    {
      BucketIsComplete(db, user, lists, tasks, i);
    }
    hide Bucket;
    forall t | t in tasks ensures exists i :: 0 <= i < |doc| && t in doc[i].tasks {
      var j :| 0 <= j < |tasks| && tasks[j] == t;
      ListIsRead(db, user, lists, tasks, j);
      var i :| 0 <= i < |lists| && lists[i].id == t.list;
      assert FiledUnder(db, lists[i].id, t);
    }
    ListsApart(db, user, lists, tasks);
  }

  lemma ListsApart(db: Db, user: nat, lists: seq<TaskList>, tasks: seq<Task>)
    requires IsReading(db, user, lists, tasks)
    ensures forall i, j | 0 <= i < |lists| && 0 <= j < |lists| && i != j :: lists[i].id != lists[j].id
  {
    forall i, j | 0 <= i < |lists| && 0 <= j < |lists| && i != j ensures lists[i].id != lists[j].id {
      assert lists[i] in lists && lists[j] in lists;
    }
  }
}
