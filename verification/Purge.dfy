/** purge.repository.ts and task-purge.service.ts: deleting expired tasks, oldest first,
    batch by batch. */
module Purge {
  import opened Wrappers
  import opened Numbers
  import opened Schema
  import opened Store

  const MAX_ITERATIONS := 1000

  function ExpiredIds(tasks: TaskTable, retention: nat, now: int): set<nat> {
    set id | id in tasks && Expired(tasks[id], retention, now)
  }

  /** None of the rows left is older than one taken: `ORDER BY deleted_at LIMIT n`. */
  predicate OldestFirst(tasks: TaskTable, expired: set<nat>, gone: set<nat>)
    requires forall id | id in expired :: id in tasks && tasks[id].deletedAt.Some?
    requires gone <= expired
  {
    forall a, b | a in gone && b in expired - gone :: tasks[a].deletedAt.value <= tasks[b].deletedAt.value
  }

  lemma {:induction false} OldestExist(tasks: TaskTable, expired: set<nat>, n: nat) returns (gone: set<nat>)
    requires forall id | id in expired :: id in tasks && tasks[id].deletedAt.Some?
    requires n <= |expired|
    ensures gone <= expired && |gone| == n && OldestFirst(tasks, expired, gone)
  {
    if n == 0 {
      gone := {};
    } else {
      var before := OldestExist(tasks, expired, n - 1);
      var rest := expired - before;
      assert expired == before + rest;
      var first := Earliest(tasks, rest);
      gone := before + {first};
    }
  }

  lemma {:induction false} Earliest(tasks: TaskTable, s: set<nat>) returns (m: nat)
    requires s != {} && forall id | id in s :: id in tasks && tasks[id].deletedAt.Some?
    ensures m in s && forall x | x in s :: tasks[m].deletedAt.value <= tasks[x].deletedAt.value
  {
    var a :| a in s;
    m := a;
    if s != {a} {
      assert s == {a} + (s - {a});
      var k := Earliest(tasks, s - {a});
      if tasks[k].deletedAt.value < tasks[a].deletedAt.value { m := k; }
    }
  }

  class PurgeRepository {
    var now: int
    var tasks: TaskTable

    constructor (start: int, rows: TaskTable)
      ensures now == start && tasks == rows
    {
      now, tasks := start, rows;
    }

    /** One batch. */
    method PurgeExpired(retention: nat, limit: nat) returns (deleted: nat, ghost gone: set<nat>)
      modifies this`tasks
      ensures IsPurge(old(tasks), retention, now, limit, gone)
      ensures tasks == old(tasks) - gone && deleted == |gone|
    {
      var expired := ExpiredIds(tasks, retention, now);
      var n := Min(|expired|, limit);
      ghost var oldest := OldestExist(tasks, expired, n);
      assert oldest <= expired && |oldest| == n && OldestFirst(tasks, expired, oldest);
      var batch: set<nat> :| batch <= expired && |batch| == n && OldestFirst(tasks, expired, batch);
      deleted, gone := |batch|, batch;
      tasks := tasks - batch;
    }

    /** A whole pass with the clock still and no one interfering: exactly the expired rows
        go, or, if the cap on the batches bites, as many of the oldest as it allows; and
        the number reported is the number that went. */
    method Purge(retention: nat, limit: nat) returns (purged: nat, ghost gone: set<nat>)
      modifies this`tasks
      ensures IsPurge(old(tasks), retention, now, 1000 * limit, gone)
      ensures tasks == old(tasks) - gone && purged == |gone|
    {
      purged, gone := 0, {};
      ghost var before := tasks;
      hide IsPurge;
      NothingYet(before, retention, now);
      for i := 0 to MAX_ITERATIONS
        invariant IsPurge(before, retention, now, i * limit, gone)
        invariant tasks == before - gone && purged == |gone|
      {
        var deleted;
        ghost var batch;
        deleted, batch := PurgeExpired(retention, limit);
        NextBatch(before, retention, now, i, limit, gone, batch);
        if deleted == 0 { break; }
        purged := purged + deleted;
        gone := gone + batch;
      }
    }
  }

  /** The row was soft-deleted, and that before the instant. */
  predicate DeletedBefore(t: Task, instant: int) {
    t.deletedAt.Some? && t.deletedAt.value < instant
  }

  /** Only rows deleted before the instant are taken: every one if there are fewer than `n`,
      never more than `n`, and none deleted later than one that is left. */
  ghost predicate TakesOldest(tasks: TaskTable, instant: int, n: int, gone: set<nat>) {
    && |gone| <= n
    && (forall id | id in gone :: id in tasks && DeletedBefore(tasks[id], instant))
    && (|gone| < n ==> forall id | id in tasks && DeletedBefore(tasks[id], instant) :: id in gone)
    && (forall a, b | a in gone && b in tasks && b !in gone && DeletedBefore(tasks[b], instant) ::
          tasks[a].deletedAt.value <= tasks[b].deletedAt.value)
  }

  /** So a purge is what its statement says: `deleted_at < now() - interval`, oldest first. */
  lemma PurgeMeans(tasks: TaskTable, retention: nat, now: int, n: nat, gone: set<nat>)
    requires IsPurge(tasks, retention, now, n, gone)
    ensures TakesOldest(tasks, now - retention, n, gone)
  {
    var expired := ExpiredIds(tasks, retention, now);
    if |gone| < n { SubsetSize(gone, expired); }
    assert forall id | id in tasks && DeletedBefore(tasks[id], now - retention) :: id in expired;
  }

  /** `gone` is the expired rows, or the `n` oldest of them if there are more than `n`. */
  ghost predicate IsPurge(tasks: TaskTable, retention: nat, now: int, n: nat, gone: set<nat>) {
    var expired := ExpiredIds(tasks, retention, now);
    gone <= expired && |gone| == Min(|expired|, n) && OldestFirst(tasks, expired, gone)
  }

  /** When `n` is no bar, a purge takes exactly the expired rows. */
  lemma PurgeIsExact(tasks: TaskTable, retention: nat, now: int, n: nat, gone: set<nat>)
    requires IsPurge(tasks, retention, now, n, gone)
    ensures gone == ExpiredIds(tasks, retention, now) <==> |ExpiredIds(tasks, retention, now)| <= n
  {
    LeftOver(ExpiredIds(tasks, retention, now), gone);
  }

  lemma NothingYet(tasks: TaskTable, retention: nat, now: int)
    ensures IsPurge(tasks, retention, now, 0, {})
  {}

  /** One more batch takes the purge one more `limit` further, and an empty one means
      that it is over, however many batches were still allowed. */
  lemma NextBatch(before: TaskTable, retention: nat, now: int, i: nat, limit: nat, gone: set<nat>, batch: set<nat>)
    requires i < MAX_ITERATIONS && IsPurge(before, retention, now, i * limit, gone)
    requires IsPurge(before - gone, retention, now, limit, batch)
    ensures IsPurge(before, retention, now, (i + 1) * limit, gone + batch)
    ensures |gone + batch| == |gone| + |batch| && before - gone - batch == before - (gone + batch)
    ensures batch == {} ==> IsPurge(before, retention, now, MAX_ITERATIONS * limit, gone)
  {
    var expired := ExpiredIds(before, retention, now);
    StillExpired(before, gone, retention, now);
    LeftOver(expired, gone);
    hide ExpiredIds;
    OldestThenOldest(before, expired, gone, batch);
    BatchSizes(|expired|, i, limit, |gone|);
  }

  lemma StillExpired(before: TaskTable, gone: set<nat>, retention: nat, now: int)
    ensures ExpiredIds(before - gone, retention, now) == ExpiredIds(before, retention, now) - gone
  {}

  lemma LeftOver(expired: set<nat>, gone: set<nat>)
    requires gone <= expired
    ensures |expired - gone| == |expired| - |gone|
  {
    assert expired == gone + (expired - gone);
  }

  lemma OldestThenOldest(before: TaskTable, expired: set<nat>, gone: set<nat>, batch: set<nat>)
    requires forall id | id in expired :: id in before && before[id].deletedAt.Some?
    requires gone <= expired && OldestFirst(before, expired, gone)
    requires batch <= expired - gone && OldestFirst(before - gone, expired - gone, batch)
    ensures gone + batch <= expired && OldestFirst(before, expired, gone + batch)
    ensures |gone + batch| == |gone| + |batch|
    ensures before - gone - batch == before - (gone + batch)
  {
    assert forall id | id in expired - gone :: (before - gone)[id] == before[id];
  }

  /** A batch either brings the total to what `i + 1` batches allow, or finds nothing. */
  lemma BatchSizes(expired: nat, i: nat, limit: nat, purged: nat)
    requires purged == Min(expired, i * limit) && i < MAX_ITERATIONS
    ensures purged + Min(expired - purged, limit) == Min(expired, (i + 1) * limit)
    ensures Min(expired - purged, limit) == 0 ==> purged == Min(expired, MAX_ITERATIONS * limit)
  {
    assert (i + 1) * limit == i * limit + limit;
    MoreBatches(i, limit);
  }

  lemma MoreBatches(i: nat, limit: nat)
    requires i < MAX_ITERATIONS
    ensures i * limit <= MAX_ITERATIONS * limit
    ensures limit == 0 ==> i * limit == 0 == MAX_ITERATIONS * limit
  {}

  /** So a batch, and a whole pass, is a purge step of the store. */
  lemma PurgeIsAStep(db: Db, retention: nat, n: nat, gone: set<nat>)
    requires IsPurge(db.tasks, retention, db.now, n, gone)
    ensures Enabled(db, PurgeBatch(retention, gone)) && Step(db, PurgeBatch(retention, gone)).tasks == db.tasks - gone
  {
    assert forall id | id in gone :: id in ExpiredIds(db.tasks, retention, db.now);
  }
}
