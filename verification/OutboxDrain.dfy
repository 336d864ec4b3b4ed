/** outbox.repository.ts and outbox-drain.service.ts: the statements on the table, and
    one worker draining it alone and to the end. */
module OutboxDrain {
  import opened Wrappers
  import opened Ordering
  import opened OutboxProtocol

  class OutboxRepository {
    var rows: map<nat, Row>
    var now: int
    ghost var log: Log

    constructor ()
      ensures rows == map[] && now == 0 && log == Init.log
    {
      rows, now, log := map[], 0, Init.log;
    }

    /** The table, the clock and the history, with the given workers at work. */
    ghost function View(workers: map<nat, Worker>): State
      reads this
    {
      State(now, rows, workers, log)
    }

    /** Time passes between any two statements. */
    method Elapse() returns (ghost d: nat)
      modifies this`now
      ensures now == old(now) + d
    {
      var wait: nat := *;
      d := wait;
      now := now + wait;
    }

    /** Claims a batch of due rows; none are left only when fewer are due than asked. */
    method ClaimDue(cfg: Config) returns (jobs: seq<Job>, ghost ids: seq<nat>)
      modifies this`rows, this`log
      ensures Distinct(ids) && |ids| <= cfg.batch
      ensures forall id | id in ids :: id in old(rows) && Due(old(rows)[id], now)
      ensures |ids| < cfg.batch ==> forall id | id in old(rows) && Due(old(rows)[id], now) :: id in ids
      ensures rows == ClaimRows(cfg, old(rows), ids, now)
      ensures rows.Keys == old(rows).Keys
      ensures forall id | id in rows && id !in ids :: rows[id] == old(rows)[id]
      ensures forall id | id in ids ::
                var was, d := old(rows)[id], cfg.base * Pow2(old(rows)[id].attempts);
                && was.status == Pending && (was.nextAttempt.Some? ==> was.nextAttempt.value <= now)
                && rows[id] == was.(attempts := was.attempts + 1,
                                    nextAttempt := Some(now + if d < cfg.cap then d else cfg.cap))
      ensures jobs == Returning(rows, ids) && |jobs| == |ids|
      ensures forall i | 0 <= i < |ids| ::
                ids[i] in old(rows) && jobs[i] == Job(ids[i], old(rows)[ids[i]].attempts + 1)
      ensures log == LogClaims(old(log), ids, now)
    {
      var due := set id | id in rows && Due(rows[id], now);
      var picked: seq<nat> := [];
      while |picked| < cfg.batch && due != {}
        invariant Distinct(picked) && |picked| <= cfg.batch
        invariant forall id | id in picked :: id in rows && Due(rows[id], now) && id !in due
        invariant forall id | id in rows && Due(rows[id], now) :: id in picked || id in due
        invariant forall id | id in due :: id in rows && Due(rows[id], now)
        decreases due
      {
        var id :| id in due;
        picked, due := picked + [id], due - {id};
      }
      rows := ClaimRows(cfg, rows, picked, now);
      assert forall i | 0 <= i < |picked| :: picked[i] in picked;
      jobs := Returning(rows, picked);
      ids := picked;
      log := LogClaims(log, ids, now);
    }

    /** The update may reach the table and still fail to say so. */
    method MarkSent(id: nat) returns (wrote: bool, threw: bool)
      modifies this`rows
      ensures wrote || threw
      ensures rows == if wrote then MarkSentRows(old(rows), id, now) else old(rows)
      ensures rows.Keys == old(rows).Keys
      ensures forall x | x in rows ::
                var was := old(rows)[x];
                var sent := was.(status := Sent, sentAt := Some(now), lastError := None);
                rows[x] == if wrote && x == id then sent else was
    {
      threw := *;
      var reached: bool := *;
      wrote := reached || !threw;
      if wrote && id in rows {
        rows := rows[id := rows[id].(status := Sent, sentAt := Some(now), lastError := None)];
      }
    }

    method MarkFailed(id: nat, error: string)
      modifies this`rows
      ensures rows == MarkFailedRows(old(rows), id, error) && rows.Keys == old(rows).Keys
      ensures forall x | x in rows ::
                rows[x] == if x == id then old(rows)[x].(status := Failed, lastError := Some(error)) else old(rows)[x]
    {
      if id in rows {
        rows := rows[id := rows[id].(status := Failed, lastError := Some(error))];
      }
    }

    method RecordRetry(id: nat, error: string)
      modifies this`rows
      ensures rows == RecordRetryRows(old(rows), id, error) && rows.Keys == old(rows).Keys
      ensures forall x | x in rows ::
                rows[x] == if x == id then old(rows)[x].(lastError := Some(error)) else old(rows)[x]
    {
      if id in rows {
        rows := rows[id := rows[id].(lastError := Some(error))];
      }
    }

    /** Sending a message succeeds or fails with an error. */
    method SendEmail(job: Job) returns (ok: bool, error: string)
      modifies this`log
      ensures log == old(log).(sends := old(log).sends + [job],
                               delivered := old(log).delivered + (if ok then {job.id} else {}))
    {
      ok := *;
      error := if ok then "" else "send failed";
      log := log.(sends := log.sends + [job], delivered := log.delivered + (if ok then {job.id} else {}));
    }
  }

  datatype DrainResult = DrainResult(sent: nat, retried: nat, deadLettered: nat) {
    function Total(): nat { sent + retried + deadLettered }
  }

  const MAX_ITERATIONS := 1000

  /** What one action adds to the counts: a message marked sent without an error, a failure
      that dead-letters its row, or one that leaves it for another attempt. */
  function Counted(cfg: Config, s: State, a: Action): DrainResult
    requires Enabled(cfg, s, a)
  {
    match a
    case MarkSent(_, _, threw) => DrainResult(if threw then 0 else 1, 0, 0)
    case Record(w, _) =>
      if s.workers[w].queue[0].attempts >= cfg.maxAttempts then DrainResult(0, 0, 1) else DrainResult(0, 1, 0)
    case _ => DrainResult(0, 0, 0)
  }

  function Plus(a: DrainResult, b: DrainResult): DrainResult {
    DrainResult(a.sent + b.sent, a.retried + b.retried, a.deadLettered + b.deadLettered)
  }

  ghost function Tally(cfg: Config, s: State, trace: seq<Action>): DrainResult
    decreases |trace|
  {
    if trace == [] || !Enabled(cfg, s, trace[0]) then DrainResult(0, 0, 0)
    else Plus(Counted(cfg, s, trace[0]), Tally(cfg, Step(cfg, s, trace[0]), trace[1..]))
  }

  lemma TallyFirst(cfg: Config, s: State, trace: seq<Action>)
    requires trace != [] && Enabled(cfg, s, trace[0])
    ensures Tally(cfg, s, trace) == Plus(Counted(cfg, s, trace[0]), Tally(cfg, Step(cfg, s, trace[0]), trace[1..]))
  {
    hide Step, Enabled, Counted, Plus;
  }

  lemma RunFirst(cfg: Config, s: State, trace: seq<Action>, t: State)
    requires trace != [] && Run(cfg, s, trace, t)
    ensures Enabled(cfg, s, trace[0]) && Run(cfg, Step(cfg, s, trace[0]), trace[1..], t)
  {
    hide Step, Enabled;
  }

  lemma {:induction false} TallyConcat(cfg: Config, s: State, a: seq<Action>, t: State, b: seq<Action>)
    requires Run(cfg, s, a, t)
    ensures Tally(cfg, s, a + b) == Plus(Tally(cfg, s, a), Tally(cfg, t, b))
    decreases |a|
  {
    hide Run, Step, Enabled, Counted, Tally;
    if a == [] {
      NoneCounted(cfg, s, t);
      assert a + b == b;
    } else {
      TallyTail(cfg, s, a, t, b);
      RunFirst(cfg, s, a, t);
      TallyFirst(cfg, s, a);
      TallyConcat(cfg, Step(cfg, s, a[0]), a[1..], t, b);
    }
  }

  lemma NoneCounted(cfg: Config, s: State, t: State)
    requires Run(cfg, s, [], t)
    ensures s == t && Tally(cfg, s, []) == DrainResult(0, 0, 0)
  {}

  lemma TallyTail(cfg: Config, s: State, a: seq<Action>, t: State, b: seq<Action>)
    requires a != [] && Run(cfg, s, a, t)
    ensures Enabled(cfg, s, a[0])
    ensures Tally(cfg, s, a + b) == Plus(Counted(cfg, s, a[0]), Tally(cfg, Step(cfg, s, a[0]), a[1..] + b))
  {
    hide Run, Step, Enabled, Counted, Tally, Plus;
    RunFirst(cfg, s, a, t);
    assert (a + b)[0] == a[0] && (a + b)[1..] == a[1..] + b;
    TallyFirst(cfg, s, a + b);
  }

  /** One more action of a run, and of its count. */
  lemma Goes(cfg: Config, s: State, trace: seq<Action>, t: State, a: Action, u: State)
    requires Run(cfg, s, trace, t) && Enabled(cfg, t, a) && u == Step(cfg, t, a)
    ensures Run(cfg, s, trace + [a], u)
    ensures Tally(cfg, s, trace + [a]) == Plus(Tally(cfg, s, trace), Counted(cfg, t, a))
  {
    hide Step, Enabled, Counted;
    RunThen(cfg, s, trace, t, a);
    TallyConcat(cfg, s, trace, t, [a]);
    assert [a][1..] == [];
  }

  /** No row is pending with its attempts used up, but for those still in hand and those
      not touched since the table read `before`. */
  ghost predicate Settled(cfg: Config, before: map<nat, Row>, rows: map<nat, Row>, inHand: seq<Job>) {
    forall id | id in rows && rows[id].status == Pending && rows[id].attempts >= cfg.maxAttempts ::
      Job(id, rows[id].attempts) in inHand || (id in before && rows[id] == before[id])
  }

  /** The jobs in hand carry the rows' present counts. */
  ghost predicate Current(rows: map<nat, Row>, inHand: seq<Job>) {
    && Distinct(inHand)
    && forall i | 0 <= i < |inHand| :: inHand[i].id in rows && rows[inHand[i].id].attempts == inHand[i].attempts
  }

  /** Settling the first job in hand leaves the others as they were. */
  lemma SettleFirst(
    cfg: Config, before: map<nat, Row>, rows: map<nat, Row>, rows': map<nat, Row>, job: Job, rest: seq<Job>)
    requires Settled(cfg, before, rows, [job] + rest) && Current(rows, [job] + rest)
    requires rows'.Keys == rows.Keys && job.id in rows
    requires forall id | id in rows && id != job.id :: rows'[id] == rows[id]
    requires rows'[job.id].attempts == job.attempts
    requires rows'[job.id].status == Pending ==> rows[job.id].status == Pending && job.attempts < cfg.maxAttempts
    ensures Settled(cfg, before, rows', rest) && Current(rows', rest)
  {
    var all := [job] + rest;
    assert all[0] == job;
    assert forall i | 0 <= i < |rest| :: all[i + 1] == rest[i];
    forall id | id in rows' && rows'[id].status == Pending && rows'[id].attempts >= cfg.maxAttempts
      ensures Job(id, rows'[id].attempts) in rest || (id in before && rows'[id] == before[id])
    {
      assert Job(id, rows[id].attempts) in all || rows[id] == before[id];
    }
  }

  lemma CurrentFirst(rows: map<nat, Row>, job: Job, rest: seq<Job>)
    requires Current(rows, [job] + rest)
    ensures job.id in rows && rows[job.id].attempts == job.attempts
  {
    assert ([job] + rest)[0] == job;
  }

  /** One worker alone, with `queue` in hand. */
  function Alone(now: int, rows: map<nat, Row>, w: nat, queue: seq<Job>, phase: Phase, log: Log): State {
    State(now, rows, map[w := Worker(queue, phase)], log)
  }

  function Sending(log: Log, job: Job, ok: bool): Log {
    log.(sends := log.sends + [job], delivered := log.delivered + (if ok then {job.id} else {}))
  }

  lemma SendStep(cfg: Config, now: int, rows: map<nat, Row>, w: nat, job: Job, rest: seq<Job>, log: Log, ok: bool)
    ensures var s := Alone(now, rows, w, [job] + rest, ToSend, log);
            Enabled(cfg, s, Send(w, ok))
            && Step(cfg, s, Send(w, ok))
               == Alone(now, rows, w, [job] + rest, if ok then ToMark else ToRecord, Sending(log, job, ok))
            && Counted(cfg, s, Send(w, ok)) == DrainResult(0, 0, 0)
  {
    var s := Alone(now, rows, w, [job] + rest, ToSend, log);
    assert s.workers[w].queue[0] == job;
  }

  lemma MarkStep(
    cfg: Config, now: int, rows: map<nat, Row>, w: nat, job: Job, rest: seq<Job>, log: Log, wrote: bool, threw: bool)
    requires wrote || threw
    ensures var s, a := Alone(now, rows, w, [job] + rest, ToMark, log), MarkSent(w, wrote, threw);
            var rows' := if wrote then MarkSentRows(rows, job.id, now) else rows;
            Enabled(cfg, s, a)
            && Counted(cfg, s, a) == DrainResult(if threw then 0 else 1, 0, 0)
            && Step(cfg, s, a) == if threw then Alone(now, rows', w, [job] + rest, ToRecord, log)
                                  else Alone(now, rows', w, rest, ToSend, log)
  {
    assert ([job] + rest)[0] == job && ([job] + rest)[1..] == rest;
  }

  lemma RecordStep(
    cfg: Config, now: int, rows: map<nat, Row>, w: nat, job: Job, rest: seq<Job>, log: Log, error: string)
    ensures var s, a := Alone(now, rows, w, [job] + rest, ToRecord, log), Record(w, error);
            var rows' := if job.attempts >= cfg.maxAttempts then MarkFailedRows(rows, job.id, error)
                         else RecordRetryRows(rows, job.id, error);
            && Enabled(cfg, s, a) && Step(cfg, s, a) == Alone(now, rows', w, rest, ToSend, log)
            && Counted(cfg, s, a)
               == if job.attempts >= cfg.maxAttempts then DrainResult(0, 0, 1) else DrainResult(0, 1, 0)
  {
    assert ([job] + rest)[0] == job && ([job] + rest)[1..] == rest;
  }

  /** The body of the row loop: send and mark sent; on any failure, dead-letter once the
      attempts are used up and otherwise leave the row for its next attempt. */
  method ProcessRow(
    repo: OutboxRepository, cfg: Config, job: Job, result: DrainResult,
    ghost before: map<nat, Row>, ghost w: nat, ghost rest: seq<Job>)
    returns (result': DrainResult, ghost trace: seq<Action>)
    requires Settled(cfg, before, repo.rows, [job] + rest) && Current(repo.rows, [job] + rest)
    modifies repo
    ensures Run(cfg, Alone(old(repo.now), old(repo.rows), w, [job] + rest, ToSend, old(repo.log)), trace,
                Alone(repo.now, repo.rows, w, rest, ToSend, repo.log))
    ensures Settled(cfg, before, repo.rows, rest) && Current(repo.rows, rest)
    ensures var start := Alone(old(repo.now), old(repo.rows), w, [job] + rest, ToSend, old(repo.log));
            result' == Plus(result, Tally(cfg, start, trace))
    ensures result'.Total() == result.Total() + 1 && repo.log.claimed == old(repo.log.claimed)
  {
    hide Settled, Current, Run, Step, Enabled, Counted, Tally;
    CurrentFirst(repo.rows, job, rest);
    ghost var s := Alone(repo.now, repo.rows, w, [job] + rest, ToSend, repo.log);
    EmptyRun(cfg, s);
    ghost var d := repo.Elapse();
    ghost var rows0, now := repo.rows, repo.now;
    TickStep(cfg, now - d, rows0, w, [job] + rest, repo.log, d);
    Goes(cfg, s, [], s, Tick(d), Alone(now, rows0, w, [job] + rest, ToSend, repo.log));
    trace := [] + [Tick(d)];

    ghost var log0 := repo.log;
    SendStep(cfg, now, rows0, w, job, rest, repo.log, true);
    SendStep(cfg, now, rows0, w, job, rest, repo.log, false);
    var ok, error := repo.SendEmail(job);
    Goes(cfg, s, trace, Alone(now, rows0, w, [job] + rest, ToSend, log0), Send(w, ok),
         Alone(now, rows0, w, [job] + rest, if ok then ToMark else ToRecord, repo.log));
    trace := trace + [Send(w, ok)];

    var failed := !ok;
    if ok {
      ghost var log := repo.log;
      var wrote, threw := repo.MarkSent(job.id);
      failed := threw;
      if threw { error := "mark failed"; }
      MarkStep(cfg, now, rows0, w, job, rest, log, wrote, threw);
      Goes(cfg, s, trace, Alone(now, rows0, w, [job] + rest, ToMark, log), MarkSent(w, wrote, threw),
           if threw then Alone(now, repo.rows, w, [job] + rest, ToRecord, log)
           else Alone(now, repo.rows, w, rest, ToSend, log));
      trace := trace + [MarkSent(w, wrote, threw)];
    }
    if failed {
      RecordStep(cfg, now, repo.rows, w, job, rest, repo.log, error);
      ghost var rows1 := repo.rows;
      if job.attempts >= cfg.maxAttempts {
        repo.MarkFailed(job.id, error);
        result' := result.(deadLettered := result.deadLettered + 1);
      } else {
        repo.RecordRetry(job.id, error);
        result' := result.(retried := result.retried + 1);
      }
      Goes(cfg, s, trace, Alone(now, rows1, w, [job] + rest, ToRecord, repo.log), Record(w, error),
           Alone(now, repo.rows, w, rest, ToSend, repo.log));
      trace := trace + [Record(w, error)];
    } else {
      result' := result.(sent := result.sent + 1);
    }
    SettleFirst(cfg, before, rows0, repo.rows, job, rest);
  }

  lemma EmptyRun(cfg: Config, s: State)
    ensures Run(cfg, s, [], s) && Tally(cfg, s, []) == DrainResult(0, 0, 0)
  {}

  lemma ClaimStep(cfg: Config, now: int, rows: map<nat, Row>, w: nat, ids: seq<nat>, log: Log)
    requires ids != [] && |ids| <= cfg.batch && Distinct(ids)
    requires forall id | id in ids :: id in rows && Due(rows[id], now)
    ensures var s, a := Alone(now, rows, w, [], ToSend, log), Claim(w, ids);
            var rows' := ClaimRows(cfg, rows, ids, now);
            Enabled(cfg, s, a)
            && Step(cfg, s, a) == Alone(now, rows', w, Returning(rows', ids), ToSend, LogClaims(log, ids, now))
            && Counted(cfg, s, a) == DrainResult(0, 0, 0)
  {}

  lemma TickStep(cfg: Config, now: int, rows: map<nat, Row>, w: nat, queue: seq<Job>, log: Log, d: nat)
    ensures var s := Alone(now, rows, w, queue, ToSend, log);
            && Enabled(cfg, s, Tick(d)) && Step(cfg, s, Tick(d)) == Alone(now + d, rows, w, queue, ToSend, log)
            && Counted(cfg, s, Tick(d)) == DrainResult(0, 0, 0)
  {}

  /** A claim puts every row whose attempts it used up in hand. */
  lemma ClaimSettles(cfg: Config, before: map<nat, Row>, rows: map<nat, Row>, ids: seq<nat>, now: int)
    requires Settled(cfg, before, rows, []) && Distinct(ids)
    requires forall id | id in ids :: id in rows
    ensures var rows' := ClaimRows(cfg, rows, ids, now);
            var jobs := Returning(rows', ids);
            Settled(cfg, before, rows', jobs) && Current(rows', jobs)
  {
    var rows' := ClaimRows(cfg, rows, ids, now);
    var jobs := Returning(rows', ids);
    assert forall i | 0 <= i < |ids| :: ids[i] in ids;
    forall id | id in rows' && rows'[id].status == Pending && rows'[id].attempts >= cfg.maxAttempts
      ensures Job(id, rows'[id].attempts) in jobs || (id in before && rows'[id] == before[id])
    {
      if id in ids {
        var i :| 0 <= i < |ids| && ids[i] == id;
        assert jobs[i] == Job(id, rows'[id].attempts);
      }
    }
  }

  lemma ClaimNone(cfg: Config, rows: map<nat, Row>, now: int, ids: seq<nat>, log: Log)
    requires forall id | id in ids :: id in rows
    requires |Returning(ClaimRows(cfg, rows, ids, now), ids)| == 0
    ensures ids == [] && ClaimRows(cfg, rows, ids, now) == rows
    ensures LogClaims(log, ids, now) == log
  {
    assert forall id | id in log.claims :: log.claims[id] + [] == log.claims[id];
  }

  /** The row loop over one claimed batch. */
  method DrainBatch(
    repo: OutboxRepository, cfg: Config, rows: seq<Job>, result: DrainResult, ghost before: map<nat, Row>, ghost w: nat)
    returns (result': DrainResult, ghost trace: seq<Action>)
    requires Settled(cfg, before, repo.rows, rows) && Current(repo.rows, rows)
    modifies repo
    ensures Run(cfg, Alone(old(repo.now), old(repo.rows), w, rows, ToSend, old(repo.log)), trace,
                Alone(repo.now, repo.rows, w, [], ToSend, repo.log))
    ensures Settled(cfg, before, repo.rows, [])
    ensures var start := Alone(old(repo.now), old(repo.rows), w, rows, ToSend, old(repo.log));
            result' == Plus(result, Tally(cfg, start, trace))
    ensures result'.Total() == result.Total() + |rows| && repo.log.claimed == old(repo.log.claimed)
  {
    hide Settled, Current, Run, Tally, Step, Enabled;
    ghost var start := Alone(repo.now, repo.rows, w, rows, ToSend, repo.log);
    result', trace := result, [];
    EmptyRun(cfg, start);
    var k := 0;
    assert rows[k..] == rows;
    while k < |rows|
      invariant k <= |rows|
      invariant Run(cfg, start, trace, Alone(repo.now, repo.rows, w, rows[k..], ToSend, repo.log))
      invariant Settled(cfg, before, repo.rows, rows[k..]) && Current(repo.rows, rows[k..])
      invariant result' == Plus(result, Tally(cfg, start, trace))
      invariant result'.Total() == result.Total() + k && repo.log.claimed == old(repo.log.claimed)
    {
      assert rows[k..] == [rows[k]] + rows[k + 1..];
      ghost var s := Alone(repo.now, repo.rows, w, rows[k..], ToSend, repo.log);
      ghost var more;
      result', more := ProcessRow(repo, cfg, rows[k], result', before, w, rows[k + 1..]);
      RunConcat(cfg, start, trace, s, more, Alone(repo.now, repo.rows, w, rows[k + 1..], ToSend, repo.log));
      TallyConcat(cfg, start, trace, s, more);
      trace := trace + more;
      k := k + 1;
    }
    assert rows[k..] == [];
  }

  /** A drain that overlaps with no other and is not cut short. What it does is a run of
      the protocol; every row it claimed is counted once, as sent, retried or
      dead-lettered; and a row left pending with its attempts used up was so when the drain
      began, as a worker that was cut short may leave it, and has not been claimed. It stops
      with nothing due unless the cap on its batches stopped it. A row counted as retried or
      dead-lettered may have been delivered: the error may be that of `markSent`, and on
      the last attempt the row then ends up failed (`OutboxOverlap.LoneWorkerDeadLetters`). */
  method Drain(repo: OutboxRepository, cfg: Config, ghost w: nat)
    returns (result: DrainResult, ghost trace: seq<Action>)
    modifies repo
    ensures Run(cfg, Alone(old(repo.now), old(repo.rows), w, [], ToSend, old(repo.log)), trace,
                Alone(repo.now, repo.rows, w, [], ToSend, repo.log))
    ensures result == Tally(cfg, Alone(old(repo.now), old(repo.rows), w, [], ToSend, old(repo.log)), trace)
    ensures result.Total() == repo.log.claimed - old(repo.log.claimed)
    ensures forall id | id in repo.rows ::
              repo.rows[id].status == Pending && repo.rows[id].attempts >= cfg.maxAttempts ==>
                id in old(repo.rows) && repo.rows[id] == old(repo.rows)[id]
    ensures cfg.batch > 0 && result.Total() < 1000 ==>
              forall id | id in repo.rows :: !Due(repo.rows[id], repo.now)
  {
    result, trace := DrainResult(0, 0, 0), [];
    ghost var before := repo.rows;
    ghost var start := Alone(repo.now, before, w, [], ToSend, repo.log);
    EmptyRun(cfg, start);
    UntouchedSettled(cfg, before);
    hide Settled, Current, Run, Step, Enabled, Alone, ClaimRows, Due, Tally, Counted;
    for i := 0 to MAX_ITERATIONS
      invariant Run(cfg, start, trace, Alone(repo.now, repo.rows, w, [], ToSend, repo.log))
      invariant Settled(cfg, before, repo.rows, [])
      invariant result == Tally(cfg, start, trace)
      invariant result.Total() == repo.log.claimed - old(repo.log.claimed) >= i
    {
      ghost var d := repo.Elapse();
      TickStep(cfg, repo.now - d, repo.rows, w, [], repo.log, d);
      Goes(cfg, start, trace, Alone(repo.now - d, repo.rows, w, [], ToSend, repo.log), Tick(d),
           Alone(repo.now, repo.rows, w, [], ToSend, repo.log));
      trace := trace + [Tick(d)];

      ghost var rows0, log0 := repo.rows, repo.log;
      var rows, ids := repo.ClaimDue(cfg);
      if |rows| == 0 {
        ClaimNone(cfg, rows0, repo.now, ids, log0);
        break;
      }
      ClaimStep(cfg, repo.now, rows0, w, ids, log0);
      ClaimSettles(cfg, before, rows0, ids, repo.now);
      Goes(cfg, start, trace, Alone(repo.now, rows0, w, [], ToSend, log0), Claim(w, ids),
           Alone(repo.now, repo.rows, w, rows, ToSend, repo.log));
      trace := trace + [Claim(w, ids)];

      ghost var s := Alone(repo.now, repo.rows, w, rows, ToSend, repo.log);
      ghost var more;
      result, more := DrainBatch(repo, cfg, rows, result, before, w);
      RunConcat(cfg, start, trace, s, more, Alone(repo.now, repo.rows, w, [], ToSend, repo.log));
      TallyConcat(cfg, start, trace, s, more);
      trace := trace + more;
    }
    NoneInHand(cfg, before, repo.rows);
  }

  lemma UntouchedSettled(cfg: Config, rows: map<nat, Row>)
    ensures Settled(cfg, rows, rows, [])
  {}

  lemma NoneInHand(cfg: Config, before: map<nat, Row>, rows: map<nat, Row>)
    requires Settled(cfg, before, rows, [])
    ensures forall id | id in rows && rows[id].status == Pending && rows[id].attempts >= cfg.maxAttempts ::
              id in before && rows[id] == before[id]
  {}
}
