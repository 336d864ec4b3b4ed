/** The outbox as a protocol: one table, any number of overlapping workers, a clock.
    Each action is one SQL statement, one send, or the end of a worker. */
module OutboxProtocol {
  import opened Wrappers
  import opened Ordering

  datatype Config = Config(batch: nat, base: nat, cap: nat, maxAttempts: nat)

  datatype Status = Pending | Sent | Failed

  datatype Row = Row(
    status: Status,
    attempts: nat,
    nextAttempt: Option<int>,
    sentAt: Option<int>,
    lastError: Option<string>)

  /** A claimed row as the worker holds it: the id, and the count its claim returned. */
  datatype Job = Job(id: nat, attempts: nat)

  /** Where a worker stands with the first job of its batch. */
  datatype Phase = ToSend | ToMark | ToRecord

  datatype Worker = Worker(queue: seq<Job>, phase: Phase)

  /** What has happened: when each row was claimed, how many claims there were in all,
      which jobs were sent, and which rows had a send succeed. */
  datatype Log = Log(claims: map<nat, seq<int>>, claimed: nat, sends: seq<Job>, delivered: set<nat>)

  datatype State = State(now: int, rows: map<nat, Row>, workers: map<nat, Worker>, log: Log)

  datatype Action =
    | Enqueue(id: nat)
    | Erase(gone: set<nat>)
    | Tick(d: nat)
    | Start(w: nat)
    | Claim(w: nat, ids: seq<nat>)
    | Send(w: nat, ok: bool)
    | MarkSent(w: nat, wrote: bool, threw: bool)
    | Record(w: nat, error: string)
    | Stop(w: nat)

  const Init := State(0, map[], map[], Log(map[], 0, [], {}))

  // ---------- the statements ----------

  function Pow2(k: nat): (p: nat)
    ensures p >= 1
  {
    if k == 0 then 1 else 2 * Pow2(k - 1)
  }

  /** `LEAST(base * power(2, attempts), cap)`, on the count before the claim. */
  function Backoff(cfg: Config, attempts: nat): nat {
    var d := cfg.base * Pow2(attempts);
    if d < cfg.cap then d else cfg.cap
  }

  predicate Due(row: Row, now: int) {
    row.status == Pending && (row.nextAttempt.Some? ==> row.nextAttempt.value <= now)
  }

  function Claimed(cfg: Config, row: Row, now: int): Row {
    row.(attempts := row.attempts + 1, nextAttempt := Some(now + Backoff(cfg, row.attempts)))
  }

  function ClaimRows(cfg: Config, rows: map<nat, Row>, ids: seq<nat>, now: int): map<nat, Row> {
    map id | id in rows :: if id in ids then Claimed(cfg, rows[id], now) else rows[id]
  }

  function Returning(rows: map<nat, Row>, ids: seq<nat>): seq<Job>
    requires forall id | id in ids :: id in rows
  {
    seq(|ids|, i requires 0 <= i < |ids| => assert ids[i] in ids; Job(ids[i], rows[ids[i]].attempts))
  }

  function LogClaims(log: Log, ids: seq<nat>, now: int): Log {
    log.(claims := map id | id in log.claims :: log.claims[id] + (if id in ids then [now] else []),
         claimed := log.claimed + |ids|)
  }

  function MarkSentRows(rows: map<nat, Row>, id: nat, now: int): map<nat, Row> {
    if id in rows then rows[id := rows[id].(status := Sent, sentAt := Some(now), lastError := None)] else rows
  }

  function MarkFailedRows(rows: map<nat, Row>, id: nat, error: string): map<nat, Row> {
    if id in rows then rows[id := rows[id].(status := Failed, lastError := Some(error))] else rows
  }

  function RecordRetryRows(rows: map<nat, Row>, id: nat, error: string): map<nat, Row> {
    if id in rows then rows[id := rows[id].(lastError := Some(error))] else rows
  }

  // ---------- the steps ----------

  predicate Busy(s: State, w: nat, phase: Phase) {
    w in s.workers && s.workers[w].phase == phase && s.workers[w].queue != []
  }

  /** A claim takes due rows no other statement holds: any of them, up to the batch. The
      id of a message is never given out again; erasing an account erases its messages. */
  predicate Enabled(cfg: Config, s: State, a: Action) {
    match a
    case Enqueue(id) => id !in s.log.claims
    case Erase(_) => true
    case Tick(_) => true
    case Start(w) => w !in s.workers
    case Claim(w, ids) =>
      && w in s.workers && s.workers[w] == Worker([], ToSend)
      && ids != [] && |ids| <= cfg.batch && Distinct(ids)
      && forall id | id in ids :: id in s.rows && Due(s.rows[id], s.now)
    case Send(w, _) => Busy(s, w, ToSend)
    case MarkSent(w, wrote, threw) => Busy(s, w, ToMark) && (wrote || threw)
    case Record(w, _) => Busy(s, w, ToRecord)
    case Stop(w) => w in s.workers
  }

  function Put(s: State, w: nat, worker: Worker): State {
    s.(workers := s.workers[w := worker])
  }

  function Step(cfg: Config, s: State, a: Action): State
    requires Enabled(cfg, s, a)
  {
    match a
    case Enqueue(id) =>
      s.(rows := s.rows[id := Row(Pending, 0, None, None, None)],
         log := s.log.(claims := s.log.claims[id := []]))
    case Erase(gone) => s.(rows := s.rows - gone)
    case Tick(d) => s.(now := s.now + d)
    case Start(w) => Put(s, w, Worker([], ToSend))
    case Claim(w, ids) =>
      var rows := ClaimRows(cfg, s.rows, ids, s.now);
      Put(s, w, Worker(Returning(rows, ids), ToSend))
        .(rows := rows, log := LogClaims(s.log, ids, s.now))
    case Send(w, ok) =>
      var queue := s.workers[w].queue;
      Put(s, w, Worker(queue, if ok then ToMark else ToRecord))
        .(log := s.log.(sends := s.log.sends + [queue[0]],
                        delivered := s.log.delivered + (if ok then {queue[0].id} else {})))
    case MarkSent(w, wrote, threw) =>
      var queue := s.workers[w].queue;
      Put(s, w, if threw then Worker(queue, ToRecord) else Worker(queue[1..], ToSend))
        .(rows := if wrote then MarkSentRows(s.rows, queue[0].id, s.now) else s.rows)
    case Record(w, error) =>
      var queue := s.workers[w].queue;
      Put(s, w, Worker(queue[1..], ToSend))
        .(rows := if queue[0].attempts >= cfg.maxAttempts then MarkFailedRows(s.rows, queue[0].id, error)
                  else RecordRetryRows(s.rows, queue[0].id, error))
    case Stop(w) => s.(workers := s.workers - {w})
  }

  ghost predicate Run(cfg: Config, s: State, trace: seq<Action>, t: State)
    decreases |trace|
  {
    if trace == [] then s == t
    else Enabled(cfg, s, trace[0]) && Run(cfg, Step(cfg, s, trace[0]), trace[1..], t)
  }

  lemma {:induction false} RunThen(cfg: Config, s: State, trace: seq<Action>, t: State, a: Action)
    requires Run(cfg, s, trace, t) && Enabled(cfg, t, a)
    ensures Run(cfg, s, trace + [a], Step(cfg, t, a))
    decreases |trace|
  {
    if trace == [] {
      assert (trace + [a])[1..] == [];
    } else {
      assert (trace + [a])[1..] == trace[1..] + [a];
      RunThen(cfg, Step(cfg, s, trace[0]), trace[1..], t, a);
    }
  }

  lemma {:induction false} RunConcat(cfg: Config, s: State, a: seq<Action>, t: State, b: seq<Action>, u: State)
    requires Run(cfg, s, a, t) && Run(cfg, t, b, u)
    ensures Run(cfg, s, a + b, u)
    decreases |a|
  {
    if a == [] {
      assert a + b == b;
    } else {
      assert (a + b)[1..] == a[1..] + b;
      RunConcat(cfg, Step(cfg, s, a[0]), a[1..], t, b, u);
    }
  }

  // ---------- what every run keeps ----------

  /** A row against its history. */
  ghost predicate RowKept(cfg: Config, s: State, id: nat)
    requires id in s.rows
  {
    var row := s.rows[id];
    && id in s.log.claims
    && var claims := s.log.claims[id];
       && row.attempts == |claims|
       && (forall i | 0 <= i < |claims| :: claims[i] <= s.now)
       && (forall i | 0 <= i < |claims| - 1 :: claims[i] + Backoff(cfg, i) <= claims[i + 1])
       && row.nextAttempt == (if claims == [] then None else Some(claims[|claims| - 1] + Backoff(cfg, |claims| - 1)))
       && (row.status == Sent ==> id in s.log.delivered)
       && (row.status == Failed ==> row.attempts >= cfg.maxAttempts)
  }

  /** The job was returned by a claim. Its row may have been erased since. */
  predicate Issued(s: State, j: Job) {
    j.id in s.log.claims && 1 <= j.attempts <= |s.log.claims[j.id]|
  }

  ghost predicate QueueKept(s: State, w: nat)
    requires w in s.workers
  {
    var worker := s.workers[w];
    && (worker.queue == [] ==> worker.phase == ToSend)
    && (forall i | 0 <= i < |worker.queue| :: Issued(s, worker.queue[i]))
    && Distinct(worker.queue)
    && (forall i | 0 <= i < |worker.queue| && (i > 0 || worker.phase == ToSend) :: worker.queue[i] !in s.log.sends)
    && (worker.phase == ToMark ==> worker.queue[0].id in s.log.delivered)
  }

  /** No job is in two workers' hands. */
  ghost predicate Apart(s: State, v: nat, w: nat)
    requires v in s.workers && w in s.workers
  {
    forall j | j in s.workers[v].queue :: j !in s.workers[w].queue
  }

  ghost predicate Kept(cfg: Config, s: State) {
    && (forall id | id in s.rows :: RowKept(cfg, s, id))
    && (forall w | w in s.workers :: QueueKept(s, w))
    && (forall v, w | v in s.workers && w in s.workers && v != w :: Apart(s, v, w))
    && (forall i | 0 <= i < |s.log.sends| :: Issued(s, s.log.sends[i]))
    && Distinct(s.log.sends)
  }

  lemma StepKeepsRow(cfg: Config, s: State, a: Action, id: nat)
    requires Kept(cfg, s) && Enabled(cfg, s, a) && id in Step(cfg, s, a).rows
    ensures RowKept(cfg, Step(cfg, s, a), id)
  {
    hide Backoff, Apart, Kept, Due;
    if id in s.rows {
      KeptRow(cfg, s, id);
      match a
      case Claim(w, ids) =>
        hide Step;
        ClaimKeepsRow(cfg, s, w, ids, id);
      case MarkSent(w, wrote, threw) => KeptQueue(cfg, s, w);
      case Record(w, error) => KeptQueue(cfg, s, w);
      case _ =>
    }
  }

  lemma KeptRow(cfg: Config, s: State, id: nat)
    requires Kept(cfg, s) && id in s.rows
    ensures RowKept(cfg, s, id)
  {}

  lemma AttemptsAreClaims(cfg: Config, s: State, id: nat)
    requires Kept(cfg, s) && id in s.rows
    ensures id in s.log.claims && s.rows[id].attempts == |s.log.claims[id]|
  {
    assert RowKept(cfg, s, id);
  }

  lemma KeptQueue(cfg: Config, s: State, w: nat)
    requires Kept(cfg, s) && w in s.workers
    ensures QueueKept(s, w)
  {}

  lemma ClaimKeepsRow(cfg: Config, s: State, w: nat, ids: seq<nat>, id: nat)
    requires Enabled(cfg, s, Claim(w, ids)) && id in s.rows && RowKept(cfg, s, id)
    ensures RowKept(cfg, Step(cfg, s, Claim(w, ids)), id)
  {
    hide Backoff, Returning;
    var t := Step(cfg, s, Claim(w, ids));
    if id in ids {
      var claims := s.log.claims[id];
      assert t.log.claims[id] == claims + [s.now];
      assert t.rows[id] == Claimed(cfg, s.rows[id], s.now);
    } else {
      assert t.log.claims[id] == s.log.claims[id] + [] == s.log.claims[id];
      assert t.rows[id] == s.rows[id];
    }
  }

  lemma StepKeepsIssued(cfg: Config, s: State, a: Action, j: Job)
    requires Enabled(cfg, s, a) && Issued(s, j)
    ensures Issued(Step(cfg, s, a), j)
  {}

  lemma StepKeepsQueue(cfg: Config, s: State, a: Action, w: nat)
    requires Kept(cfg, s) && Enabled(cfg, s, a) && w in Step(cfg, s, a).workers
    ensures QueueKept(Step(cfg, s, a), w)
  {
    match a
    case Claim(v, ids) =>
      if v == w { ClaimKeepsQueue(cfg, s, w, ids); } else { SameQueueKept(cfg, s, a, w); }
      hide Enabled, Step, QueueKept;
    case Send(v, ok) =>
      SendKeepsQueue(cfg, s, v, ok, w);
      hide Enabled, Step, QueueKept;
    case _ => SameQueueKept(cfg, s, a, w);
  }

  /** A step that sends nothing leaves a queue as it is, drops its first job, or starts it
      empty. */
  lemma SameQueueKept(cfg: Config, s: State, a: Action, w: nat)
    requires Kept(cfg, s) && Enabled(cfg, s, a) && w in Step(cfg, s, a).workers
    requires !a.Send? && !(a.Claim? && a.w == w)
    ensures QueueKept(Step(cfg, s, a), w)
  {
    hide RowKept, Due, Backoff, Apart;
    forall j | Issued(s, j) ensures Issued(Step(cfg, s, a), j) { StepKeepsIssued(cfg, s, a, j); }
    if w in s.workers { KeptQueue(cfg, s, w); }
    hide Kept, Issued;
  }

  lemma SendKeepsQueue(cfg: Config, s: State, v: nat, ok: bool, w: nat)
    requires Kept(cfg, s) && Enabled(cfg, s, Send(v, ok)) && w in s.workers
    ensures QueueKept(Step(cfg, s, Send(v, ok)), w)
  {
    hide RowKept;
    KeptQueue(cfg, s, w);
    if w != v {
      assert Apart(s, v, w);
      assert s.workers[v].queue[0] in s.workers[v].queue;
    }
    hide Kept;
  }

  /** A claim returns counts above any issued before, so its jobs are new. */
  lemma ClaimIsNew(cfg: Config, s: State, w: nat, ids: seq<nat>)
    requires Kept(cfg, s) && Enabled(cfg, s, Claim(w, ids))
    ensures var t := Step(cfg, s, Claim(w, ids));
            forall i | 0 <= i < |ids| :: Issued(t, t.workers[w].queue[i]) && !Issued(s, t.workers[w].queue[i])
  {
    hide RowKept, QueueKept, Apart, Due, Backoff;
    var t := Step(cfg, s, Claim(w, ids));
    forall i | 0 <= i < |ids|
      ensures Issued(t, t.workers[w].queue[i]) && !Issued(s, t.workers[w].queue[i])
    {
      assert ids[i] in ids;
      AttemptsAreClaims(cfg, s, ids[i]);
    }
  }

  lemma ClaimKeepsQueue(cfg: Config, s: State, w: nat, ids: seq<nat>)
    requires Kept(cfg, s) && Enabled(cfg, s, Claim(w, ids))
    ensures QueueKept(Step(cfg, s, Claim(w, ids)), w)
  {
    hide RowKept, QueueKept, Apart, Due, Backoff;
    ClaimIsNew(cfg, s, w, ids);
    NewQueueKept(Step(cfg, s, Claim(w, ids)), w);
  }

  lemma NewQueueKept(t: State, w: nat)
    requires w in t.workers && t.workers[w].phase == ToSend
    requires Distinct(t.workers[w].queue)
    requires forall i | 0 <= i < |t.workers[w].queue| ::
               Issued(t, t.workers[w].queue[i]) && t.workers[w].queue[i] !in t.log.sends
    ensures QueueKept(t, w)
  {}

  lemma StepKeepsApart(cfg: Config, s: State, a: Action, v: nat, w: nat)
    requires Kept(cfg, s) && Enabled(cfg, s, a) && v != w
    requires v in Step(cfg, s, a).workers && w in Step(cfg, s, a).workers
    ensures Apart(Step(cfg, s, a), v, w)
  {
    if a.Claim? {
      ClaimIsNew(cfg, s, a.w, a.ids);
      KeptQueue(cfg, s, v);
      KeptQueue(cfg, s, w);
    }
    if v in s.workers && w in s.workers { assert Apart(s, v, w); }
    hide Kept, Issued, Due, ClaimRows;
  }

  lemma StepKeepsSends(cfg: Config, s: State, a: Action)
    requires Kept(cfg, s) && Enabled(cfg, s, a)
    ensures var t := Step(cfg, s, a);
            (forall i | 0 <= i < |t.log.sends| :: Issued(t, t.log.sends[i])) && Distinct(t.log.sends)
  {
    var t := Step(cfg, s, a);
    forall j | Issued(s, j) ensures Issued(t, j) { StepKeepsIssued(cfg, s, a, j); }
    if a.Send? { assert QueueKept(s, a.w); }
  }

  lemma StepKeeps(cfg: Config, s: State, a: Action)
    requires Kept(cfg, s) && Enabled(cfg, s, a)
    ensures Kept(cfg, Step(cfg, s, a))
  {
    hide Enabled, Step, RowKept, QueueKept, Apart, Issued;
    var t := Step(cfg, s, a);
    forall id | id in t.rows ensures RowKept(cfg, t, id) { StepKeepsRow(cfg, s, a, id); }
    forall w | w in t.workers ensures QueueKept(t, w) { StepKeepsQueue(cfg, s, a, w); }
    forall v, w | v in t.workers && w in t.workers && v != w ensures Apart(t, v, w) { StepKeepsApart(cfg, s, a, v, w); }
    StepKeepsSends(cfg, s, a);
  }

  lemma {:induction false} RunKeeps(cfg: Config, s: State, trace: seq<Action>, t: State)
    requires Kept(cfg, s) && Run(cfg, s, trace, t)
    ensures Kept(cfg, t)
    decreases |trace|
  {
    hide Kept, Enabled, Step;
    if trace != [] {
      StepKeeps(cfg, s, trace[0]);
      RunKeeps(cfg, Step(cfg, s, trace[0]), trace[1..], t);
    }
  }

  ghost predicate Reachable(cfg: Config, s: State) {
    exists trace :: Run(cfg, Init, trace, s)
  }

  lemma ReachableKept(cfg: Config, s: State)
    requires Reachable(cfg, s)
    ensures Kept(cfg, s)
  {
    var trace :| Run(cfg, Init, trace, s);
    RunKeeps(cfg, Init, trace, s);
  }
}
