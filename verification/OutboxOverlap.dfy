/** Runs in which a message that was delivered and marked sent is dead-lettered. */
module OutboxOverlap {
  import opened Wrappers
  import opened OutboxProtocol

  const CFG := Config(1, 60, 3600, 2)

  function Fresh(status: Status, attempts: nat, next: Option<int>, sent: Option<int>): Row {
    Row(status, attempts, next, sent, None)
  }

  /** Each worker holds one claim of row 7; the second one's is its last attempt. */
  lemma BothClaim() returns (s: State, trace: seq<Action>)
    ensures Run(CFG, Init, trace, s)
    ensures s.now == 60 && s.rows == map[7 := Fresh(Pending, 2, Some(180), None)]
    ensures s.workers == map[1 := Worker([Job(7, 1)], ToSend), 2 := Worker([Job(7, 2)], ToSend)]
  {
    var s1, t1 := TwoWorkers();
    var a := Claim(1, [7]);
    assert Pow2(0) == 1 && Pow2(1) == 2;
    var s2 := Step(CFG, s1, a);
    assert s2.rows[7] == Fresh(Pending, 1, Some(60), None);
    assert Returning(s2.rows, [7]) == [Job(7, 1)];
    assert s2.workers == map[1 := Worker([Job(7, 1)], ToSend), 2 := Worker([], ToSend)];
    RunThen(CFG, Init, t1, s1, a);
    var s3 := Step(CFG, s2, Tick(60));
    RunThen(CFG, Init, t1 + [a], s2, Tick(60));
    var b := Claim(2, [7]);
    s := Step(CFG, s3, b);
    assert s.rows[7] == Fresh(Pending, 2, Some(180), None);
    assert Returning(s.rows, [7]) == [Job(7, 2)];
    RunThen(CFG, Init, t1 + [a] + [Tick(60)], s3, b);
    trace := t1 + [a] + [Tick(60)] + [b];
    assert s.workers == map[1 := Worker([Job(7, 1)], ToSend), 2 := Worker([Job(7, 2)], ToSend)];
  }

  lemma TwoWorkers() returns (s: State, trace: seq<Action>)
    ensures Run(CFG, Init, trace, s)
    ensures s.now == 0 && s.rows == map[7 := Fresh(Pending, 0, None, None)]
    ensures s.workers == map[1 := Worker([], ToSend), 2 := Worker([], ToSend)]
    ensures 7 in s.log.claims
  {
    var s0 := Step(CFG, Init, Enqueue(7));
    RunThen(CFG, Init, [], Init, Enqueue(7));
    var s1 := Step(CFG, s0, Start(1));
    RunThen(CFG, Init, [Enqueue(7)], s0, Start(1));
    assert [] + [Enqueue(7)] == [Enqueue(7)];
    s := Step(CFG, s1, Start(2));
    trace := [Enqueue(7)] + [Start(1)];
    RunThen(CFG, Init, trace, s1, Start(2));
    trace := trace + [Start(2)];
  }

  /** The step turns a sent row into a failed one. */
  predicate DeadLetters(cfg: Config, s: State, a: Action, id: nat)
    requires Enabled(cfg, s, a)
  {
    var t := Step(cfg, s, a);
    && id in s.rows && s.rows[id].status == Sent && id in s.log.delivered
    && id in t.rows && t.rows[id].status == Failed
  }

  /** The second worker's send has failed, and the first one's has succeeded. */
  lemma BothSend() returns (s: State, trace: seq<Action>)
    ensures Run(CFG, Init, trace, s) && 7 in s.log.delivered
    ensures s.rows == map[7 := Fresh(Pending, 2, Some(180), None)]
    ensures s.workers == map[1 := Worker([Job(7, 1)], ToMark), 2 := Worker([Job(7, 2)], ToRecord)]
  {
    var s0, t0 := BothClaim();
    var s1 := Step(CFG, s0, Send(2, false));
    RunThen(CFG, Init, t0, s0, Send(2, false));
    s := Step(CFG, s1, Send(1, true));
    RunThen(CFG, Init, t0 + [Send(2, false)], s1, Send(1, true));
    trace := t0 + [Send(2, false)] + [Send(1, true)];
    hide Run;
    assert s.workers[1] == Worker([Job(7, 1)], ToMark) && s.workers[2] == Worker([Job(7, 2)], ToRecord);
  }

  /** "A sent row stays sent" is false: the worker that was slow to record its failed
      last attempt overwrites the status another worker has set. */
  lemma SentRowCanBeDeadLettered()
    ensures exists s, a :: Reachable(CFG, s) && Enabled(CFG, s, a) && DeadLetters(CFG, s, a, 7)
  {
    var s, trace := BothSend();
    var s1 := Step(CFG, s, MarkSent(1, true, false));
    RunThen(CFG, Init, trace, s, MarkSent(1, true, false));
    assert Reachable(CFG, s1);
    assert s1.workers[2] == Worker([Job(7, 2)], ToRecord);
    hide Reachable, Run;
    assert DeadLetters(CFG, s1, Record(2, "bounced"), 7);
  }

  const ONE_ATTEMPT := Config(1, 60, 3600, 1)

  lemma OneClaims() returns (s: State, trace: seq<Action>)
    ensures Run(ONE_ATTEMPT, Init, trace, s)
    ensures s.rows == map[7 := Fresh(Pending, 1, Some(60), None)]
    ensures s.workers == map[1 := Worker([Job(7, 1)], ToSend)]
  {
    var cfg := ONE_ATTEMPT;
    var s0 := Step(cfg, Init, Enqueue(7));
    RunThen(cfg, Init, [], Init, Enqueue(7));
    var s1 := Step(cfg, s0, Start(1));
    RunThen(cfg, Init, [] + [Enqueue(7)], s0, Start(1));
    trace := [] + [Enqueue(7)] + [Start(1)];
    assert Pow2(0) == 1;
    s := Step(cfg, s1, Claim(1, [7]));
    RunThen(cfg, Init, trace, s1, Claim(1, [7]));
    trace := trace + [Claim(1, [7])];
    assert s.rows[7] == Fresh(Pending, 1, Some(60), None);
    assert Returning(s.rows, [7]) == [Job(7, 1)];
  }

  /** Overlap is not needed. On its last attempt, a lone worker whose `markSent` reaches
      the table but comes back as an error dead-letters the message it has delivered. */
  lemma LoneWorkerDeadLetters()
    ensures exists s, a :: Reachable(ONE_ATTEMPT, s) && Enabled(ONE_ATTEMPT, s, a) && |s.workers| == 1
                           && DeadLetters(ONE_ATTEMPT, s, a, 7)
  {
    var cfg := ONE_ATTEMPT;
    var s, trace := OneClaims();
    var s1 := Step(cfg, s, Send(1, true));
    RunThen(cfg, Init, trace, s, Send(1, true));
    var s2 := Step(cfg, s1, MarkSent(1, true, true));
    RunThen(cfg, Init, trace + [Send(1, true)], s1, MarkSent(1, true, true));
    assert Reachable(cfg, s2);
    assert s2.workers == map[1 := Worker([Job(7, 1)], ToRecord)];
    hide Reachable, Run;
    assert DeadLetters(cfg, s2, Record(1, "connection lost"), 7);
  }
}
