/** What every run of the outbox guarantees, overlaps, crashes and slow workers
    included, and exactly when a sent row stays sent. */
module OutboxRuns {
  import opened Wrappers
  import opened Ordering
  import opened OutboxProtocol

  // ---------- counting ----------

  /** How often a message of the row was sent. */
  function SendsOf(sends: seq<Job>, id: nat): nat {
    if sends == [] then 0
    else SendsOf(sends[..|sends| - 1], id) + (if sends[|sends| - 1].id == id then 1 else 0)
  }

  lemma {:induction false} SendsAreCounts(sends: seq<Job>, id: nat) returns (counts: set<nat>)
    requires Distinct(sends)
    ensures |counts| == SendsOf(sends, id)
    ensures forall k :: k in counts <==> Job(id, k) in sends
  {
    if sends == [] {
      counts := {};
    } else {
      var n := |sends| - 1;
      var before, last := sends[..n], sends[n];
      assert sends == before + [last];
      counts := SendsAreCounts(before, id);
      if last.id == id {
        assert last.attempts !in counts by {
          assert forall i | 0 <= i < n :: before[i] != last;
        }
        counts := counts + {last.attempts};
      }
    }
  }

  lemma {:induction false} BoundedCounts(counts: set<nat>, n: nat)
    requires forall k | k in counts :: 1 <= k <= n
    ensures |counts| <= n
  {
    if n == 0 {
      assert counts == {};
    } else {
      BoundedCounts(counts - {n}, n - 1);
    }
  }

  /** The books of one row balance at every moment of every run: its attempts are its
      claims, it was sent at most once a claim, it is marked sent only after a send
      succeeded, and dead-lettered only with its attempts used up. */
  lemma RowAccounts(cfg: Config, s: State, id: nat)
    requires Reachable(cfg, s) && id in s.rows
    ensures id in s.log.claims && s.rows[id].attempts == |s.log.claims[id]|
    ensures SendsOf(s.log.sends, id) <= |s.log.claims[id]|
    ensures s.rows[id].status == Sent ==> id in s.log.delivered
    ensures s.rows[id].status == Failed ==> s.rows[id].attempts >= cfg.maxAttempts
  {
    ReachableKept(cfg, s);
    assert RowKept(cfg, s, id);
    var counts := SendsAreCounts(s.log.sends, id);
    forall k | k in counts ensures 1 <= k <= s.rows[id].attempts {
      assert Job(id, k) in s.log.sends;
      assert Issued(s, Job(id, k));
    }
    BoundedCounts(counts, s.rows[id].attempts);
  }

  /** A row counts as delivered only through a send of one of its jobs that succeeded. */
  lemma {:induction false} DeliveredWasSent(cfg: Config, s: State, trace: seq<Action>, t: State, id: nat)
    returns (before: State, w: nat)
    requires Run(cfg, s, trace, t) && id !in s.log.delivered && id in t.log.delivered
    ensures Busy(before, w, ToSend) && before.workers[w].queue[0].id == id
    ensures exists i | 0 <= i < |trace| :: trace[i] == Send(w, true) && Run(cfg, s, trace[..i], before)
    decreases |trace|
  {
    var next := Step(cfg, s, trace[0]);
    if id in next.log.delivered {
      before, w := s, trace[0].w;
      assert trace[..0] == [];
      assert trace[0] == Send(w, true) && Run(cfg, s, trace[..0], before);
    } else {
      before, w := DeliveredWasSent(cfg, next, trace[1..], t, id);
      var i :| 0 <= i < |trace[1..]| && trace[1..][i] == Send(w, true) && Run(cfg, next, trace[1..][..i], before);
      assert trace[..i + 1][1..] == trace[1..][..i];
      assert trace[i + 1] == Send(w, true) && Run(cfg, s, trace[..i + 1], before);
    }
  }

  // ---------- nothing is lost ----------

  ghost predicate Erases(trace: seq<Action>, id: nat) {
    exists i | 0 <= i < |trace| :: trace[i].Erase? && id in trace[i].gone
  }

  lemma ErasesFirst(trace: seq<Action>, id: nat)
    requires trace != []
    ensures Erases(trace, id) <==> (trace[0].Erase? && id in trace[0].gone) || Erases(trace[1..], id)
  {
    if Erases(trace[1..], id) {
      var i :| 0 <= i < |trace[1..]| && trace[1..][i].Erase? && id in trace[1..][i].gone;
      assert trace[i + 1] == trace[1..][i];
    }
    if Erases(trace, id) && !(trace[0].Erase? && id in trace[0].gone) {
      var i :| 0 <= i < |trace| && trace[i].Erase? && id in trace[i].gone;
      assert trace[1..][i - 1] == trace[i];
    }
  }

  /** A row goes only with its account. While it is there its attempts only grow, and once
      settled it is never pending again. */
  lemma {:induction false} NoRowLost(cfg: Config, s: State, trace: seq<Action>, t: State, id: nat)
    requires Run(cfg, s, trace, t) && id in s.rows && id in s.log.claims
    ensures id in t.rows <==> !Erases(trace, id)
    ensures id in t.rows ==> Onward(s.rows[id], t.rows[id])
    decreases |trace|
  {
    if trace != [] {
      var u := Step(cfg, s, trace[0]);
      StepLosesNothing(cfg, s, trace[0], id);
      ErasesFirst(trace, id);
      hide Step, Enabled, Erases;
      if id in u.rows {
        NoRowLost(cfg, u, trace[1..], t, id);
      } else {
        StaysErased(cfg, u, trace[1..], t, id);
      }
    }
  }

  predicate Onward(a: Row, b: Row) {
    b.attempts >= a.attempts && (a.status != Pending ==> b.status != Pending && b.attempts == a.attempts)
  }

  lemma StepLosesNothing(cfg: Config, s: State, a: Action, id: nat)
    requires Enabled(cfg, s, a) && id in s.rows && id in s.log.claims
    ensures var t := Step(cfg, s, a);
            && id in t.log.claims && (id in t.rows <==> !(a.Erase? && id in a.gone))
            && (id in t.rows ==> Onward(s.rows[id], t.rows[id]))
  {}

  lemma {:induction false} StaysErased(cfg: Config, s: State, trace: seq<Action>, t: State, id: nat)
    requires Run(cfg, s, trace, t) && id in s.log.claims && id !in s.rows
    ensures id !in t.rows
    decreases |trace|
  {
    if trace != [] {
      StaysErased(cfg, Step(cfg, s, trace[0]), trace[1..], t, id);
    }
  }

  // ---------- whether a sent row stays sent ----------

  /** The worker holds a job of the row with its count at the maximum. */
  ghost predicate HoldsLast(cfg: Config, worker: Worker, id: nat) {
    exists j | j in worker.queue :: j.id == id && j.attempts >= cfg.maxAttempts
  }

  ghost predicate Threatened(cfg: Config, s: State, id: nat) {
    exists w | w in s.workers :: HoldsLast(cfg, s.workers[w], id)
  }

  /** In every continuation the row, while it is there, is sent. */
  ghost predicate StaysSent(cfg: Config, s: State, id: nat) {
    forall trace, t | Run(cfg, s, trace, t) && id in t.rows :: t.rows[id].status == Sent
  }

  ghost predicate Safe(cfg: Config, s: State, id: nat) {
    id in s.log.claims && !Threatened(cfg, s, id) && (id in s.rows ==> s.rows[id].status == Sent)
  }

  /** A row that is sent is not claimed again, so no job of it is handed out. */
  lemma StepKeepsSafe(cfg: Config, s: State, a: Action, id: nat)
    requires Safe(cfg, s, id) && Enabled(cfg, s, a)
    ensures Safe(cfg, Step(cfg, s, a), id)
  {
    if a.Record? && id == s.workers[a.w].queue[0].id {
      assert s.workers[a.w].queue[0] in s.workers[a.w].queue;
      assert !HoldsLast(cfg, s.workers[a.w], id);
    }
  }

  lemma {:induction false} RunKeepsSafe(cfg: Config, s: State, trace: seq<Action>, t: State, id: nat)
    requires Safe(cfg, s, id) && Run(cfg, s, trace, t)
    ensures Safe(cfg, t, id)
    decreases |trace|
  {
    hide Safe, Step, Enabled;
    if trace != [] {
      StepKeepsSafe(cfg, s, trace[0], id);
      RunKeepsSafe(cfg, Step(cfg, s, trace[0]), trace[1..], t, id);
    }
  }

  /** A worker may fail at the job it is on, wherever it stands with it. */
  lemma FailFirst(cfg: Config, s: State, w: nat) returns (trace: seq<Action>, t: State)
    requires w in s.workers && s.workers[w].queue != []
    ensures Run(cfg, s, trace, t)
    ensures t.workers == s.workers[w := Worker(s.workers[w].queue[1..], ToSend)]
    ensures var j := s.workers[w].queue[0];
            t.rows == if j.attempts >= cfg.maxAttempts then MarkFailedRows(s.rows, j.id, "")
                      else RecordRetryRows(s.rows, j.id, "")
  {
    trace, t := [], s;
    if s.workers[w].phase != ToRecord {
      var a := if s.workers[w].phase == ToSend then Send(w, false) else MarkSent(w, false, true);
      RunThen(cfg, s, trace, t, a);
      trace, t := trace + [a], Step(cfg, t, a);
    }
    assert t.rows == s.rows && t.workers == s.workers[w := Worker(s.workers[w].queue, ToRecord)];
    RunThen(cfg, s, trace, t, Record(w, ""));
    trace, t := trace + [Record(w, "")], Step(cfg, t, Record(w, ""));
  }

  lemma {:induction false} FailUntil(cfg: Config, s: State, w: nat, i: nat) returns (trace: seq<Action>, t: State)
    requires w in s.workers && i < |s.workers[w].queue| && s.workers[w].queue[i].id in s.rows
    requires s.workers[w].queue[i].attempts >= cfg.maxAttempts
    ensures Run(cfg, s, trace, t)
    ensures var id := s.workers[w].queue[i].id; id in t.rows && t.rows[id].status == Failed
    decreases i
  {
    trace, t := FailFirst(cfg, s, w);
    if i > 0 {
      hide Run, Step, Enabled;
      assert t.workers[w].queue[i - 1] == s.workers[w].queue[i];
      var more, u := FailUntil(cfg, t, w, i - 1);
      RunConcat(cfg, s, trace, t, more, u);
      trace, t := trace + more, u;
    }
  }

  /** "A sent row stays sent" holds in exactly those states in which no worker has the
      row's last attempt in hand: the update that dead-letters has no status guard. */
  lemma SentStaysExactlyWhen(cfg: Config, s: State, id: nat)
    requires Reachable(cfg, s) && id in s.rows && s.rows[id].status == Sent
    ensures StaysSent(cfg, s, id) <==> !Threatened(cfg, s, id)
  {
    ReachableKept(cfg, s);
    AttemptsAreClaims(cfg, s, id);
    hide Kept, Run, Step, Enabled;
    if Threatened(cfg, s, id) {
      var w :| w in s.workers && HoldsLast(cfg, s.workers[w], id);
      var j :| j in s.workers[w].queue && j.id == id && j.attempts >= cfg.maxAttempts;
      var i :| 0 <= i < |s.workers[w].queue| && s.workers[w].queue[i] == j;
      var trace, t := FailUntil(cfg, s, w, i);
    } else {
      forall trace, t | Run(cfg, s, trace, t) && id in t.rows ensures t.rows[id].status == Sent {
        RunKeepsSafe(cfg, s, trace, t, id);
      }
    }
  }

  // ---------- runs without a crash ----------

  /** Workers overlap as they please, and stop only with nothing in hand. */
  ghost predicate OrderlyRun(cfg: Config, s: State, trace: seq<Action>, t: State)
    decreases |trace|
  {
    if trace == [] then s == t
    else
      && Enabled(cfg, s, trace[0])
      && (trace[0].Stop? ==> s.workers[trace[0].w].queue == [])
      && OrderlyRun(cfg, Step(cfg, s, trace[0]), trace[1..], t)
  }

  ghost predicate InHand(s: State, j: Job) {
    exists w | w in s.workers :: j in s.workers[w].queue
  }

  /** The row was claimed, and for the last time. */
  predicate UsedUp(cfg: Config, row: Row) {
    row.attempts > 0 && row.attempts >= cfg.maxAttempts
  }

  ghost predicate NoneForgotten(cfg: Config, s: State) {
    forall id | id in s.rows && s.rows[id].status == Pending && UsedUp(cfg, s.rows[id]) ::
      InHand(s, Job(id, s.rows[id].attempts))
  }

  lemma StepForgetsNone(cfg: Config, s: State, a: Action)
    requires NoneForgotten(cfg, s) && Enabled(cfg, s, a)
    requires a.Stop? ==> s.workers[a.w].queue == []
    ensures NoneForgotten(cfg, Step(cfg, s, a))
  {
    var t := Step(cfg, s, a);
    forall id | id in t.rows && t.rows[id].status == Pending && UsedUp(cfg, t.rows[id])
      ensures InHand(t, Job(id, t.rows[id].attempts))
    {
      var j := Job(id, t.rows[id].attempts);
      if a.Claim? && id in a.ids {
        var i :| 0 <= i < |a.ids| && a.ids[i] == id;
        assert t.workers[a.w].queue[i] == j;
      } else {
        assert InHand(s, j);
        var w :| w in s.workers && j in s.workers[w].queue;
        assert w in t.workers && j in t.workers[w].queue;
      }
    }
  }

  /** However workers overlap, as long as none is cut short: a row that is still pending
      with its attempts used up is in the hands of the worker on its last attempt. Once
      all hands are empty there is no such row. */
  lemma {:induction false} PendingIsInHand(cfg: Config, s: State, trace: seq<Action>, t: State)
    requires NoneForgotten(cfg, s) && OrderlyRun(cfg, s, trace, t)
    ensures NoneForgotten(cfg, t)
    ensures (forall w | w in t.workers :: t.workers[w].queue == []) ==>
              forall id | id in t.rows && t.rows[id].status == Pending :: !UsedUp(cfg, t.rows[id])
    decreases |trace|
  {
    if trace == [] {
      assert forall id, k | InHand(t, Job(id, k)) :: exists w | w in t.workers :: t.workers[w].queue != [];
    } else {
      hide NoneForgotten, Step, Enabled, InHand;
      StepForgetsNone(cfg, s, trace[0]);
      PendingIsInHand(cfg, Step(cfg, s, trace[0]), trace[1..], t);
    }
  }

  // ---------- spacing of the attempts ----------

  lemma PowersOfTwo(k: nat)
    ensures Pow2(0) == 1 && Pow2(k + 1) == 2 * Pow2(k)
  {}

  /** The smaller of `base * 2^i` and the cap: the wait after the claim numbered `i`, from 0. */
  function Wait(cfg: Config, i: nat): nat {
    if cfg.base * Pow2(i) < cfg.cap then cfg.base * Pow2(i) else cfg.cap
  }

  /** Whoever makes them, a claim of a row comes at least the smaller of `base * 2^i` and the
      cap after the claim before it, `i` counting from 0; and a claimed row is next due at
      exactly its last claim plus that wait. */
  lemma ClaimsFollowBackoff(cfg: Config, s: State, id: nat)
    requires Reachable(cfg, s) && id in s.rows
    ensures id in s.log.claims
    ensures var claims := s.log.claims[id];
            && (forall i | 0 <= i < |claims| - 1 ::
                  claims[i + 1] - claims[i] >= if cfg.base * Pow2(i) < cfg.cap then cfg.base * Pow2(i) else cfg.cap)
            && s.rows[id].nextAttempt ==
                 if claims == [] then None
                 else
                   var last, d := |claims| - 1, cfg.base * Pow2(|claims| - 1);
                   Some(claims[last] + if d < cfg.cap then d else cfg.cap)
  {
    ReachableKept(cfg, s);
    assert RowKept(cfg, s, id);
    hide Pow2;
    var claims := s.log.claims[id];
    forall i | 0 <= i < |claims| - 1
      ensures claims[i + 1] - claims[i] >= if cfg.base * Pow2(i) < cfg.cap then cfg.base * Pow2(i) else cfg.cap
    {
      assert claims[i] + Backoff(cfg, i) <= claims[i + 1];
    }
  }

  /** An idle worker may claim a row exactly while it is pending and has never been claimed
      or has waited that long since its last claim. */
  lemma ClaimableExactlyWhen(cfg: Config, s: State, id: nat, w: nat)
    requires Reachable(cfg, s) && id in s.rows && cfg.batch > 0
    requires w in s.workers && s.workers[w] == Worker([], ToSend)
    ensures id in s.log.claims
    ensures Enabled(cfg, s, Claim(w, [id])) <==>
              var claims := s.log.claims[id];
              && s.rows[id].status == Pending
              && (claims != [] ==> claims[|claims| - 1] + Wait(cfg, |claims| - 1) <= s.now)
  {
    ClaimsFollowBackoff(cfg, s, id);
    hide Reachable, Pow2;
  }

  /** The sum of the first `k` waits. */
  function Delays(cfg: Config, k: nat): nat {
    if k == 0 then 0 else Delays(cfg, k - 1) + Wait(cfg, k - 1)
  }

  /** Two claims of a row, by whichever workers, are at least the waits between them
      apart; and a row still pending comes due again at most the cap after its last claim. */
  lemma ClaimsAreSpaced(cfg: Config, s: State, id: nat)
    requires Reachable(cfg, s) && id in s.rows
    ensures id in s.log.claims
    ensures forall i, k | 0 <= i <= k < |s.log.claims[id]| ::
              s.log.claims[id][k] - s.log.claims[id][i] >= Delays(cfg, k) - Delays(cfg, i)
    ensures var claims := s.log.claims[id];
            match s.rows[id].nextAttempt
            case None => claims == []
            case Some(due) => claims != [] && claims[|claims| - 1] <= s.now && due <= claims[|claims| - 1] + cfg.cap
  {
    ReachableKept(cfg, s);
    assert RowKept(cfg, s, id);
    var claims := s.log.claims[id];
    forall i, k | 0 <= i <= k < |claims| ensures claims[k] - claims[i] >= Delays(cfg, k) - Delays(cfg, i) {
      SpacedUpTo(cfg, claims, i, k);
    }
  }

  lemma {:induction false} SpacedUpTo(cfg: Config, claims: seq<int>, i: nat, k: nat)
    requires i <= k < |claims|
    requires forall j | 0 <= j < |claims| - 1 :: claims[j] + Backoff(cfg, j) <= claims[j + 1]
    ensures claims[k] - claims[i] >= Delays(cfg, k) - Delays(cfg, i)
  {
    if i < k {
      SpacedUpTo(cfg, claims, i, k - 1);
      assert claims[k - 1] + Backoff(cfg, k - 1) <= claims[k - 1 + 1];
    }
  }

  /** While the cap has not been reached the delays add up to `base * (2^k - 1)`. */
  lemma {:induction false} UncappedDelays(cfg: Config, k: nat)
    requires k > 0 ==> cfg.base * Pow2(k - 1) <= cfg.cap
    ensures Delays(cfg, k) == cfg.base * (Pow2(k) - 1)
  {
    if k > 0 {
      if k > 1 { Doubling(cfg.base, Pow2(k - 2)); }
      UncappedDelays(cfg, k - 1);
      SplitProduct(cfg.base, Pow2(k - 1));
    }
  }

  lemma Doubling(b: nat, p: nat)
    ensures b * p <= b * (2 * p)
  {}

  lemma SplitProduct(b: nat, p: nat)
    ensures b * (p - 1) + b * p == b * (2 * p - 1)
  {}
}
