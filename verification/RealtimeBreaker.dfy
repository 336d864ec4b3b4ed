/** supabase-realtime.publisher.ts: the circuit breaker around the broadcast. Instants
    are milliseconds since 1970. */
module RealtimeBreaker {
  import opened Numbers

  const BREAKER_THRESHOLD := 3
  const BREAKER_OPEN_MS := 30_000

  /** `openUntil` is 0 while the breaker is closed. */
  datatype Breaker = Breaker(failures: nat, openUntil: int)

  predicate Skips(b: Breaker, now: int) { b.openUntil > now }

  function Closed(): Breaker { Breaker(0, 0) }

  function Failed(b: Breaker, now: int): Breaker {
    Breaker(b.failures + 1, if b.failures + 1 >= BREAKER_THRESHOLD then now + BREAKER_OPEN_MS else b.openUntil)
  }

  // ---------- any interleaving ----------

  /** A fetch began at `at`, when the breaker was open until `openUntil`. */
  datatype Start = Start(at: int, openUntil: int)

  /** Publishes overlap: `inFlight` fetches have started and not finished. `fetches`
      counts those started since the last success, which was at `since`. */
  datatype State = State(
    now: int,
    breaker: Breaker,
    inFlight: nat,
    starts: seq<Start>,
    fetches: nat,
    since: int,
    lastFailure: int)

  datatype Event = Tick(d: nat) | Publish | Finished(ok: bool)

  predicate Enabled(s: State, e: Event) {
    e.Finished? ==> s.inFlight > 0
  }

  function Step(s: State, e: Event): State
    requires Enabled(s, e)
  {
    match e
    case Tick(d) => s.(now := s.now + d)
    case Publish =>
      if Skips(s.breaker, s.now) then s
      else
        s.(inFlight := s.inFlight + 1,
           starts := s.starts + [Start(s.now, s.breaker.openUntil)],
           fetches := s.fetches + 1)
    case Finished(true) => s.(inFlight := s.inFlight - 1, breaker := Closed(), fetches := 0, since := s.now)
    case Finished(false) =>
      s.(inFlight := s.inFlight - 1, breaker := Failed(s.breaker, s.now), lastFailure := s.now)
  }

  function Begin(now: int): State {
    State(now, Closed(), 0, [], 0, now, now)
  }

  /** A run in which at most `c` fetches are ever in flight together. */
  ghost predicate RunWithin(c: nat, s: State, events: seq<Event>, t: State)
    decreases |events|
  {
    && s.inFlight <= c
    && if events == [] then s == t
       else Enabled(s, events[0]) && RunWithin(c, Step(s, events[0]), events[1..], t)
  }

  ghost predicate Kept(s: State) {
    && s.now > 0 && s.lastFailure <= s.now
    && s.breaker.openUntil == (if s.breaker.failures >= BREAKER_THRESHOLD then s.lastFailure + BREAKER_OPEN_MS else 0)
    && forall i | 0 <= i < |s.starts| :: s.starts[i].openUntil <= s.starts[i].at
  }

  lemma {:induction false} RunKeeps(c: nat, s: State, events: seq<Event>, t: State)
    requires Kept(s) && RunWithin(c, s, events, t)
    ensures Kept(t)
    decreases |events|
  {
    if events != [] { RunKeeps(c, Step(s, events[0]), events[1..], t); }
  }

  /** However publishes overlap, they are skipped exactly in the 30 s after a third or
      later failure in a row, and no fetch started before the breaker allowed it. */
  lemma BreakerKept(c: nat, start: int, events: seq<Event>, t: State)
    requires start > 0 && RunWithin(c, Begin(start), events, t)
    ensures Skips(t.breaker, t.now) <==>
              t.breaker.failures >= 3 && t.now < t.lastFailure + 30_000
    ensures forall i | 0 <= i < |t.starts| :: t.starts[i].openUntil <= t.starts[i].at
  {
    RunKeeps(c, Begin(start), events, t);
  }

  // ---------- how many fetches an outage costs ----------

  /** The most fetches since the last success, `elapsed` ms ago. */
  function Bound(c: nat, elapsed: int): int {
    BREAKER_THRESHOLD - 1 + c + c * (elapsed / BREAKER_OPEN_MS)
  }

  lemma BoundGrows(c: nat, x: int, y: int)
    requires x <= y
    ensures Bound(c, x) <= Bound(c, y)
    ensures Bound(c, x + BREAKER_OPEN_MS) == Bound(c, x) + c
    ensures x >= 0 ==> Bound(c, x) >= BREAKER_THRESHOLD - 1 + c
  {
    var p, q := x / BREAKER_OPEN_MS, y / BREAKER_OPEN_MS;
    assert (x + BREAKER_OPEN_MS) / BREAKER_OPEN_MS == p + 1;
    MulMonotone(c, p, q);
    if x >= 0 { MulMonotone(c, 0, p); }
    assert c * (p + 1) == c * p + c;
  }

  /** Fetches started up to the last failure are within the bound for that moment; those
      started since are in flight, and began only once the breaker's 30 s were over. */
  predicate Budget(c: nat, s: State) {
    && s.now >= s.since
    && if s.breaker.failures < BREAKER_THRESHOLD then
         s.breaker.openUntil <= s.now && s.fetches <= s.inFlight + s.breaker.failures
       else
         && s.since <= s.lastFailure <= s.now && s.breaker.openUntil == s.lastFailure + BREAKER_OPEN_MS
         && s.fetches <= Bound(c, s.lastFailure - s.since) + (if s.now >= s.breaker.openUntil then s.inFlight else 0)
  }

  lemma WithinBudget(c: nat, s: State)
    requires Budget(c, s) && s.inFlight <= c
    ensures s.fetches <= Bound(c, s.now - s.since)
    ensures s.breaker.failures < BREAKER_THRESHOLD ==> s.fetches <= c + s.breaker.failures
  {
    hide Bound;
    BoundGrows(c, 0, s.now - s.since);
    if s.breaker.failures >= BREAKER_THRESHOLD {
      BoundGrows(c, s.lastFailure - s.since, s.now - s.since);
      if s.now >= s.breaker.openUntil {
        BoundGrows(c, s.lastFailure - s.since + BREAKER_OPEN_MS, s.now - s.since);
      }
    }
  }

  lemma StepInBudget(c: nat, s: State, e: Event)
    requires Budget(c, s) && Enabled(s, e) && s.inFlight <= c && s.now > 0
    ensures Budget(c, Step(s, e))
  {
    WithinBudget(c, s);
    BoundGrows(c, 0, s.now - s.since);
    hide Bound;
  }

  lemma {:induction false} RunInBudget(c: nat, s: State, events: seq<Event>, t: State)
    requires Budget(c, s) && s.now > 0 && RunWithin(c, s, events, t)
    ensures Budget(c, t) && t.inFlight <= c
    decreases |events|
  {
    hide Budget;
    if events != [] {
      StepInBudget(c, s, events[0]);
      RunInBudget(c, Step(s, events[0]), events[1..], t);
    }
  }

  /** With at most `c` fetches in flight together, those made since the last success are at
      most `2 + c`, and `c` more for every full 30 s since. Publishing one at a time that is
      three, and one more for every 30 s. */
  lemma FetchesBounded(c: nat, start: int, events: seq<Event>, t: State)
    requires start > 0 && RunWithin(c, Begin(start), events, t)
    ensures t.fetches <= 2 + c + c * ((t.now - t.since) / 30_000)
  {
    RunInBudget(c, Begin(start), events, t);
    WithinBudget(c, t);
  }

  // ---------- the bound is reached ----------

  lemma {:induction false} Then(c: nat, s: State, a: seq<Event>, t: State, b: seq<Event>, u: State)
    requires RunWithin(c, s, a, t) && RunWithin(c, t, b, u)
    ensures RunWithin(c, s, a + b, u)
    decreases |a|
  {
    if a == [] {
      assert a + b == b;
    } else {
      assert (a + b)[1..] == a[1..] + b;
      Then(c, Step(s, a[0]), a[1..], t, b, u);
    }
  }

  lemma One(c: nat, s: State, e: Event)
    requires s.inFlight <= c && Enabled(s, e) && Step(s, e).inFlight <= c
    ensures RunWithin(c, s, [e], Step(s, e))
  {
    assert [e][1..] == [];
    assert RunWithin(c, Step(s, e), [], Step(s, e));
  }

  lemma {:induction false} PublishMany(c: nat, s: State, n: nat) returns (events: seq<Event>, t: State)
    requires !Skips(s.breaker, s.now) && s.inFlight + n <= c
    ensures RunWithin(c, s, events, t)
    ensures t == s.(inFlight := s.inFlight + n, starts := t.starts, fetches := s.fetches + n)
    decreases n
  {
    events, t := [], s;
    if n > 0 {
      One(c, s, Publish);
      var more;
      more, t := PublishMany(c, Step(s, Publish), n - 1);
      Then(c, s, [Publish], Step(s, Publish), more, t);
      events := [Publish] + more;
    }
  }

  lemma {:induction false} FailMany(c: nat, s: State, n: nat) returns (events: seq<Event>, t: State)
    requires n <= s.inFlight <= c
    ensures RunWithin(c, s, events, t)
    ensures t == s.(inFlight := s.inFlight - n, breaker := t.breaker, lastFailure := t.lastFailure)
    ensures t.breaker.failures == s.breaker.failures + n
    ensures n > 0 && t.breaker.failures >= BREAKER_THRESHOLD ==> t.breaker.openUntil == s.now + BREAKER_OPEN_MS
    ensures t.breaker.failures < BREAKER_THRESHOLD || n == 0 ==> t.breaker.openUntil == s.breaker.openUntil
    decreases n
  {
    events, t := [], s;
    if n > 0 {
      var u := Step(s, Finished(false));
      One(c, s, Finished(false));
      var more;
      more, t := FailMany(c, u, n - 1);
      Then(c, s, [Finished(false)], u, more, t);
      events := [Finished(false)] + more;
    }
  }

  /** Ready for the next round: all slots taken, none of the fetches finished. */
  predicate Saturated(c: nat, s: State, start: int, n: nat) {
    && s.inFlight == c && s.breaker.failures >= BREAKER_THRESHOLD - 1
    && s.fetches == n && s.since == start
  }

  /** Two fail before the third failure, and all the slots are filled again. */
  lemma FirstRound(c: nat, start: int) returns (events: seq<Event>, t: State)
    requires c > 0 && start > 0
    ensures RunWithin(c, Begin(start), events, t) && Saturated(c, t, start, BREAKER_THRESHOLD - 1 + c) && t.now == start
  {
    var s := Begin(start);
    var e1, s1 := PublishMany(c, s, c);
    var e2, s2 := FailMany(c, s1, 1);
    var e3, s3 := PublishMany(c, s2, 1);
    var e4, s4 := FailMany(c, s3, 1);
    var e5, s5 := PublishMany(c, s4, 1);
    hide RunWithin;
    Then(c, s, e1, s1, e2, s2);
    Then(c, s, e1 + e2, s2, e3, s3);
    Then(c, s, e1 + e2 + e3, s3, e4, s4);
    Then(c, s, e1 + e2 + e3 + e4, s4, e5, s5);
    events, t := e1 + e2 + e3 + e4 + e5, s5;
  }

  /** All fail, the 30 s pass, and as many start again. */
  lemma NextRound(c: nat, s: State, start: int, n: nat) returns (events: seq<Event>, t: State)
    requires c > 0 && Saturated(c, s, start, n)
    ensures RunWithin(c, s, events, t) && Saturated(c, t, start, n + c) && t.now == s.now + BREAKER_OPEN_MS
  {
    var e1, s1 := FailMany(c, s, c);
    var s2 := Step(s1, Tick(BREAKER_OPEN_MS));
    One(c, s1, Tick(BREAKER_OPEN_MS));
    var e3, s3 := PublishMany(c, s2, c);
    hide RunWithin;
    Then(c, s, e1, s1, [Tick(BREAKER_OPEN_MS)], s2);
    Then(c, s, e1 + [Tick(BREAKER_OPEN_MS)], s2, e3, s3);
    events, t := e1 + [Tick(BREAKER_OPEN_MS)] + e3, s3;
  }

  /** The bound is exact for every overlap and every outage: so two in flight already
      exceed what one at a time may cost, and without a limit on the overlap there is
      none on the fetches. */
  lemma {:induction false} BoundIsReached(c: nat, start: int, k: nat) returns (events: seq<Event>, t: State)
    requires c > 0 && start > 0
    ensures RunWithin(c, Begin(start), events, t)
    ensures t.since == start && t.now == start + 30_000 * k
    ensures t.fetches == 2 + c + c * k == 2 + c + c * ((t.now - t.since) / 30_000)
    ensures Saturated(c, t, start, BREAKER_THRESHOLD - 1 + c + c * k)
    decreases k
  {
    hide RunWithin;
    if k == 0 {
      events, t := FirstRound(c, start);
    } else {
      var before, s := BoundIsReached(c, start, k - 1);
      var more;
      more, t := NextRound(c, s, start, BREAKER_THRESHOLD - 1 + c + c * (k - 1));
      Then(c, Begin(start), before, s, more, t);
      events := before + more;
      assert c * (k - 1) + c == c * k;
    }
    assert BREAKER_OPEN_MS * k / BREAKER_OPEN_MS == k;
  }

  // ---------- the publisher ----------

  class SupabaseRealtimePublisher {
    var consecutiveFailures: nat
    var openUntil: int
    var now: int
    ghost var starts: seq<Start>
    ghost var fetches: nat
    ghost var since: int
    ghost var lastFailure: int

    /** Between two publishes nothing is in flight. */
    ghost function View(): State
      reads this
    {
      State(now, Breaker(consecutiveFailures, openUntil), 0, starts, fetches, since, lastFailure)
    }

    constructor (start: int)
      ensures View() == Begin(start)
    {
      consecutiveFailures, openUntil, now := 0, 0, start;
      starts, fetches, since, lastFailure := [], 0, start, start;
    }

    /** Time passes while the caller, or the fetch, takes it. */
    method Elapse() returns (d: nat)
      modifies this`now
      ensures now == old(now) + d
    {
      d := *;
      now := now + d;
    }

    method OnSuccess()
      modifies this`consecutiveFailures, this`openUntil
      ensures Breaker(consecutiveFailures, openUntil) == Closed()
    {
      consecutiveFailures := 0;
      openUntil := 0;
    }

    method OnFailure()
      modifies this`consecutiveFailures, this`openUntil
      ensures Breaker(consecutiveFailures, openUntil) == Failed(old(Breaker(consecutiveFailures, openUntil)), now)
    {
      consecutiveFailures := consecutiveFailures + 1;
      if consecutiveFailures >= BREAKER_THRESHOLD {
        openUntil := now + BREAKER_OPEN_MS;
      }
    }

    /** A publish that is awaited before the next begins: at most one fetch is in flight,
        and it is skipped exactly while the breaker is open. */
    method PublishChanged() returns (fetched: bool, ghost events: seq<Event>)
      modifies this
      ensures RunWithin(1, old(View()), events, View())
      ensures |events| >= 2 && events[0].Tick? && events[1] == Publish
      ensures var at := old(now) + events[0].d;
              && (fetched <==> old(openUntil) <= at)
              && (starts == if fetched then old(starts) + [Start(at, old(openUntil))] else old(starts))
    {
      ghost var s := View();
      var wait := Elapse();
      One(1, s, Tick(wait));
      One(1, Step(s, Tick(wait)), Publish);
      Then(1, s, [Tick(wait)], Step(s, Tick(wait)), [Publish], Step(View(), Publish));
      events := [Tick(wait)] + [Publish];
      if openUntil > now { return false, events; }
      ghost var began := Step(View(), Publish);
      starts, fetches := began.starts, began.fetches;
      var took := Elapse();
      One(1, began, Tick(took));
      Then(1, s, events, began, [Tick(took)], Step(began, Tick(took)));
      events := events + [Tick(took)];
      var ok: bool := *;
      One(1, Step(began, Tick(took)), Finished(ok));
      Then(1, s, events, Step(began, Tick(took)), [Finished(ok)], Step(Step(began, Tick(took)), Finished(ok)));
      events := events + [Finished(ok)];
      if ok {
        OnSuccess();
        fetches, since := 0, now;
      } else {
        OnFailure();
        lastFailure := now;
      }
      fetched := true;
    }
  }
}
