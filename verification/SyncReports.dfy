/** What the socket's reports do to the fallback poll: exactly when the screen is next
    refreshed while a visible, disconnected tab waits for it. */
module SyncReports {
  import opened Wrappers
  import opened SyncMachine
  import opened SyncTiming

  /** Time, activity, timers, and reports that the socket is down; no signal, no focus. */
  predicate Waiting(e: Event) {
    e.Advance? || e.Fire? || e.Activity? || e == ConnectionChange(false)
  }

  ghost predicate AllWaiting(events: seq<Event>) {
    forall i | 0 <= i < |events| :: Waiting(events[i])
  }

  /** Polling, with no refresh pending. */
  predicate Awaiting(s: State) {
    Kept(s) && Polling(s) && PollPending(s) && s.coalesceTimer == None
  }

  /** The delay in force `idle` ms after the last activity. */
  function Delay(idle: int): int {
    if idle >= 120_000 then 30_000 else 4_000
  }

  /** When the poll fires, by the events alone: when it was due, or as the last report
      before then has reset it. */
  function PollFires(now: int, lastActivity: int, due: int, events: seq<Event>): int
    decreases |events|
  {
    if events == [] then due
    else
      match events[0]
      case Advance(d) => PollFires(now + d, lastActivity, due, events[1..])
      case Activity => PollFires(now, now, due, events[1..])
      case ConnectionChange(_) => PollFires(now, lastActivity, now + Delay(now - lastActivity), events[1..])
      case _ => due
  }

  /** A refresh is pending, due at exactly `c`. */
  predicate OwesAt(s: State, c: int) {
    s.coalesceTimer.Some? && s.coalesceTimer.value in s.timers && s.timers[s.coalesceTimer.value].at == c
  }

  /** The next refresh after `s` is at `c`, if `t` has got that far. */
  ghost predicate FirstRefreshAt(s: State, t: State, c: int) {
    && s.refreshes <= t.refreshes
    && (forall i | |s.refreshes| <= i < |t.refreshes| :: t.refreshes[i] >= c)
    && if t.refreshes == s.refreshes then t.now <= c else t.refreshes[|s.refreshes|] == c
  }

  lemma WaitStep(s: State, e: Event)
    requires Awaiting(s) && Enabled(s, e) && Waiting(e)
    ensures var t := Step(s, e);
            && t.refreshes == s.refreshes
            && if e.Fire? then s.now == PollDue(s) && OwesAt(t, s.now + COALESCE_MS)
               else
                 && Awaiting(t)
                 && PollDue(t) == (if e.ConnectionChange? then s.now + Delay(s.now - s.lastActivity) else PollDue(s))
                 && t.now == (if e.Advance? then s.now + e.d else s.now)
                 && t.lastActivity == (if e.Activity? then s.now else s.lastActivity)
  {
    StepKeeps(s, e);
  }

  lemma OwedWait(s: State, e: Event, c: int)
    requires Kept(s) && Enabled(s, e) && Waiting(e) && OwesAt(s, c)
    ensures var t := Step(s, e);
            && s.now <= c
            && if t.refreshes == s.refreshes then OwesAt(t, c)
               else s.now == c && t.now == c && t.refreshes == s.refreshes + [c]
  {}

  /** Nothing is refreshed in the past. */
  lemma {:induction false} LaterRefreshes(s: State, events: seq<Event>, t: State)
    requires Run(s, events, t)
    ensures s.refreshes <= t.refreshes
    ensures forall i | |s.refreshes| <= i < |t.refreshes| :: t.refreshes[i] >= s.now
    decreases |events|
  {
    hide Step, Enabled;
    if events != [] {
      StepRefreshes(s, events[0]);
      LaterRefreshes(Step(s, events[0]), events[1..], t);
    }
  }

  lemma {:induction false} OwedExactly(s: State, events: seq<Event>, t: State, c: int)
    requires Kept(s) && Run(s, events, t) && AllWaiting(events) && OwesAt(s, c)
    ensures FirstRefreshAt(s, t, c)
    decreases |events|
  {
    hide Step, Enabled, Kept, OwesAt;
    if events == [] {
      OwedInTime(s, c);
    } else {
      var u := Step(s, events[0]);
      assert Waiting(events[0]);
      OwedWait(s, events[0], c);
      StepKeeps(s, events[0]);
      LaterRefreshes(u, events[1..], t);
      if u.refreshes == s.refreshes {
        assert AllWaiting(events[1..]);
        OwedExactly(u, events[1..], t, c);
      } else {
        assert t.refreshes[|s.refreshes|] == u.refreshes[|s.refreshes|] == c;
      }
    }
  }

  lemma OwedInTime(s: State, c: int)
    requires Kept(s) && OwesAt(s, c)
    ensures s.now <= c
  {}

  /** While the tab waits, the next refresh comes at exactly 250 ms after the poll fires. */
  lemma {:induction false} FirstRefresh(s: State, events: seq<Event>, t: State)
    requires Awaiting(s) && Run(s, events, t) && AllWaiting(events)
    ensures FirstRefreshAt(s, t, PollFires(s.now, s.lastActivity, PollDue(s), events) + 250)
    decreases |events|
  {
    hide Step, Enabled, Kept, OwesAt;
    if events == [] {
      PollNotOverdue(s);
    } else {
      var u := Step(s, events[0]);
      assert Waiting(events[0]);
      WaitStep(s, events[0]);
      StepKeeps(s, events[0]);
      assert AllWaiting(events[1..]);
      if events[0].Fire? {
        OwedExactly(u, events[1..], t, s.now + COALESCE_MS);
      } else {
        FirstRefresh(u, events[1..], t);
      }
    }
  }

  /** So a deadline is met if and only if the poll fires 250 ms before it. */
  lemma DeadlineMet(s: State, events: seq<Event>, t: State, d: int)
    requires Awaiting(s) && Run(s, events, t) && AllWaiting(events) && t.now > d
    ensures RefreshedBy(s, t, d) <==> PollFires(s.now, s.lastActivity, PollDue(s), events) + 250 <= d
  {
    hide Step, Enabled, Kept, Polling;
    var c := PollFires(s.now, s.lastActivity, PollDue(s), events) + COALESCE_MS;
    FirstRefresh(s, events, t);
    LaterRefreshes(s, events, t);
    if c <= d {
      var i := |s.refreshes|;
      assert s.now <= t.refreshes[i] <= d;
    }
  }

  // ---------- the time the poll was due ----------

  /** A report comes before any timer fires. */
  predicate Reported(events: seq<Event>)
    decreases |events|
  {
    events != [] && !events[0].Fire? && (events[0].ConnectionChange? || Reported(events[1..]))
  }

  /** A report cannot set a shorter poll than the pending one: that one is short already,
      or the tab is idle and stays so. */
  ghost predicate NoShorter(s: State, events: seq<Event>)
    requires PollPending(s)
  {
    || s.timers[s.pollTimer.value].idle < IDLE_AFTER_MS
    || (s.now - s.lastActivity >= IDLE_AFTER_MS && Activity !in events)
  }

  lemma {:induction false} FiresWhenDue(now: int, lastActivity: int, due: int, events: seq<Event>)
    requires !Reported(events)
    ensures PollFires(now, lastActivity, due, events) == due
    decreases |events|
  {
    if events != [] {
      match events[0]
      case Advance(d) => FiresWhenDue(now + d, lastActivity, due, events[1..]);
      case Activity => FiresWhenDue(now, now, due, events[1..]);
      case _ =>
    }
  }

  lemma {:induction false} FiresLater(now: int, lastActivity: int, due: int, events: seq<Event>, delay: int)
    requires Reported(events) && AllWaiting(events)
    requires || delay == ACTIVE_POLL_MS
             || (delay == IDLE_POLL_MS && now - lastActivity >= IDLE_AFTER_MS && Activity !in events)
    ensures PollFires(now, lastActivity, due, events) >= now + delay
    decreases |events|
  {
    var rest := events[1..];
    assert Waiting(events[0]) && AllWaiting(rest);
    if events[0].Advance? {
      FiresLater(now + events[0].d, lastActivity, due, rest, delay);
    } else if events[0].Activity? {
      FiresLater(now, now, due, rest, delay);
    } else {
      var reset := now + Delay(now - lastActivity);
      if Reported(rest) {
        FiresLater(now, lastActivity, reset, rest, delay);
      } else {
        FiresWhenDue(now, lastActivity, reset, rest);
      }
    }
  }

  /** The screen is refreshed within 250 ms of the time the pending poll was due if and
      only if no report comes before that poll fires. (A report in the very millisecond in
      which the poll was set would set the same one again.) */
  lemma DueUnlessReported(s: State, events: seq<Event>, t: State)
    requires Awaiting(s) && Run(s, events, t) && AllWaiting(events) && t.now > PollDue(s) + 250
    requires s.timers[s.pollTimer.value].since < s.now && NoShorter(s, events)
    ensures RefreshedBy(s, t, PollDue(s) + 250) <==> !Reported(events)
  {
    DeadlineMet(s, events, t, PollDue(s) + COALESCE_MS);
    hide Run, Step, Enabled, RefreshedBy;
    if Reported(events) {
      FiresLater(s.now, s.lastActivity, PollDue(s), events,
                 if s.timers[s.pollTimer.value].idle < IDLE_AFTER_MS then ACTIVE_POLL_MS else IDLE_POLL_MS);
    } else {
      FiresWhenDue(s.now, s.lastActivity, PollDue(s), events);
    }
  }

  /** The proviso is needed: after activity, a report replaces a long poll by a short one,
      and the screen is refreshed the sooner for it. */
  lemma ReportCanHasten(s: State)
    requires Awaiting(s) && PollDue(s) > s.now + ACTIVE_POLL_MS
    ensures Enabled(s, Activity) && Enabled(Step(s, Activity), ConnectionChange(false))
    ensures var t := Step(Step(s, Activity), ConnectionChange(false));
            Awaiting(t) && PollDue(t) == s.now + 4_000 < PollDue(s)
  {
    WaitStep(s, Activity);
    WaitStep(Step(s, Activity), ConnectionChange(false));
  }

  // ---------- reports that never let it fire ----------

  /** A report after each of these gaps. */
  function Beats(gaps: seq<nat>): seq<Event> {
    if gaps == [] then [] else [Advance(gaps[0]), ConnectionChange(false)] + Beats(gaps[1..])
  }

  function Sum(gaps: seq<nat>): nat {
    if gaps == [] then 0 else gaps[0] + Sum(gaps[1..])
  }

  /** No gap is longer than the delay in force at its start. */
  predicate WithinDelay(idle: int, gaps: seq<nat>)
    decreases |gaps|
  {
    gaps == [] || (gaps[0] <= Delay(idle) && WithinDelay(idle + gaps[0], gaps[1..]))
  }

  /** The poll has just been set. */
  predicate JustSet(s: State) {
    Awaiting(s) && PollDue(s) == s.now + Delay(s.now - s.lastActivity)
  }

  lemma MountJustSet(start: int)
    ensures JustSet(Mount(start, true))
  {
    MountKept(start, true);
  }

  /** The gap passes and the socket reports that it is down. */
  function AfterBeat(s: State, gap: nat): State {
    if Enabled(s, Advance(gap)) then Step(Step(s, Advance(gap)), ConnectionChange(false)) else s
  }

  lemma Beat(s: State, gap: nat)
    requires JustSet(s)
    ensures Enabled(s, Advance(gap)) <==> gap <= Delay(s.now - s.lastActivity)
    ensures Enabled(s, Advance(gap)) ==>
              var t := AfterBeat(s, gap);
              && JustSet(t) && t.refreshes == s.refreshes
              && t.now == s.now + gap && t.lastActivity == s.lastActivity
  {
    OnlyPollPending(s);
    if Enabled(s, Advance(gap)) {
      hide Step;
      WaitStep(s, Advance(gap));
      WaitStep(Step(s, Advance(gap)), ConnectionChange(false));
    }
  }

  lemma OnlyPollPending(s: State)
    requires Awaiting(s)
    ensures forall h | h in s.timers :: h == s.pollTimer.value
  {
    assert forall h | h in s.timers :: s.timers[h].callback == Coalesced || s.timers[h].callback == Poll;
  }

  ghost predicate CanHappen(s: State, events: seq<Event>) {
    exists t :: Run(s, events, t)
  }

  lemma BeatsRun(s: State, gaps: seq<nat>, t: State)
    requires gaps != [] && JustSet(s)
    ensures Run(s, Beats(gaps), t) <==>
              && gaps[0] <= Delay(s.now - s.lastActivity)
              && Run(AfterBeat(s, gaps[0]), Beats(gaps[1..]), t)
  {
    Beat(s, gaps[0]);
    hide Step, Enabled, JustSet;
    var events := Beats(gaps);
    var last := events[1..];
    assert events[0] == Advance(gaps[0]) && last[0] == ConnectionChange(false) && last[1..] == Beats(gaps[1..]);
    if Enabled(s, Advance(gaps[0])) {
      assert Run(s, events, t) <==> Run(Step(s, Advance(gaps[0])), last, t);
    }
  }

  lemma BeatsCanHappen(s: State, gaps: seq<nat>)
    requires gaps != [] && JustSet(s)
    ensures CanHappen(s, Beats(gaps)) <==>
              gaps[0] <= Delay(s.now - s.lastActivity) && CanHappen(AfterBeat(s, gaps[0]), Beats(gaps[1..]))
  {
    hide Run, JustSet, AfterBeat, Beats;
    forall t
      ensures Run(s, Beats(gaps), t) <==>
                gaps[0] <= Delay(s.now - s.lastActivity) && Run(AfterBeat(s, gaps[0]), Beats(gaps[1..]), t)
    {
      BeatsRun(s, gaps, t);
    }
  }

  /** Reports at these gaps keep the poll from ever firing if and only if no gap is longer
      than the delay in force: 4,000 ms at first, 30,000 ms once the tab has been idle for
      120 s. A mounted, visible and disconnected tab is then not refreshed at all. */
  lemma {:induction false} ErrorReportsStarvePolling(s: State, gaps: seq<nat>)
    requires JustSet(s)
    ensures CanHappen(s, Beats(gaps)) <==> WithinDelay(s.now - s.lastActivity, gaps)
    ensures forall t | Run(s, Beats(gaps), t) ::
              t.refreshes == s.refreshes && Polling(t) && t.now == s.now + Sum(gaps)
    decreases |gaps|
  {
    if gaps == [] {
      assert Run(s, Beats(gaps), s);
    } else {
      var gap, rest := gaps[0], gaps[1..];
      Beat(s, gap);
      BeatsCanHappen(s, gaps);
      hide Run, CanHappen, JustSet, Beats, AfterBeat;
      if gap <= Delay(s.now - s.lastActivity) {
        var u := AfterBeat(s, gap);
        ErrorReportsStarvePolling(u, rest);
        assert WithinDelay(s.now - s.lastActivity, gaps) == WithinDelay(u.now - u.lastActivity, rest);
      }
      forall t | Run(s, Beats(gaps), t)
        ensures t.refreshes == s.refreshes && Polling(t) && t.now == s.now + Sum(gaps)
      {
        BeatsRun(s, gaps, t);
      }
    }
  }
}
