/** How soon the screen is refreshed, over every sequence of events. */
module SyncTiming {
  import opened Wrappers
  import opened SyncMachine

  /** Between `s` and `t` there was a refresh, no later than `d`. */
  ghost predicate RefreshedBy(s: State, t: State, d: int) {
    exists i :: |s.refreshes| <= i < |t.refreshes| && s.now <= t.refreshes[i] <= d
  }

  /** A coalesced refresh is pending, due by `d`. */
  predicate Owes(s: State, d: int) {
    s.coalesceTimer.Some? && s.coalesceTimer.value in s.timers && s.timers[s.coalesceTimer.value].at <= d
  }

  /** A step adds at most one refresh, at the moment it happens. */
  lemma StepRefreshes(s: State, e: Event)
    requires Enabled(s, e)
    ensures var t := Step(s, e);
            t.now >= s.now && (t.refreshes == s.refreshes || t.refreshes == s.refreshes + [s.now])
  {
    hide Enabled;
    HandlersRefresh(s);
    match e
    case Fire(h) =>
      var gone := s.(timers := s.timers - {h});
      HandlersRefresh(gone.(pollTimer := None));
      HandlersRefresh(ScheduleRefresh(gone.(pollTimer := None)));
      hide ScheduleRefresh, ScheduleNextPoll;
    case ConnectionChange(up) =>
      HandlersRefresh(s.(connected := up));
      hide ScheduleNextPoll;
    case VisibilityChange(visible) =>
      var seen := s.(visible := visible);
      HandlersRefresh(seen.(lastActivity := s.now));
      HandlersRefresh(if visible then RefreshNow(seen.(lastActivity := s.now)) else seen);
      hide RefreshNow, ScheduleNextPoll;
    case FocusOrOnline =>
      HandlersRefresh(s.(lastActivity := s.now));
      HandlersRefresh(RefreshNow(s.(lastActivity := s.now)));
      hide RefreshNow, ScheduleNextPoll;
    case _ =>
      hide RefreshNow, ScheduleNextPoll, ScheduleRefresh;
  }

  lemma HandlersRefresh(s: State)
    ensures ScheduleRefresh(s).refreshes == s.refreshes && ScheduleRefresh(s).now == s.now
    ensures ScheduleNextPoll(s).refreshes == s.refreshes && ScheduleNextPoll(s).now == s.now
    ensures RefreshNow(s).refreshes == (if s.disposed then s.refreshes else s.refreshes + [s.now])
    ensures RefreshNow(s).now == s.now
  {}

  lemma {:induction false} RunRefreshes(s: State, events: seq<Event>, t: State)
    requires Run(s, events, t)
    ensures t.now >= s.now && s.refreshes <= t.refreshes
    decreases |events|
  {
    hide Step, Enabled;
    if events != [] {
      StepRefreshes(s, events[0]);
      RunRefreshes(Step(s, events[0]), events[1..], t);
    }
  }

  /** A refresh in the first step, or in the rest of the run, is one in the whole run. */
  lemma RefreshedFirst(s: State, e: Event, events: seq<Event>, t: State, d: int)
    requires Enabled(s, e) && Run(Step(s, e), events, t) && s.now <= d
    requires Step(s, e).refreshes != s.refreshes || RefreshedBy(Step(s, e), t, d)
    ensures RefreshedBy(s, t, d)
  {
    StepRefreshes(s, e);
    RunRefreshes(Step(s, e), events, t);
    hide Step, Enabled, Run;
    if Step(s, e).refreshes != s.refreshes {
      var i := |s.refreshes|;
      assert t.refreshes[i] == Step(s, e).refreshes[i] == s.now;
    }
  }

  // ---------- a pending refresh ----------

  lemma OwedStep(s: State, e: Event, d: int)
    requires Kept(s) && Enabled(s, e) && Owes(s, d)
    ensures var t := Step(s, e);
            s.now <= d && (t.disposed || Owes(t, d) || t.refreshes != s.refreshes)
  {}

  /** A pending refresh is never dropped: it happens by its time unless the component
      unmounts first. */
  lemma {:induction false} OwedRun(s: State, events: seq<Event>, t: State, d: int)
    requires Kept(s) && Run(s, events, t) && Owes(s, d)
    ensures t.disposed || Owes(t, d) || RefreshedBy(s, t, d)
    decreases |events|
  {
    hide Kept, Step, Enabled, Owes, RefreshedBy;
    if events != [] {
      var u := Step(s, events[0]);
      StepKeeps(s, events[0]);
      OwedStep(s, events[0], d);
      if u.disposed {
        StaysDisposed(u, events[1..], t);
      } else if Owes(u, d) {
        OwedRun(u, events[1..], t, d);
        if RefreshedBy(u, t, d) { RefreshedFirst(s, events[0], events[1..], t, d); }
      } else {
        RefreshedFirst(s, events[0], events[1..], t, d);
      }
    }
  }

  lemma {:induction false} StaysDisposed(s: State, events: seq<Event>, t: State)
    requires s.disposed && Run(s, events, t)
    ensures t.disposed
    decreases |events|
  {
    if events != [] {
      StaysDisposed(Step(s, events[0]), events[1..], t);
    }
  }

  lemma NothingOverdue(s: State, d: int)
    requires Kept(s) && Owes(s, d)
    ensures s.now <= d
  {}

  lemma SignalOwes(s: State)
    requires Kept(s) && !s.disposed
    ensures Owes(Step(s, Signal), s.now + COALESCE_MS)
  {}

  /** Signals are coalesced and never dropped: once 250 ms have passed since a signal,
      the screen was refreshed in them, unless the component was unmounted. */
  lemma SignalIsFollowed(s: State, events: seq<Event>, t: State)
    requires Kept(s) && !s.disposed && Run(Step(s, Signal), events, t)
    requires !t.disposed && t.now > s.now + 250
    ensures RefreshedBy(s, t, s.now + 250)
  {
    hide Kept, Step, Owes, RefreshedBy;
    StepKeeps(s, Signal);
    SignalOwes(s);
    OwedRun(Step(s, Signal), events, t, s.now + COALESCE_MS);
    RunKeeps(Step(s, Signal), events, t);
    if Owes(t, s.now + COALESCE_MS) {
      NothingOverdue(t, s.now + COALESCE_MS);
    } else {
      RefreshedFirst(s, Signal, events, t, s.now + COALESCE_MS);
    }
  }

  // ---------- polling ----------

  predicate PollPending(s: State) {
    s.pollTimer.Some? && s.pollTimer.value in s.timers
  }

  /** When the pending poll is due. */
  function PollDue(s: State): int
    requires PollPending(s)
  {
    s.timers[s.pollTimer.value].at
  }

  /** The wait for the poll `h` is over: it fires, or the screen is refreshed at once. */
  predicate EndsWait(e: Event, h: nat) {
    e == Fire(h) || e == FocusOrOnline || e == VisibilityChange(true)
  }

  /** Nothing that ends or restarts the polling: the socket says nothing, and the tab
      stays visible and mounted. */
  predicate Quiet(e: Event) {
    !e.ConnectionChange? && !e.Unmount? && e != VisibilityChange(false)
  }

  /** Quiet while the poll `h` is awaited; after that anything may happen. */
  predicate QuietUntilPoll(h: nat, events: seq<Event>)
    decreases |events|
  {
    events == [] || EndsWait(events[0], h) || (Quiet(events[0]) && QuietUntilPoll(h, events[1..]))
  }

  lemma PollStep(s: State, e: Event, h: nat)
    requires Kept(s) && Enabled(s, e) && PollPending(s) && s.pollTimer == Some(h) && !s.disposed
    requires Quiet(e) || EndsWait(e, h)
    ensures var t := Step(s, e);
            && s.now <= PollDue(s) && !t.disposed
            && if EndsWait(e, h) then Owes(t, PollDue(s) + COALESCE_MS) || t.refreshes != s.refreshes
               else PollPending(t) && t.pollTimer == Some(h) && PollDue(t) == PollDue(s)
  {}

  lemma {:induction false} PollRun(s: State, events: seq<Event>, t: State, h: nat)
    requires Kept(s) && Run(s, events, t) && PollPending(s) && s.pollTimer == Some(h) && !s.disposed
    requires QuietUntilPoll(h, events)
    ensures var d := PollDue(s) + COALESCE_MS; t.disposed || t.now <= d || Owes(t, d) || RefreshedBy(s, t, d)
    decreases |events|
  {
    hide Kept, Step, Enabled, Owes, RefreshedBy;
    if events == [] {
      PollNotOverdue(s);
    } else {
      var e, rest, d := events[0], events[1..], PollDue(s) + COALESCE_MS;
      var u := Step(s, e);
      StepKeeps(s, e);
      PollStep(s, e, h);
      if !EndsWait(e, h) {
        PollRun(u, rest, t, h);
        if RefreshedBy(u, t, d) { RefreshedFirst(s, e, rest, t, d); }
      } else if Owes(u, d) {
        OwedRun(u, rest, t, d);
        if RefreshedBy(u, t, d) { RefreshedFirst(s, e, rest, t, d); }
      } else {
        RefreshedFirst(s, e, rest, t, d);
      }
    }
  }

  lemma PollNotOverdue(s: State)
    requires Kept(s) && PollPending(s)
    ensures s.now <= PollDue(s)
  {}

  /** How long a mounted, visible, disconnected component may leave the screen as it is:
      30,250 ms, and 4,250 ms when the pending poll was set within 120 s of activity. */
  function Patience(s: State): int
    requires PollPending(s)
  {
    if s.timers[s.pollTimer.value].idle < 120_000 then 4_250 else 30_250
  }

  lemma PollIsNear(s: State)
    requires Kept(s) && Polling(s)
    ensures PollPending(s) && s.now <= PollDue(s) && PollDue(s) + COALESCE_MS <= s.now + Patience(s)
  {}

  /** The screen is refreshed within 250 ms of the time the pending poll is due, which is
      within the patience. Until the poll fires the socket must report nothing and the tab
      must stay visible; after that, whatever happens short of unmounting. */
  lemma NextRefreshIsNear(s: State, events: seq<Event>, t: State)
    requires Kept(s) && Polling(s) && PollPending(s) && Run(s, events, t)
    requires QuietUntilPoll(s.pollTimer.value, events)
    requires !t.disposed && t.now > PollDue(s) + 250
    ensures RefreshedBy(s, t, PollDue(s) + 250) && PollDue(s) + 250 <= s.now + Patience(s)
  {
    hide Kept, Step, Owes, RefreshedBy;
    var d := PollDue(s) + COALESCE_MS;
    PollIsNear(s);
    PollRun(s, events, t, s.pollTimer.value);
    RunKeeps(s, events, t);
    if Owes(t, d) { NothingOverdue(t, d); }
  }

  // ---------- what counts as activity ----------

  /** A focus, a return online and a tab's return count as activity: the screen is
      refreshed at once, and if the tab still polls the next poll is 4 s away. Bare
      activity moves no timer. */
  lemma ReturnCountsAsActivity(s: State, e: Event)
    requires Kept(s) && Enabled(s, e) && (e == FocusOrOnline || e == VisibilityChange(true))
    ensures var t := Step(s, e);
            && t.lastActivity == s.now && t.refreshes == s.refreshes + [s.now] && t.coalesceTimer == None
            && (PollPending(t) <==> Polling(t)) && (PollPending(t) ==> PollDue(t) == s.now + 4_000)
    ensures Step(s, Activity) == s.(lastActivity := s.now)
  {
    StepKeeps(s, e);
  }

  // ---------- after unmount ----------

  /** Once unmounted, nothing is pending and nothing refreshes again. */
  lemma {:induction false} SilentAfterUnmount(s: State, events: seq<Event>, t: State)
    requires Kept(s) && s.disposed && Run(s, events, t)
    ensures t.refreshes == s.refreshes && t.timers == map[]
    decreases |events|
  {
    assert forall h | h in s.timers :: s.timers[h].callback == Coalesced || s.timers[h].callback == Poll;
    assert s.timers.Keys == {};
    if events != [] {
      StepKeeps(s, events[0]);
      SilentAfterUnmount(Step(s, events[0]), events[1..], t);
    }
  }
}
