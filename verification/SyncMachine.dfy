/** sync-schedule.ts and the effect of sync-provider.tsx, as a machine of events over
    the browser's pending timers. Instants and delays are milliseconds. */
module SyncMachine {
  import opened Wrappers

  const COALESCE_MS := 250
  const ACTIVE_POLL_MS := 4_000
  const IDLE_POLL_MS := 30_000
  const IDLE_AFTER_MS := 120_000

  /** None is "do not poll". */
  function NextPollDelay(connected: bool, visible: bool, msSinceActivity: int): Option<int> {
    if connected || !visible then None
    else Some(if msSinceActivity >= IDLE_AFTER_MS then IDLE_POLL_MS else ACTIVE_POLL_MS)
  }

  /** What a timer runs when it fires. */
  datatype Callback = Coalesced | Poll

  /** `since` and `idle` record when it was set, and how long after the last activity. */
  datatype Timer = Timer(at: int, callback: Callback, since: int, idle: int)

  /** `timers` is every timer the browser still holds, by handle; the two refs hold
      handles. `refreshes` is when `router.refresh` was called. */
  datatype State = State(
    now: int,
    lastActivity: int,
    connected: bool,
    visible: bool,
    disposed: bool,
    timers: map<nat, Timer>,
    handles: nat,
    coalesceTimer: Option<nat>,
    pollTimer: Option<nat>,
    refreshes: seq<int>)

  datatype Event =
    | Advance(d: nat)
    | Fire(handle: nat)
    | Signal
    | ConnectionChange(up: bool)
    | VisibilityChange(visible: bool)
    | FocusOrOnline
    | Activity
    | Unmount

  // ---------- the functions of the effect ----------

  function SetTimer(s: State, callback: Callback, delay: int): State {
    s.(timers := s.timers[s.handles := Timer(s.now + delay, callback, s.now, s.now - s.lastActivity)],
       handles := s.handles + 1)
  }

  function ClearTimer(s: State, handle: Option<nat>): State {
    if handle.Some? then s.(timers := s.timers - {handle.value}) else s
  }

  function Refresh(s: State): State {
    s.(refreshes := s.refreshes + [s.now])
  }

  function ScheduleRefresh(s: State): State {
    if s.disposed || s.coalesceTimer.Some? then s
    else SetTimer(s, Coalesced, COALESCE_MS).(coalesceTimer := Some(s.handles))
  }

  function RefreshNow(s: State): State {
    if s.disposed then s
    else Refresh(ClearTimer(s, s.coalesceTimer).(coalesceTimer := None))
  }

  function ScheduleNextPoll(s: State): State {
    var cleared := ClearTimer(s, s.pollTimer).(pollTimer := None);
    if s.disposed then cleared
    else
      match NextPollDelay(s.connected, s.visible, s.now - s.lastActivity)
      case None => cleared
      case Some(delay) => SetTimer(cleared, Poll, delay).(pollTimer := Some(s.handles))
  }

  /** The component has just mounted, at `now`. */
  function Mount(now: int, visible: bool): State {
    ScheduleNextPoll(State(now, now, false, visible, false, map[], 0, None, None, []))
  }

  /** A timer fires when the clock reaches it and the clock waits for it; the window and
      document listeners are gone once unmounted. */
  predicate Enabled(s: State, e: Event) {
    match e
    case Advance(d) => forall h | h in s.timers :: s.now + d <= s.timers[h].at
    case Fire(h) => h in s.timers && s.timers[h].at == s.now
    case Signal => true
    case ConnectionChange(_) => true
    case VisibilityChange(_) => !s.disposed
    case FocusOrOnline => !s.disposed
    case Activity => !s.disposed
    case Unmount => !s.disposed
  }

  function Step(s: State, e: Event): State
    requires Enabled(s, e)
  {
    match e
    case Advance(d) => s.(now := s.now + d)
    case Fire(h) =>
      var gone := s.(timers := s.timers - {h});
      (match s.timers[h].callback
       case Coalesced => Refresh(gone.(coalesceTimer := None))
       case Poll => ScheduleNextPoll(ScheduleRefresh(gone.(pollTimer := None))))
    case Signal => ScheduleRefresh(s)
    case ConnectionChange(up) => ScheduleNextPoll(s.(connected := up))
    case VisibilityChange(visible) =>
      var seen := s.(visible := visible);
      ScheduleNextPoll(if visible then RefreshNow(seen.(lastActivity := s.now)) else seen)
    case FocusOrOnline => ScheduleNextPoll(RefreshNow(s.(lastActivity := s.now)))
    case Activity => s.(lastActivity := s.now)
    case Unmount =>
      ClearTimer(ClearTimer(s.(disposed := true), s.coalesceTimer), s.pollTimer)
        .(coalesceTimer := None, pollTimer := None)
  }

  ghost predicate Run(s: State, events: seq<Event>, t: State)
    decreases |events|
  {
    if events == [] then s == t
    else Enabled(s, events[0]) && Run(Step(s, events[0]), events[1..], t)
  }

  // ---------- what every run keeps ----------

  /** The ref holds the one pending timer with this callback, or none is pending. */
  predicate Held(s: State, ref: Option<nat>, callback: Callback) {
    && (ref.Some? ==> ref.value in s.timers && s.timers[ref.value].callback == callback)
    && (forall h | h in s.timers && s.timers[h].callback == callback :: ref == Some(h))
  }

  predicate Fits(now: int, timer: Timer) {
    && timer.since <= now <= timer.at && timer.idle >= 0
    && match timer.callback
       case Coalesced => timer.at == timer.since + COALESCE_MS
       case Poll => timer.at == timer.since + (if timer.idle >= IDLE_AFTER_MS then IDLE_POLL_MS else ACTIVE_POLL_MS)
  }

  /** True also half way through a handler, before the poll is rescheduled. */
  predicate Sound(s: State) {
    && Held(s, s.coalesceTimer, Coalesced)
    && Held(s, s.pollTimer, Poll)
    && (forall h | h in s.timers :: h < s.handles && Fits(s.now, s.timers[h]))
    && s.lastActivity <= s.now
    && (s.disposed ==> s.coalesceTimer == None)
  }

  predicate Polling(s: State) { !s.disposed && s.visible && !s.connected }

  predicate Kept(s: State) {
    Sound(s) && (s.pollTimer.Some? <==> Polling(s))
  }

  lemma ScheduleRefreshKeeps(s: State)
    requires Sound(s)
    ensures Sound(ScheduleRefresh(s))
    ensures Polling(ScheduleRefresh(s)) == Polling(s) && ScheduleRefresh(s).pollTimer == s.pollTimer
  {}

  lemma RefreshNowKeeps(s: State)
    requires Sound(s)
    ensures Sound(RefreshNow(s))
  {}

  lemma ScheduleNextPollKeeps(s: State)
    requires Sound(s)
    ensures Kept(ScheduleNextPoll(s))
  {}

  lemma FireKeeps(s: State, h: nat)
    requires Kept(s) && Enabled(s, Fire(h))
    ensures Kept(Step(s, Fire(h)))
  {
    hide Fits, ScheduleRefresh, ScheduleNextPoll;
    var gone := s.(timers := s.timers - {h});
    match s.timers[h].callback
    case Coalesced =>
    case Poll =>
      ScheduleRefreshKeeps(gone.(pollTimer := None));
      ScheduleNextPollKeeps(ScheduleRefresh(gone.(pollTimer := None)));
  }

  lemma MountKept(now: int, visible: bool)
    ensures Kept(Mount(now, visible))
  {}

  /** At most one timer of each kind is ever pending, each is held by its ref, and a poll
      is pending exactly while the component is mounted, visible and disconnected. */
  lemma StepKeeps(s: State, e: Event)
    requires Kept(s) && Enabled(s, e)
    ensures Kept(Step(s, e))
  {
    match e
    case Advance(d) =>
    case Fire(h) =>
      hide Step;
      FireKeeps(s, h);
    case Signal =>
      hide ScheduleRefresh, Fits;
      ScheduleRefreshKeeps(s);
    case ConnectionChange(up) =>
      hide ScheduleNextPoll, Fits;
      ScheduleNextPollKeeps(s.(connected := up));
    case VisibilityChange(visible) =>
      hide ScheduleNextPoll, RefreshNow, Fits;
      var seen := s.(visible := visible);
      RefreshNowKeeps(seen.(lastActivity := s.now));
      ScheduleNextPollKeeps(if visible then RefreshNow(seen.(lastActivity := s.now)) else seen);
    case FocusOrOnline =>
      hide ScheduleNextPoll, RefreshNow, Fits;
      RefreshNowKeeps(s.(lastActivity := s.now));
      ScheduleNextPollKeeps(RefreshNow(s.(lastActivity := s.now)));
    case Activity =>
    case Unmount =>
  }

  lemma {:induction false} RunKeeps(s: State, events: seq<Event>, t: State)
    requires Kept(s) && Run(s, events, t)
    ensures Kept(t)
    decreases |events|
  {
    hide Kept, Step, Enabled;
    if events != [] {
      StepKeeps(s, events[0]);
      RunKeeps(Step(s, events[0]), events[1..], t);
    }
  }
}
