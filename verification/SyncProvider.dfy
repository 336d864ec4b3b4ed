/** sync-provider.tsx: the component's refs and the browser's timers, updated in place.
    Every handler does what the machine's event does, so that what runs of the machine
    keep holds of the component between any two of them. */
module SyncProvider {
  import opened Wrappers
  import opened SyncMachine
  import T = SyncTiming

  class SyncProvider {
    var now: int
    var lastActivity: int
    var connected: bool
    var visible: bool
    var disposed: bool
    var timers: map<nat, Timer>
    var handles: nat
    var coalesceTimer: Option<nat>
    var pollTimer: Option<nat>
    var refreshes: seq<int>

    ghost function View(): State
      reads this
    {
      State(now, lastActivity, connected, visible, disposed, timers, handles, coalesceTimer, pollTimer, refreshes)
    }

    /** Between handlers: one timer of each kind at most, each held by its ref, and a poll
        pending exactly while the component is mounted, visible and disconnected. */
    ghost predicate Valid()
      reads this
    {
      Kept(View())
    }

    constructor (start: int, shown: bool)
      ensures View() == Mount(start, shown) && Valid()
      ensures pollTimer.Some? <==> shown
    {
      now, lastActivity, connected, visible, disposed := start, start, false, shown, false;
      timers, handles, coalesceTimer, pollTimer, refreshes := map[], 0, None, None, [];
      new;
      ScheduleNextPoll();
    }

    method SetTimeout(callback: Callback, delay: int) returns (handle: nat)
      modifies this
      ensures View() == SetTimer(old(View()), callback, delay) && handle == old(handles)
    {
      handle := handles;
      timers := timers[handle := Timer(now + delay, callback, now, now - lastActivity)];
      handles := handles + 1;
    }

    method ClearTimeout(handle: nat)
      modifies this
      ensures View() == ClearTimer(old(View()), Some(handle))
    {
      timers := timers - {handle};
    }

    method RouterRefresh()
      modifies this
      ensures View() == Refresh(old(View()))
    {
      refreshes := refreshes + [now];
    }

    /** Afterwards a refresh is due within 250 ms, unless the component is gone. */
    method ScheduleRefresh()
      requires Sound(View())
      modifies this
      ensures View() == SyncMachine.ScheduleRefresh(old(View())) && Sound(View())
      ensures pollTimer == old(pollTimer)
      ensures disposed || T.Owes(View(), now + 250)
    {
      ScheduleRefreshKeeps(View());
      if disposed || coalesceTimer.Some? { return; }
      var handle := SetTimeout(Coalesced, COALESCE_MS);
      coalesceTimer := Some(handle);
    }

    /** Afterwards the screen is fresh and no refresh is pending. */
    method RefreshNow()
      requires Sound(View())
      modifies this
      ensures View() == SyncMachine.RefreshNow(old(View())) && Sound(View())
      ensures coalesceTimer == None
      ensures refreshes == if disposed then old(refreshes) else old(refreshes) + [now]
    {
      RefreshNowKeeps(View());
      if disposed { return; }
      if coalesceTimer.Some? {
        ClearTimeout(coalesceTimer.value);
        coalesceTimer := None;
      }
      RouterRefresh();
    }

    /** Whatever the handler has done so far, the poll is put right. */
    method ScheduleNextPoll()
      requires Sound(View())
      modifies this
      ensures View() == SyncMachine.ScheduleNextPoll(old(View())) && Valid()
      ensures pollTimer.Some? <==> !disposed && visible && !connected
      ensures pollTimer.Some? ==>
                && T.PollPending(View())
                && T.PollDue(View()) == now + if now - lastActivity >= 120_000 then 30_000 else 4_000
    {
      ScheduleNextPollKeeps(View());
      if pollTimer.Some? { ClearTimeout(pollTimer.value); }
      pollTimer := None;
      if disposed { return; }
      var delay := NextPollDelay(connected, visible, now - lastActivity);
      if delay == None { return; }
      var handle := SetTimeout(Poll, delay.value);
      pollTimer := Some(handle);
    }

    method OnActivity()
      requires Sound(View()) && Enabled(View(), Activity)
      modifies this
      ensures View() == Step(old(View()), Activity) && Sound(View())
      ensures old(Valid()) ==> Valid()
      ensures lastActivity == now && timers == old(timers)
    {
      lastActivity := now;
    }

    /** A tab that comes back is refreshed at once, and polls exactly if disconnected; one
        that is hidden stops polling. */
    method OnVisibility(shown: bool)
      requires Valid() && Enabled(View(), VisibilityChange(shown))
      modifies this
      ensures View() == Step(old(View()), VisibilityChange(shown)) && Valid()
      ensures refreshes == if shown then old(refreshes) + [now] else old(refreshes)
      ensures pollTimer.Some? <==> shown && !connected
      ensures shown ==> lastActivity == now
      ensures pollTimer.Some? ==> T.PollPending(View()) && T.PollDue(View()) == now + 4_000
    {
      visible := shown;
      if visible {
        OnActivity();
        RefreshNow();
      }
      ScheduleNextPoll();
    }

    method OnFocusOrOnline()
      requires Valid() && Enabled(View(), FocusOrOnline)
      modifies this
      ensures View() == Step(old(View()), FocusOrOnline) && Valid()
      ensures refreshes == old(refreshes) + [now] && coalesceTimer == None
      ensures lastActivity == now && (pollTimer.Some? <==> visible && !connected)
      ensures pollTimer.Some? ==> T.PollPending(View()) && T.PollDue(View()) == now + 4_000
    {
      OnActivity();
      RefreshNow();
      ScheduleNextPoll();
    }

    /** Losing the socket hands the screen back to the poll at once; gaining it ends the
        polling. */
    method OnConnectionChange(up: bool)
      requires Valid()
      modifies this
      ensures View() == Step(old(View()), ConnectionChange(up)) && Valid()
      ensures pollTimer.Some? <==> !disposed && visible && !up
      ensures pollTimer.Some? ==>
                && T.PollPending(View())
                && T.PollDue(View()) == now + if now - lastActivity >= 120_000 then 30_000 else 4_000
    {
      connected := up;
      ScheduleNextPoll();
    }

    method OnSignal()
      requires Valid()
      modifies this
      ensures View() == Step(old(View()), Signal) && Valid()
      ensures disposed || T.Owes(View(), now + 250)
    {
      ScheduleRefresh();
    }

    /** The browser runs a timer's callback and forgets the timer. A poll that fires leaves
        a refresh due and the next poll pending. */
    method OnTimer(handle: nat)
      requires Valid() && Enabled(View(), Fire(handle))
      modifies this
      ensures View() == Step(old(View()), Fire(handle)) && Valid()
      ensures match old(timers)[handle].callback
              case Coalesced => refreshes == old(refreshes) + [now]
              case Poll =>
                && T.Owes(View(), now + 250) && T.PollPending(View())
                && T.PollDue(View()) == now + if now - lastActivity >= 120_000 then 30_000 else 4_000
    {
      FireKeeps(View(), handle);
      var callback := timers[handle].callback;
      timers := timers - {handle};
      match callback
      case Coalesced =>
        coalesceTimer := None;
        RouterRefresh();
      case Poll =>
        pollTimer := None;
        ScheduleRefresh();
        ScheduleNextPoll();
    }

    /** Unmounting leaves nothing pending. */
    method Cleanup()
      requires Valid() && Enabled(View(), Unmount)
      modifies this
      ensures View() == Step(old(View()), Unmount) && Valid()
      ensures timers == map[] && coalesceTimer == None && pollTimer == None
    {
      StepKeeps(View(), Unmount);
      disposed := true;
      if coalesceTimer.Some? { ClearTimeout(coalesceTimer.value); }
      if pollTimer.Some? { ClearTimeout(pollTimer.value); }
      coalesceTimer := None;
      pollTimer := None;
      T.SilentAfterUnmount(View(), [], View());
    }
  }
}
