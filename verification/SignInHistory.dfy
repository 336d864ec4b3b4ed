/** Sign-in as its callers see it: which attempts are refused, which succeed and which
    sessions there are, told from the calls and the outcomes before them. */
module SignInHistory {
  import opened Wrappers
  import opened SignIn

  /** What an attempt looked like: when its comparison began and ended, whether the
      password was right, and what came of it. */
  datatype Seen = Silent | Seen(email: string, began: int, ended: int, correct: bool, outcome: Outcome)

  function Look(cfg: Config, s: State, call: Call): Seen {
    if !call.Attempt? then Silent
    else Seen(call.email, s.now + call.wait, Step(cfg, s, call).now, call.correct, OutcomeOf(cfg, s, call))
  }

  function Observed(cfg: Config, start: int, calls: seq<Call>): (seen: seq<Seen>)
    ensures |seen| == |calls|
  {
    if calls == [] then []
    else
      var n := |calls| - 1;
      Observed(cfg, start, calls[..n]) + [Look(cfg, Run(cfg, Start(start), calls[..n]), calls[n])]
  }

  lemma {:induction false} ObservedPrefix(cfg: Config, start: int, calls: seq<Call>, k: nat)
    requires k <= |calls|
    ensures Observed(cfg, start, calls)[..k] == Observed(cfg, start, calls[..k])
    ensures k < |calls| ==> Observed(cfg, start, calls)[k] == Look(cfg, Run(cfg, Start(start), calls[..k]), calls[k])
    decreases |calls|
  {
    var n := |calls| - 1;
    if k == |calls| {
      assert calls[..k] == calls;
    } else {
      assert calls[..n][..k] == calls[..k];
      ObservedPrefix(cfg, start, calls[..n], k);
    }
  }

  // ---------- the history of one account ----------

  predicate Registered(calls: seq<Call>, email: string) {
    Register(email) in calls
  }

  /** The address was verified after the account was registered. */
  ghost predicate Verified(calls: seq<Call>, email: string) {
    exists r, v | 0 <= r < v < |calls| :: calls[r] == Register(email) && calls[v] == Verify(email)
  }

  predicate Accepts(e: Seen, email: string) {
    e.Seen? && e.email == email && (e.outcome == SignedIn || e.outcome == EmailNotVerified)
  }

  predicate Rejects(e: Seen, email: string) {
    e.Seen? && e.email == email && e.outcome == InvalidCredentials
  }

  /** The wrong passwords the account has taken since the last right one. */
  function Failures(calls: seq<Call>, seen: seq<Seen>, email: string): nat
    requires |seen| == |calls|
    decreases |calls|
  {
    if calls == [] then 0
    else
      var n := |calls| - 1;
      if Accepts(seen[n], email) then 0
      else if Rejects(seen[n], email) && Registered(calls[..n], email) then Failures(calls[..n], seen[..n], email) + 1
      else Failures(calls[..n], seen[..n], email)
  }

  /** When the last of them was found wrong. */
  function LastFailure(calls: seq<Call>, seen: seq<Seen>, email: string): int
    requires |seen| == |calls|
    decreases |calls|
  {
    if calls == [] then 0
    else
      var n := |calls| - 1;
      if Rejects(seen[n], email) && Registered(calls[..n], email) then seen[n].ended
      else LastFailure(calls[..n], seen[..n], email)
  }

  /** The maximum has been reached, and the minutes of the lockout have not passed. */
  predicate LockedOut(cfg: Config, calls: seq<Call>, seen: seq<Seen>, email: string, at: int)
    requires |seen| == |calls|
  {
    var failures := Failures(calls, seen, email);
    failures > 0 && failures >= cfg.maxFailedAttempts
    && at < LastFailure(calls, seen, email) + cfg.lockoutMinutes * 60 * 1000
  }

  /** The time when the last call was over. */
  function Clock(start: int, seen: seq<Seen>): int {
    if seen == [] then start
    else if seen[|seen| - 1].Seen? then seen[|seen| - 1].ended
    else Clock(start, seen[..|seen| - 1])
  }

  function Sessions(seen: seq<Seen>): seq<Session> {
    if seen == [] then []
    else
      var e := seen[|seen| - 1];
      Sessions(seen[..|seen| - 1]) + (if e.Seen? && e.outcome == SignedIn then [Session(e.email, e.ended)] else [])
  }

  /** What the attempt `call` must come to after these calls: an unknown address and a
      wrong password look alike; a locked account is refused without a comparison, however
      right the password, and told the least whole number of seconds that outlast the
      lock; and only a right password on a verified account signs in. */
  ghost predicate Rightly(cfg: Config, start: int, calls: seq<Call>, seen: seq<Seen>, call: Call, e: Seen)
    requires |seen| == |calls| && call.Attempt?
  {
    var email := call.email;
    && e.Seen? && e.email == email && e.correct == call.correct && e.began == Clock(start, seen) + call.wait
    && if !Registered(calls, email) then e.outcome == InvalidCredentials && e.ended == e.began
       else if LockedOut(cfg, calls, seen, email, e.began) then
         var left := LastFailure(calls, seen, email) + cfg.lockoutMinutes * 60 * 1000 - e.began;
         && e.ended == e.began && e.outcome.AccountLocked?
         && 1000 * (e.outcome.retryAfterSeconds - 1) < left <= 1000 * e.outcome.retryAfterSeconds
       else
         && e.ended == e.began + call.took
         && e.outcome == if !call.correct then InvalidCredentials
                         else if !Verified(calls, email) then EmailNotVerified
                         else SignedIn
  }

  // ---------- the rows are the history ----------

  ghost predicate RowIsHistory(cfg: Config, s: State, calls: seq<Call>, seen: seq<Seen>, email: string)
    requires |seen| == |calls|
  {
    && (email in s.accounts <==> Registered(calls, email))
    && (email in s.accounts ==>
          var u, failures := s.accounts[email].user, Failures(calls, seen, email);
          && u.failedLoginCount == failures == s.accounts[email].compared
          && (u.verified <==> Verified(calls, email))
          && u.lockedUntil == if failures > 0 && failures >= cfg.maxFailedAttempts
                              then Some(LastFailure(calls, seen, email) + cfg.lockoutMinutes * 60 * 1000) else None)
    && (email !in s.accounts ==> Failures(calls, seen, email) == 0 && !Verified(calls, email))
  }

  lemma VerifiedLast(calls: seq<Call>, email: string)
    requires calls != []
    ensures var n := |calls| - 1;
            Verified(calls, email) <==>
              Verified(calls[..n], email) || (calls[n] == Verify(email) && Registered(calls[..n], email))
  {
    var n := |calls| - 1;
    if Verified(calls, email) {
      var r, v :| 0 <= r < v < |calls| && calls[r] == Register(email) && calls[v] == Verify(email);
      assert calls[..n][r] == Register(email);
      if v < n { assert calls[..n][v] == Verify(email); }
    }
    if Verified(calls[..n], email) {
      var r, v :| 0 <= r < v < n && calls[..n][r] == Register(email) && calls[..n][v] == Verify(email);
      assert calls[r] == Register(email) && calls[v] == Verify(email);
    }
    if calls[n] == Verify(email) && Registered(calls[..n], email) {
      var r :| 0 <= r < n && calls[..n][r] == Register(email);
      assert calls[r] == Register(email);
    }
  }

  lemma RegisteredLast(calls: seq<Call>, email: string)
    requires calls != []
    ensures var n := |calls| - 1;
            Registered(calls, email) <==> Registered(calls[..n], email) || calls[n] == Register(email)
  {
    assert calls == calls[..|calls| - 1] + [calls[|calls| - 1]];
  }

  lemma RowStep(cfg: Config, s: State, calls: seq<Call>, seen: seq<Seen>, email: string)
    requires |seen| == |calls| && calls != []
    requires var n := |calls| - 1;
             RowIsHistory(cfg, s, calls[..n], seen[..n], email) && seen[n] == Look(cfg, s, calls[n])
    ensures RowIsHistory(cfg, Step(cfg, s, calls[|calls| - 1]), calls, seen, email)
  {
    RegisteredLast(calls, email);
    VerifiedLast(calls, email);
    hide Registered, Verified;
  }

  lemma {:induction false} RowsAreHistory(cfg: Config, start: int, calls: seq<Call>, email: string)
    ensures RowIsHistory(cfg, Run(cfg, Start(start), calls), calls, Observed(cfg, start, calls), email)
    decreases |calls|
  {
    if calls != [] {
      var n := |calls| - 1;
      var s := Run(cfg, Start(start), calls[..n]);
      RowsAreHistory(cfg, start, calls[..n], email);
      RunLast(cfg, Start(start), calls);
      ObservedPrefix(cfg, start, calls, n);
      hide RowIsHistory, Run, Observed, Step, Look;
      RowStep(cfg, s, calls, Observed(cfg, start, calls), email);
    }
  }

  lemma StepSeen(cfg: Config, s: State, call: Call)
    ensures var t, e := Step(cfg, s, call), Look(cfg, s, call);
            && t.now == (if e.Seen? then e.ended else s.now)
            && t.sessions
               == s.sessions + (if e.Seen? && e.outcome == SignedIn then [Session(e.email, e.ended)] else [])
  {}

  lemma {:induction false} ClockAndSessions(cfg: Config, start: int, calls: seq<Call>)
    ensures var s, seen := Run(cfg, Start(start), calls), Observed(cfg, start, calls);
            s.now == Clock(start, seen) && s.sessions == Sessions(seen)
    decreases |calls|
  {
    if calls != [] {
      hide Step, Look, Run;
      var n := |calls| - 1;
      ClockAndSessions(cfg, start, calls[..n]);
      RunLast(cfg, Start(start), calls);
      ObservedPrefix(cfg, start, calls, n);
      StepSeen(cfg, Run(cfg, Start(start), calls[..n]), calls[n]);
      hide Observed;
    } else {
      assert Run(cfg, Start(start), []) == Start(start);
    }
  }

  // ---------- what callers see ----------

  /** Every attempt in every serial run comes to what the calls and outcomes before it
      make right. */
  lemma OutcomeIsRight(cfg: Config, start: int, calls: seq<Call>, k: nat)
    requires k < |calls| && calls[k].Attempt?
    ensures var seen := Observed(cfg, start, calls);
            Rightly(cfg, start, calls[..k], seen[..k], calls[k], seen[k])
  {
    hide Run, Observed, Registered, Verified, Failures, LastFailure, Clock, Sessions, RowIsHistory, Step, Look, Rightly;
    ObservedPrefix(cfg, start, calls, k);
    RowsAreHistory(cfg, start, calls[..k], calls[k].email);
    ClockAndSessions(cfg, start, calls[..k]);
    LookIsRight(cfg, start, calls[..k], Observed(cfg, start, calls)[..k], Run(cfg, Start(start), calls[..k]), calls[k]);
  }

  lemma LookIsRight(cfg: Config, start: int, calls: seq<Call>, seen: seq<Seen>, s: State, call: Call)
    requires |seen| == |calls| && call.Attempt? && s.now == Clock(start, seen)
    requires RowIsHistory(cfg, s, calls, seen, call.email)
    ensures Rightly(cfg, start, calls, seen, call, Look(cfg, s, call))
  {
    hide Registered, Verified, Failures, LastFailure, Clock;
    if OutcomeOf(cfg, s, call).AccountLocked? { RetryAfterUnlocks(cfg, s, call); }
  }

  lemma {:induction false} SessionSeen(seen: seq<Seen>, i: nat) returns (k: nat)
    requires i < |Sessions(seen)|
    ensures k < |seen| && seen[k].Seen? && seen[k].outcome == SignedIn
    ensures Sessions(seen)[i] == Session(seen[k].email, seen[k].ended) && |Sessions(seen[..k])| == i
    decreases |seen|
  {
    var n := |seen| - 1;
    if i < |Sessions(seen[..n])| {
      k := SessionSeen(seen[..n], i);
      assert seen[..n][..k] == seen[..k];
    } else {
      k := n;
    }
  }

  /** Each session there is was issued by an attempt with the right password on an address
      that had been verified after it was registered, and that was not locked out. */
  lemma SessionsAreEarned(cfg: Config, start: int, calls: seq<Call>, i: nat) returns (k: nat)
    requires i < |Run(cfg, Start(start), calls).sessions|
    ensures var session := Run(cfg, Start(start), calls).sessions[i];
            var seen := Observed(cfg, start, calls);
            && k < |calls| && calls[k].Attempt? && calls[k].email == session.email && calls[k].correct
            && Verified(calls[..k], session.email)
            && seen[k].Seen? && session.at == seen[k].ended
            && !LockedOut(cfg, calls[..k], seen[..k], session.email, seen[k].began)
  {
    ClockAndSessions(cfg, start, calls);
    var seen := Observed(cfg, start, calls);
    k := SessionSeen(seen, i);
    ObservedPrefix(cfg, start, calls, k);
    OutcomeIsRight(cfg, start, calls, k);
    hide Run, Observed, Registered, Verified, LockedOut, Clock, Sessions;
  }

  /** And the right password on a verified account issues exactly one, unless the account
      is locked out, and then none. */
  lemma RightPasswordSignsIn(cfg: Config, start: int, calls: seq<Call>, attempt: Call)
    requires attempt.Attempt? && attempt.correct && Verified(calls, attempt.email)
    ensures var seen, before := Observed(cfg, start, calls), Run(cfg, Start(start), calls).sessions;
            var began := Clock(start, seen) + attempt.wait;
            Run(cfg, Start(start), calls + [attempt]).sessions ==
              if LockedOut(cfg, calls, seen, attempt.email, began) then before
              else before + [Session(attempt.email, began + attempt.took)]
  {
    hide Run, Observed, Registered, Verified, LockedOut, Clock, Sessions, Rightly;
    var all, n := calls + [attempt], |calls|;
    var seen := Observed(cfg, start, all);
    assert all[..n] == calls;
    VerifiedMeansRegistered(calls, attempt.email);
    ObservedPrefix(cfg, start, all, n);
    OutcomeIsRight(cfg, start, all, n);
    ClockAndSessions(cfg, start, calls);
    ClockAndSessions(cfg, start, all);
    SessionsLast(seen);
    RightlySignsIn(cfg, start, calls, seen[..n], attempt, seen[n]);
  }

  lemma SessionsLast(seen: seq<Seen>)
    requires seen != []
    ensures var e, before := seen[|seen| - 1], Sessions(seen[..|seen| - 1]);
            Sessions(seen) == if e.Seen? && e.outcome == SignedIn then before + [Session(e.email, e.ended)] else before
  {}

  lemma RightlySignsIn(cfg: Config, start: int, calls: seq<Call>, seen: seq<Seen>, attempt: Call, e: Seen)
    requires |seen| == |calls| && attempt.Attempt? && attempt.correct
    requires Registered(calls, attempt.email) && Verified(calls, attempt.email)
    requires Rightly(cfg, start, calls, seen, attempt, e)
    ensures e.Seen? && e.email == attempt.email && e.began == Clock(start, seen) + attempt.wait
    ensures e.outcome == SignedIn <==> !LockedOut(cfg, calls, seen, attempt.email, e.began)
    ensures e.outcome == SignedIn ==> e.ended == e.began + attempt.took
  {
    hide Registered, Verified, LockedOut, LastFailure, Clock;
  }

  lemma VerifiedMeansRegistered(calls: seq<Call>, email: string)
    requires Verified(calls, email)
    ensures Registered(calls, email)
  {}
}
