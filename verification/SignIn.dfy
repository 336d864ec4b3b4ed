/** auth.service.ts `signIn` and its rows in users.repository.ts: counting failures and
    locking the account. Instants are milliseconds; a password check is an oracle. */
module SignIn {
  import opened Wrappers
  import opened Numbers

  datatype Config = Config(maxFailedAttempts: nat, lockoutMinutes: nat) {
    function Lockout(): nat { lockoutMinutes * 60 * 1000 }

    /** A maximum of zero locks on the first failure, like a maximum of one. */
    function Free(): nat { if maxFailedAttempts == 0 then 1 else maxFailedAttempts }
  }

  datatype User = User(failedLoginCount: nat, lockedUntil: Option<int>, verified: bool)

  datatype Outcome = InvalidCredentials | AccountLocked(retryAfterSeconds: int) | EmailNotVerified | SignedIn

  /** The account's row and its history: the passwords compared since the last correct
      one, which was at `since`, and the end of the last comparison. */
  datatype Account = Account(user: User, compared: nat, since: int, lastEnd: int)

  datatype Session = Session(email: string, at: int)

  datatype State = State(now: int, accounts: map<string, Account>, sessions: seq<Session>)

  /** One call after another: an attempt comes `wait` after the call before it, and its
      comparison, if made, takes `took` and finds the password right or wrong. */
  datatype Call =
    | Register(email: string)
    | Verify(email: string)
    | Attempt(email: string, wait: nat, took: nat, correct: bool)

  predicate Locked(u: User, at: int) {
    u.lockedUntil.Some? && u.lockedUntil.value > at
  }

  /** `recordFailedLogin`. */
  function AfterFailure(cfg: Config, u: User, at: int): User {
    u.(failedLoginCount := u.failedLoginCount + 1,
       lockedUntil := if u.failedLoginCount + 1 >= cfg.maxFailedAttempts then Some(at + cfg.Lockout()) else None)
  }

  /** `resetFailedLogin`. */
  function AfterSuccess(u: User): User {
    u.(failedLoginCount := 0, lockedUntil := None)
  }

  function Created(now: int): Account {
    Account(User(0, None, false), 0, now, now)
  }

  function Compared(cfg: Config, a: Account, end: int, correct: bool): Account {
    if correct then Account(AfterSuccess(a.user), 0, end, end)
    else Account(AfterFailure(cfg, a.user, end), a.compared + 1, a.since, end)
  }

  function OutcomeOf(cfg: Config, s: State, call: Call): Outcome
    requires call.Attempt?
  {
    var at := s.now + call.wait;
    if call.email !in s.accounts then InvalidCredentials
    else
      var u := s.accounts[call.email].user;
      if Locked(u, at) then AccountLocked(CeilSeconds(u.lockedUntil.value - at))
      else if !call.correct then InvalidCredentials
      else if !u.verified then EmailNotVerified
      else SignedIn
  }

  function Step(cfg: Config, s: State, call: Call): State {
    match call
    case Register(email) =>
      if email in s.accounts then s else s.(accounts := s.accounts[email := Created(s.now)])
    case Verify(email) =>
      if email !in s.accounts then s
      else s.(accounts := s.accounts[email := s.accounts[email].(user := s.accounts[email].user.(verified := true))])
    case Attempt(email, wait, took, correct) =>
      var at := s.now + wait;
      if email !in s.accounts || Locked(s.accounts[email].user, at) then s.(now := at)
      else
        var a := s.accounts[email];
        State(at + took,
              s.accounts[email := Compared(cfg, a, at + took, correct)],
              if correct && a.user.verified then s.sessions + [Session(email, at + took)]
              else s.sessions)
  }

  function Run(cfg: Config, s: State, calls: seq<Call>): State
    decreases |calls|
  {
    if calls == [] then s else Run(cfg, Step(cfg, s, calls[0]), calls[1..])
  }

  function Start(now: int): State {
    State(now, map[], [])
  }

  class AuthService {
    const cfg: Config
    var now: int
    var users: map<string, User>
    ghost var accounts: map<string, Account>
    var sessions: seq<Session>

    ghost predicate Valid()
      reads this
    {
      && users.Keys == accounts.Keys
      && (forall e | e in users :: accounts[e].user == users[e])
    }

    ghost function View(): State
      reads this
    {
      State(now, accounts, sessions)
    }

    constructor (config: Config, start: int)
      ensures Valid() && View() == Start(start) && cfg == config
    {
      cfg, now, users, accounts, sessions := config, start, map[], map[], [];
    }

    method Elapse() returns (d: nat)
      modifies this`now
      ensures now == old(now) + d
    {
      d := *;
      now := now + d;
    }

    method RecordFailedLogin(email: string, lockUntil: Option<int>)
      requires email in users
      modifies this`users
      ensures var row := old(users)[email];
              users == old(users)[email := row.(failedLoginCount := row.failedLoginCount + 1, lockedUntil := lockUntil)]
    {
      var row := users[email];
      users := users[email := row.(failedLoginCount := row.failedLoginCount + 1, lockedUntil := lockUntil)];
    }

    method ResetFailedLogin(email: string)
      requires email in users
      modifies this`users
      ensures users == old(users)[email := AfterSuccess(old(users)[email])]
    {
      users := users[email := users[email].(failedLoginCount := 0, lockedUntil := None)];
    }

    /** One sign-in, overlapping no other. */
    method SignIn(email: string) returns (outcome: Outcome, ghost call: Call)
      requires Valid()
      modifies this
      ensures Valid()
      ensures call.Attempt? && call.email == email && outcome == OutcomeOf(cfg, old(View()), call)
      ensures View() == Step(cfg, old(View()), call)
    {
      var wait := Elapse();
      call := Attempt(email, wait, 0, false);
      if email !in users {
        return InvalidCredentials, call;
      }
      var user := users[email];
      if user.lockedUntil.Some? && user.lockedUntil.value > now {
        return AccountLocked(CeilSeconds(user.lockedUntil.value - now)), call;
      }
      var passwordOk: bool := *;
      var took := Elapse();
      call := Attempt(email, wait, took, passwordOk);
      ghost var account := Compared(cfg, accounts[email], now, passwordOk);
      if !passwordOk {
        var nextCount := user.failedLoginCount + 1;
        var lockUntil :=
          if nextCount >= cfg.maxFailedAttempts then Some(now + cfg.lockoutMinutes * 60 * 1000) else None;
        RecordFailedLogin(email, lockUntil);
        accounts := accounts[email := account];
        return InvalidCredentials, call;
      }
      ResetFailedLogin(email);
      accounts := accounts[email := account];
      if !user.verified {
        return EmailNotVerified, call;
      }
      sessions := sessions + [Session(email, now)];
      return SignedIn, call;
    }
  }

  // ---------- over any serial run ----------

  /** From the maximum on, every failure puts the lock another whole lockout further. */
  predicate AccountKept(cfg: Config, now: int, a: Account) {
    && a.since <= a.lastEnd <= now
    && a.user.failedLoginCount == a.compared
    && (a.compared < cfg.Free() ==> a.user.lockedUntil == None)
    && (a.compared >= cfg.Free() ==>
          a.user.lockedUntil == Some(a.lastEnd + cfg.Lockout())
          && a.lastEnd >= a.since + cfg.Lockout() * (a.compared - cfg.Free()))
  }

  ghost predicate Kept(cfg: Config, s: State) {
    forall e | e in s.accounts :: AccountKept(cfg, s.now, s.accounts[e])
  }

  lemma ComparedKept(cfg: Config, at: int, took: nat, a: Account, correct: bool)
    requires AccountKept(cfg, at, a) && !Locked(a.user, at)
    ensures AccountKept(cfg, at + took, Compared(cfg, a, at + took, correct))
  {
    if !correct && a.compared >= cfg.Free() {
      OneMore(cfg.Lockout(), a.compared - cfg.Free());
    }
  }

  lemma OneMore(l: nat, k: nat)
    ensures l * (k + 1) == l * k + l
  {}

  lemma StepKeeps(cfg: Config, s: State, call: Call)
    requires Kept(cfg, s)
    ensures Kept(cfg, Step(cfg, s, call)) && Step(cfg, s, call).now >= s.now
  {
    hide AccountKept, Compared;
    var t := Step(cfg, s, call);
    forall e | e in t.accounts ensures AccountKept(cfg, t.now, t.accounts[e]) {
      if e in s.accounts {
        LaterKept(cfg, s.now, t.now, s.accounts[e]);
        if call.Attempt? && call.email == e && !Locked(s.accounts[e].user, s.now + call.wait) {
          LaterKept(cfg, s.now, s.now + call.wait, s.accounts[e]);
          ComparedKept(cfg, s.now + call.wait, call.took, s.accounts[e], call.correct);
        }
        if call.Verify? { VerifiedKept(cfg, s.now, s.accounts[e]); }
      } else {
        CreatedKept(cfg, s.now);
      }
    }
  }

  lemma LaterKept(cfg: Config, now: int, later: int, a: Account)
    requires AccountKept(cfg, now, a) && now <= later
    ensures AccountKept(cfg, later, a)
  {}

  lemma VerifiedKept(cfg: Config, now: int, a: Account)
    requires AccountKept(cfg, now, a)
    ensures AccountKept(cfg, now, a.(user := a.user.(verified := true)))
  {}

  lemma CreatedKept(cfg: Config, now: int)
    ensures AccountKept(cfg, now, Created(now))
  {}

  lemma {:induction false} RunKeeps(cfg: Config, s: State, calls: seq<Call>)
    requires Kept(cfg, s)
    ensures Kept(cfg, Run(cfg, s, calls)) && Run(cfg, s, calls).now >= s.now
    decreases |calls|
  {
    hide Kept, Step;
    if calls != [] {
      StepKeeps(cfg, s, calls[0]);
      RunKeeps(cfg, Step(cfg, s, calls[0]), calls[1..]);
    }
  }

  /** After any serial run, an attempt is refused as locked exactly when the maximum has
      been reached since the last correct password and the lockout after the last failure
      is not over. The passwords compared since then, the one now compared included, are
      at most the maximum and one more for every full lockout elapsed. */
  lemma ComparisonsBounded(cfg: Config, start: int, calls: seq<Call>, email: string, wait: nat)
    requires cfg.Lockout() > 0
    ensures var s := Run(cfg, Start(start), calls);
            email in s.accounts ==>
              var a, at := s.accounts[email], s.now + wait;
              && (Locked(a.user, at) <==> a.compared >= cfg.Free() && at < a.lastEnd + cfg.Lockout())
              && (!Locked(a.user, at) ==> a.compared + 1 <= cfg.Free() + (at - a.since) / cfg.Lockout())
  {
    RunKeeps(cfg, Start(start), calls);
    var s := Run(cfg, Start(start), calls);
    if email in s.accounts {
      var a, at := s.accounts[email], s.now + wait;
      assert AccountKept(cfg, s.now, a);
      var l, k := cfg.Lockout(), a.compared - cfg.Free();
      if !Locked(a.user, at) {
        if k >= 0 {
          OneMore(l, k);
          DivAtLeast(at - a.since, l, k + 1);
        } else {
          DivAtLeast(at - a.since, l, 0);
        }
      }
    }
  }

  /** The wait a locked account is told is the least number of whole seconds after which
      the lock is over. */
  lemma RetryAfterUnlocks(cfg: Config, s: State, call: Call)
    requires call.Attempt? && OutcomeOf(cfg, s, call).AccountLocked?
    ensures var wait, at := OutcomeOf(cfg, s, call).retryAfterSeconds, s.now + call.wait;
            var u := s.accounts[call.email].user;
            wait >= 1 && !Locked(u, at + 1000 * wait) && Locked(u, at + 1000 * (wait - 1))
  {
    var left := s.accounts[call.email].user.lockedUntil.value - (s.now + call.wait);
    assert 1000 * (CeilSeconds(left) - 1) < left <= 1000 * CeilSeconds(left);
  }

  lemma {:induction false} RunLast(cfg: Config, s: State, calls: seq<Call>)
    requires calls != []
    ensures Run(cfg, s, calls) == Step(cfg, Run(cfg, s, calls[..|calls| - 1]), calls[|calls| - 1])
    decreases |calls|
  {
    hide Step;
    var n := |calls| - 1;
    if n == 0 {
      assert calls[1..] == [] && calls[..0] == [];
    } else {
      assert calls[..n][1..] == calls[1..][..n - 1];
      RunLast(cfg, Step(cfg, s, calls[0]), calls[1..]);
    }
  }

  /** The call that issued a session. */
  lemma {:induction false} IssuedBy(cfg: Config, start: int, calls: seq<Call>, i: nat) returns (k: nat)
    requires i < |Run(cfg, Start(start), calls).sessions|
    ensures k < |calls| && calls[k].Attempt?
    ensures var s := Run(cfg, Start(start), calls[..k]);
            && |s.sessions| == i && OutcomeOf(cfg, s, calls[k]) == SignedIn
            && Run(cfg, Start(start), calls).sessions[i]
               == Session(calls[k].email, s.now + calls[k].wait + calls[k].took)
    decreases |calls|
  {
    var n := |calls| - 1;
    RunLast(cfg, Start(start), calls);
    var s := Run(cfg, Start(start), calls[..n]);
    if i < |s.sessions| {
      k := IssuedBy(cfg, start, calls[..n], i);
      assert calls[..n][..k] == calls[..k];
    } else {
      k := n;
    }
  }

  /** Every session in any serial run was issued by an attempt whose comparison began only
      after the lockout: if the maximum had been reached since the last correct password,
      not before the end of the last failure plus the whole lockout. */
  lemma NoSessionWhileLocked(cfg: Config, start: int, calls: seq<Call>, i: nat) returns (k: nat)
    requires i < |Run(cfg, Start(start), calls).sessions|
    ensures k < |calls| && calls[k].Attempt?
    ensures var s := Run(cfg, Start(start), calls[..k]);
            var session := Run(cfg, Start(start), calls).sessions[i];
            && calls[k].email == session.email && session.email in s.accounts
            && var a, began := s.accounts[session.email], s.now + calls[k].wait;
               && session.at == began + calls[k].took
               && (a.compared >= cfg.Free() ==> began >= a.lastEnd + cfg.Lockout())
  {
    k := IssuedBy(cfg, start, calls, i);
    var s := Run(cfg, Start(start), calls[..k]);
    RunKeeps(cfg, Start(start), calls[..k]);
    assert AccountKept(cfg, s.now, s.accounts[calls[k].email]);
  }
}
