/**
 The login lockout of app/actions/auth-legacy.ts, with the steps elsewhere that touch the same two columns: the
 24-hour restriction of app/actions/admin.ts and the password resets.  One account; each action is one atomic step.
 Times are milliseconds.
 */
module Lockout {
  import opened Common

  const MAX_FAILURES := 5
  const LOCKOUT_MS := 15 * 60 * 1000
  const RESTRICTION_MS := 24 * 60 * 60 * 1000

  datatype Account = Account(failedLoginAttempts: nat, lockoutUntil: Option<int>, isBanned: bool, isApproved: bool, isAdmin: bool)

  datatype Outcome = Locked(remainingMinutes: int) | WrongPassword | Banned | Unapproved | LoggedIn

  /* ------------------------------- specification ----------------------------- */

  predicate IsLocked(a: Account, now: int) {
    a.lockoutUntil.Some? && a.lockoutUntil.value > now
  }

  /** Math.ceil(ms / 60000). */
  function CeilMinutes(ms: int): int {
    (ms + 59_999) / 60_000
  }

  function Failed(a: Account, now: int): Account {
    a.(failedLoginAttempts := a.failedLoginAttempts + 1,
       lockoutUntil := if a.failedLoginAttempts + 1 >= MAX_FAILURES then Some(now + LOCKOUT_MS) else None)
  }

  function Cleared(a: Account): Account {
    a.(failedLoginAttempts := 0, lockoutUntil := None)
  }

  /** What one login attempt answers. */
  function Answer(a: Account, now: int, validPassword: bool): Outcome {
    if IsLocked(a, now) then Locked(CeilMinutes(a.lockoutUntil.value - now))
    else if !validPassword then WrongPassword
    else if a.isBanned then Banned
    else if !a.isApproved then Unapproved
    else LoggedIn
  }

  function AfterLogin(a: Account, now: int, validPassword: bool): Account {
    match Answer(a, now, validPassword)
    case WrongPassword => Failed(a, now)
    case LoggedIn => Cleared(a)
    case _ => a
  }

  /** RESTRICT_24H: refused for an admin. */
  function AfterRestriction(a: Account, now: int): Account {
    if a.isAdmin then a else a.(lockoutUntil := Some(now + RESTRICTION_MS))
  }

  /** A user row, with the actions that write its lockout columns. */
  class UserRow {
    var row: Account

    method LoginUser(now: int, validPassword: bool) returns (outcome: Outcome)
      modifies this
      ensures outcome == Answer(old(row), now, validPassword)
      ensures row == AfterLogin(old(row), now, validPassword)
    {
      if row.lockoutUntil.Some? && row.lockoutUntil.value > now {
        return Locked(CeilMinutes(row.lockoutUntil.value - now));
      }
      if !validPassword {
        var newFailedAttempts := row.failedLoginAttempts + 1;
        var lockoutUntil: Option<int> := None;
        if newFailedAttempts >= 5 {
          lockoutUntil := Some(now + 15 * 60 * 1000);
        }
        row := row.(failedLoginAttempts := newFailedAttempts, lockoutUntil := lockoutUntil);
        return WrongPassword;
      }
      if row.isBanned {
        return Banned;
      }
      if !row.isApproved {
        return Unapproved;
      }
      row := row.(failedLoginAttempts := 0, lockoutUntil := None);
      outcome := LoggedIn;
    }

    method RestrictFor24Hours(now: int) returns (ok: bool)
      modifies this
      ensures ok == !old(row).isAdmin && row == AfterRestriction(old(row), now)
    {
      if row.isAdmin {
        return false;
      }
      row := row.(lockoutUntil := Some(now + 24 * 60 * 60 * 1000));
      ok := true;
    }

    /** recoverPassword needs a correct answer and an account that is not banned; the e-mailed code needs only itself. */
    method RecoverPassword(validAnswer: bool) returns (ok: bool)
      modifies this
      ensures ok == (validAnswer && !old(row).isBanned)
      ensures row == if ok then Cleared(old(row)) else old(row)
    {
      if row.isBanned || !validAnswer {
        return false;
      }
      row := row.(failedLoginAttempts := 0, lockoutUntil := None);
      ok := true;
    }
  }

  /* ----------------------------------- runs ---------------------------------- */

  datatype State = State(now: int, account: Account)

  /** Recover is either kind of password reset; Moderate sets the flags the other admin actions set. */
  datatype Event = Tick(ms: nat) | Login(validPassword: bool) | Restrict | Recover | Moderate(isBanned: bool, isApproved: bool, isAdmin: bool)

  function Step(s: State, e: Event): State {
    match e
    case Tick(ms) => s.(now := s.now + ms)
    case Login(valid) => s.(account := AfterLogin(s.account, s.now, valid))
    case Restrict => s.(account := AfterRestriction(s.account, s.now))
    case Recover => s.(account := Cleared(s.account))
    case Moderate(banned, approved, admin) => s.(account := s.account.(isBanned := banned, isApproved := approved, isAdmin := admin))
  }

  function Run(s: State, events: seq<Event>): State
    decreases |events|
  {
    if events == [] then s else Run(Step(s, events[0]), events[1..])
  }

  /* ------------------------------- what is answered -------------------------- */

  /** A login succeeds exactly with the right password, on an account that is not locked, not banned, and approved; it
      clears the lock and the count. */
  lemma LogsInIff(a: Account, now: int, validPassword: bool)
    ensures Answer(a, now, validPassword) == LoggedIn <==>
              validPassword && !a.isBanned && a.isApproved && !(a.lockoutUntil.Some? && a.lockoutUntil.value > now)
    ensures Answer(a, now, validPassword) == LoggedIn ==>
              AfterLogin(a, now, validPassword) == Account(0, None, false, true, a.isAdmin)
  {
  }

  /** Under a lock nothing is checked and nothing changes, and the answer is the time left in minutes, rounded up. */
  lemma LockedIff(a: Account, now: int, validPassword: bool, minutes: int)
    ensures Answer(a, now, validPassword) == Locked(minutes) <==>
              a.lockoutUntil.Some? && a.lockoutUntil.value > now && (minutes - 1) * 60_000 < a.lockoutUntil.value - now <= minutes * 60_000
    ensures Answer(a, now, validPassword).Locked? ==> AfterLogin(a, now, validPassword) == a
  {
  }

  /** A wrong password is counted, and locks the account for 15 minutes if it is the fifth or a later one; a right one for a
      banned or unapproved account changes nothing. */
  lemma WrongIsCounted(a: Account, now: int, validPassword: bool)
    requires !IsLocked(a, now)
    ensures Answer(a, now, validPassword) == WrongPassword <==> !validPassword
    ensures AfterLogin(a, now, false) ==
              Account(a.failedLoginAttempts + 1, if a.failedLoginAttempts >= 4 then Some(now + 900_000) else None,
                      a.isBanned, a.isApproved, a.isAdmin)
    ensures a.isBanned || !a.isApproved ==> AfterLogin(a, now, true) == a
  {
  }

  ghost predicate LockedUntil(s: State, end: int) {
    s.now < end ==> s.account.lockoutUntil.Some? && s.account.lockoutUntil.value >= end
  }

  lemma {:induction false} StaysLocked(s: State, events: seq<Event>, end: int)
    requires LockedUntil(s, end) && end <= s.now + RESTRICTION_MS && forall e | e in events :: e != Recover
    ensures LockedUntil(Run(s, events), end)
    decreases |events|
  {
    if events != [] {
      assert events[0] in events && forall e | e in events[1..] :: e in events;
      StaysLocked(Step(s, events[0]), events[1..], end);
    }
  }

  /** For 24 hours after a restriction, whatever else happens short of a password recovery, every login to an account that was
      not an administrator's is answered that it is locked, and changes nothing. */
  lemma RestrictionHolds(s: State, events: seq<Event>, t: State, validPassword: bool)
    requires !s.account.isAdmin && t == Run(Step(s, Restrict), events) && t.now < s.now + 24 * 60 * 60 * 1000
    requires forall e | e in events :: e != Recover
    ensures Answer(t.account, t.now, validPassword).Locked? && AfterLogin(t.account, t.now, validPassword) == t.account
  {
    StaysLocked(Step(s, Restrict), events, s.now + RESTRICTION_MS);
  }

  /** A recovery, and nothing about anybody's standing, clears the lock and the count. */
  lemma RecoveryClears(s: State)
    ensures Step(s, Recover) == State(s.now, Account(0, None, s.account.isBanned, s.account.isApproved, s.account.isAdmin))
  {
  }

  /** As long as no moderation changes its standing, a banned or unapproved account never logs in. */
  lemma {:induction false} BannedNeverLogsIn(s: State, events: seq<Event>, t: State, validPassword: bool)
    requires (s.account.isBanned || !s.account.isApproved) && t == Run(s, events) && forall e | e in events :: !e.Moderate?
    ensures Answer(t.account, t.now, validPassword) != LoggedIn
    decreases |events|
  {
    if events != [] {
      assert events[0] in events && forall e | e in events[1..] :: e in events;
      BannedNeverLogsIn(Step(s, events[0]), events[1..], t, validPassword);
    }
  }

  /* ------------------------------ what is counted ---------------------------- */

  /** The event is a wrong password that is checked, not one refused by the lock. */
  predicate ChecksWrong(s: State, e: Event) {
    e.Login? && Answer(s.account, s.now, e.validPassword) == WrongPassword
  }

  /** The event is a successful login or a recovery. */
  predicate Clears(s: State, e: Event) {
    e.Recover? || (e.Login? && Answer(s.account, s.now, e.validPassword) == LoggedIn)
  }

  predicate Within(t: int, first: int, last: int) {
    first <= t <= last
  }

  /** The wrong passwords a run checks at times in [first, last]. */
  function WrongChecks(s: State, events: seq<Event>, first: int, last: int): nat
    decreases |events|
  {
    if events == [] then 0
    else
      (if ChecksWrong(s, events[0]) && Within(s.now, first, last) then 1 else 0)
      + WrongChecks(Step(s, events[0]), events[1..], first, last)
  }

  /** The successes and recoveries of a run at times in [first, last]. */
  function Clearings(s: State, events: seq<Event>, first: int, last: int): nat
    decreases |events|
  {
    if events == [] then 0
    else
      (if Clears(s, events[0]) && Within(s.now, first, last) then 1 else 0)
      + Clearings(Step(s, events[0]), events[1..], first, last)
  }

  /* ---------------------------- the guessing budget -------------------------- */

  /** The wrong passwords that can still be checked up to `last`, if none can be before `open`. */
  function Budget(failed: nat, open: int, last: int): nat {
    if open > last then 0
    else (if failed < MAX_FAILURES - 1 then MAX_FAILURES - 1 - failed else 0) + 1 + (last - open) / LOCKOUT_MS
  }

  /** No password is checked before `open`, which is at most one lockout away. */
  predicate OpensAt(s: State, open: int) {
    s.now <= open <= s.now + LOCKOUT_MS && (open > s.now ==> s.account.lockoutUntil.Some? && s.account.lockoutUntil.value >= open)
  }

  lemma BudgetShrinks(failed: nat, open: int, later: int, last: int)
    requires open <= later
    ensures Budget(failed, later, last) <= Budget(failed, open, last)
  {
  }

  /** A checked wrong password pays one unit. */
  lemma WrongCheckPays(failed: nat, now: int, last: int)
    requires now <= last
    ensures Budget(failed + 1, if failed + 1 >= MAX_FAILURES then now + LOCKOUT_MS else now, last) + 1 <= Budget(failed, now, last)
  {
    if failed + 1 >= MAX_FAILURES && now + LOCKOUT_MS <= last {
      assert (last - now - LOCKOUT_MS) / LOCKOUT_MS + 1 == (last - now) / LOCKOUT_MS;
    }
  }

  /** Clearing the account at any moment adds at most five. */
  lemma ClearingAdds(failed: nat, open: int, now: int, last: int)
    requires now <= open <= now + LOCKOUT_MS && now <= last
    ensures Budget(0, now, last) <= Budget(failed, open, last) + MAX_FAILURES
  {
    if open <= last {
      assert (last - now) / LOCKOUT_MS <= (last - open) / LOCKOUT_MS + 1;
    } else {
      assert (last - now) / LOCKOUT_MS == 0;
    }
  }

  /** One step: what it checks and what is left are paid for by what was there and what it clears. */
  lemma StepPays(s: State, e: Event, open: int, last: int, next: State) returns (after: int)
    requires OpensAt(s, open) && s.now <= last && next == Step(s, e)
    ensures OpensAt(next, after)
    ensures (if ChecksWrong(s, e) then 1 else 0) + Budget(next.account.failedLoginAttempts, after, last)
            <= Budget(s.account.failedLoginAttempts, open, last) + (if Clears(s, e) then MAX_FAILURES else 0)
  {
    var failed := s.account.failedLoginAttempts;
    after := open;
    match e
    case Tick(ms) =>
      after := if open < next.now then next.now else open;
      BudgetShrinks(failed, open, after, last);
    case Login(valid) =>
      if ChecksWrong(s, e) {
        assert open == s.now;
        after := if failed + 1 >= MAX_FAILURES then s.now + LOCKOUT_MS else s.now;
        WrongCheckPays(failed, s.now, last);
      } else if Clears(s, e) {
        after := s.now;
        ClearingAdds(failed, open, s.now, last);
      }
    case Recover =>
      after := s.now;
      ClearingAdds(failed, open, s.now, last);
    case _ =>
  }

  /** After the interval nothing is counted. */
  lemma {:induction false} NothingAfter(s: State, events: seq<Event>, first: int, last: int)
    requires s.now > last
    ensures WrongChecks(s, events, first, last) == 0
    decreases |events|
  {
    if events != [] {
      NothingAfter(Step(s, events[0]), events[1..], first, last);
    }
  }

  lemma {:induction false} InsideTheInterval(s: State, open: int, events: seq<Event>, first: int, last: int)
    requires first <= s.now && OpensAt(s, open)
    ensures WrongChecks(s, events, first, last)
            <= Budget(s.account.failedLoginAttempts, open, last) + MAX_FAILURES * Clearings(s, events, first, last)
    decreases |events|
  {
    if s.now > last {
      NothingAfter(s, events, first, last);
    } else if events != [] {
      var next := Step(s, events[0]);
      var after := StepPays(s, events[0], open, last, next);
      InsideTheInterval(next, after, events[1..], first, last);
    }
  }

  /** From any account, over any run with any restrictions, a closed interval contains at most
      5 · (successes and recoveries in it, plus one) + ⌊length / 15 min⌋ wrong-password checks. */
  lemma {:induction false} GuessesAreBounded(s: State, events: seq<Event>, first: int, last: int)
    requires first <= last
    ensures WrongChecks(s, events, first, last)
            <= MAX_FAILURES * (Clearings(s, events, first, last) + 1) + (last - first) / LOCKOUT_MS
    decreases |events|
  {
    if s.now >= first {
      var lock := if s.account.lockoutUntil.Some? then s.account.lockoutUntil.value else s.now;
      var open := if lock <= s.now then s.now else if lock <= s.now + LOCKOUT_MS then lock else s.now + LOCKOUT_MS;
      InsideTheInterval(s, open, events, first, last);
      BudgetShrinks(s.account.failedLoginAttempts, first, open, last);
    } else if events != [] {
      GuessesAreBounded(Step(s, events[0]), events[1..], first, last);
    }
  }

  /** Without success or recovery: at most 5 + ⌊length / 15 min⌋. */
  lemma LockoutBound(s: State, events: seq<Event>, first: int, last: int)
    requires first <= last && Clearings(s, events, first, last) == 0
    ensures WrongChecks(s, events, first, last) <= 5 + (last - first) / LOCKOUT_MS
  {
    GuessesAreBounded(s, events, first, last);
  }

  /* ------------------------------- and it is reached ------------------------- */

  /** A wrong password every 15 minutes. */
  function Patient(k: nat): seq<Event> {
    if k == 0 then [] else [Tick(LOCKOUT_MS), Login(false)] + Patient(k - 1)
  }

  /** Once locked out, an account accepts exactly one more guess each time the lock runs out. */
  lemma {:induction false} PatienceCounts(s: State, k: nat, first: int, last: int)
    requires s.account.failedLoginAttempts >= 4 && s.account.lockoutUntil == Some(s.now + LOCKOUT_MS)
    requires first <= s.now && s.now + k * LOCKOUT_MS <= last
    ensures WrongChecks(s, Patient(k), first, last) == k && Clearings(s, Patient(k), first, last) == 0
    decreases k
  {
    if k > 0 {
      var events := Patient(k);
      var a := Step(s, Tick(LOCKOUT_MS));
      var b := Step(a, Login(false));
      assert events[0] == Tick(LOCKOUT_MS) && events[1..] == [Login(false)] + Patient(k - 1);
      assert events[1..][1..] == Patient(k - 1);
      assert k * LOCKOUT_MS == LOCKOUT_MS + (k - 1) * LOCKOUT_MS;
      PatienceCounts(b, k - 1, first, last);
    }
  }

  lemma OneWrongLogin(s: State, rest: seq<Event>, first: int, last: int, next: State)
    requires Within(s.now, first, last) && !IsLocked(s.account, s.now) && next == Step(s, Login(false))
    ensures WrongChecks(s, [Login(false)] + rest, first, last) == 1 + WrongChecks(next, rest, first, last)
    ensures Clearings(s, [Login(false)] + rest, first, last) == Clearings(next, rest, first, last)
  {
    assert ([Login(false)] + rest)[1..] == rest;
  }

  /** From a cleared account the bound is met exactly, for every interval length: five guesses at once, then one every
      15 minutes. */
  lemma BoundIsReached(s: State, last: int, k: nat, events: seq<Event>)
    requires s.account.failedLoginAttempts == 0 && s.account.lockoutUntil == None
    requires s.now <= last && k == (last - s.now) / LOCKOUT_MS
    requires events == [Login(false)] + ([Login(false)] + ([Login(false)] + ([Login(false)] + ([Login(false)] + Patient(k)))))
    ensures WrongChecks(s, events, s.now, last) == 5 + k && Clearings(s, events, s.now, last) == 0
  {
    var bad := Login(false);
    var s1 := Step(s, bad);
    var s2 := Step(s1, bad);
    var s3 := Step(s2, bad);
    var s4 := Step(s3, bad);
    var s5 := Step(s4, bad);
    OneWrongLogin(s, [bad] + ([bad] + ([bad] + ([bad] + Patient(k)))), s.now, last, s1);
    OneWrongLogin(s1, [bad] + ([bad] + ([bad] + Patient(k))), s.now, last, s2);
    OneWrongLogin(s2, [bad] + ([bad] + Patient(k)), s.now, last, s3);
    OneWrongLogin(s3, [bad] + Patient(k), s.now, last, s4);
    OneWrongLogin(s4, Patient(k), s.now, last, s5);
    assert s5 == State(s.now, Failed(s4.account, s.now));
    PatienceCounts(s5, k, s.now, last);
  }
}
