/**
 Revoking sessions: the freshness checks of lib/session-auth.ts and lib/fresh-session.ts against the user row, the
 actions that increment sessionVersion (app/actions/admin.ts, auth-legacy.ts and email-verification.ts), and the
 bootstrap reset of lib/auth-utils.ts, which does not.  Each action is one atomic step.  A session is the user part
 of a verified token; the lockout columns are the business of module Lockout.
 */
module Revocation {
  import opened Common
  import Base64Url
  import SessionToken

  type UserId = string
  type Session = SessionToken.User

  const ADMIN := "ADMIN"
  const ALLOWED_ROLES := {"USER", ADMIN}

  datatype Row = Row(role: string, isBanned: bool, isApproved: bool, isVerified: bool, passwordHash: string,
                     needsPasswordChange: bool, sessionVersion: int)

  type Users = map<UserId, Row>

  /* --------------------------------- freshness ------------------------------- */

  /** getFreshSessionUser. */
  function FreshUser(users: Users, session: Session): Option<Row> {
    if session.userId !in users then None
    else
      var row := users[session.userId];
      if row.isBanned || !row.isApproved || session.sessionVersion != row.sessionVersion then None else Some(row)
  }

  /** The check of loadFreshUser and requireAuthenticatedUser: the role must agree too. */
  function FreshUserSameRole(users: Users, session: Session): Option<Row> {
    var row := FreshUser(users, session);
    if row.Some? && row.value.role == session.role then row else None
  }

  predicate IsAdminSession(users: Users, session: Session) {
    session.role == ADMIN && FreshUserSameRole(users, session).Some?
  }

  /* ---------------------------------- actions -------------------------------- */

  datatype Moderation = Warn | Restrict24h | Ban | Unban | Approve | RevokeApproval | Verify | Unverify

  function Bumped(row: Row): Row {
    row.(sessionVersion := row.sessionVersion + 1)
  }

  function Moderated(row: Row, m: Moderation): Row {
    match m
    case Warn => row
    case Restrict24h => Bumped(row)
    case Ban => Bumped(row.(isBanned := true))
    case Unban => Bumped(row.(isBanned := false))
    case Approve => Bumped(row.(isApproved := true))
    case RevokeApproval => Bumped(row.(isApproved := false))
    case Verify => row.(isVerified := true)
    case Unverify => row.(isVerified := false)
  }

  function NewPassword(row: Row, hash: string): Row {
    Bumped(row.(passwordHash := hash, needsPasswordChange := false))
  }

  datatype Action =
    | UpdateUserRole(caller: Session, target: UserId, role: string)
    | ToggleUserApproval(caller: Session, target: UserId, isApproved: bool)
    | ToggleBanUser(caller: Session, target: UserId)
    | ApplyModeration(caller: Session, target: UserId, moderation: Moderation)
    | RecoverPassword(target: UserId, validAnswer: bool, hash: string)
    | ResetByCode(target: UserId, validCode: bool, hash: string)
    | UpdateAdminCredentials(caller: Session, hash: string)
    | ChangeAdminPassword(caller: Session, validCurrent: bool, hash: string)
    | BootstrapReset(target: UserId, hash: string)
  {
    /** The account the action is about. */
    function Subject(): UserId {
      match this
      case UpdateAdminCredentials(caller, _) => caller.userId
      case ChangeAdminPassword(caller, _, _) => caller.userId
      case _ => target
    }
  }

  /** What the action refuses to do: a caller who is no live admin, an unknown account, a protected admin, a bad secret. */
  predicate Refused(users: Users, a: Action) {
    || a.Subject() !in users
    || match a
       case UpdateUserRole(caller, _, role) => !IsAdminSession(users, caller) || role !in ALLOWED_ROLES
       case ToggleUserApproval(caller, target, approved) =>
         !IsAdminSession(users, caller) || (users[target].role == ADMIN && !approved)
       case ToggleBanUser(caller, target) => !IsAdminSession(users, caller) || users[target].role == ADMIN
       case ApplyModeration(caller, target, m) =>
         !IsAdminSession(users, caller) || (users[target].role == ADMIN && (m == Ban || m == Restrict24h))
       case RecoverPassword(target, valid, _) => users[target].isBanned || !valid
       case ResetByCode(_, valid, _) => !valid
       case UpdateAdminCredentials(caller, _) => !IsAdminSession(users, caller)
       case ChangeAdminPassword(caller, valid, _) => !IsAdminSession(users, caller) || !valid
       case BootstrapReset(_, _) => false
  }

  /** The row an action that is not refused writes. */
  function Written(row: Row, a: Action): Row {
    match a
    case UpdateUserRole(_, _, role) => Bumped(row.(role := role))
    case ToggleUserApproval(_, _, approved) => Bumped(row.(isApproved := approved))
    case ToggleBanUser(_, _) => Bumped(row.(isBanned := !row.isBanned))
    case ApplyModeration(_, _, m) => Moderated(row, m)
    case RecoverPassword(_, _, hash) => NewPassword(row, hash)
    case ResetByCode(_, _, hash) => NewPassword(row, hash)
    case UpdateAdminCredentials(_, hash) => NewPassword(row, hash)
    case ChangeAdminPassword(_, _, hash) => NewPassword(row, hash)
    case BootstrapReset(_, hash) => row.(role := ADMIN, isApproved := true, passwordHash := hash, needsPasswordChange := false)
  }

  function Act(users: Users, a: Action): Users {
    if Refused(users, a) then users else users[a.Subject() := Written(users[a.Subject()], a)]
  }

  /** A session passes as an administrator's exactly if it and its account say so, and the account is in good standing
      and has the session's version. */
  lemma AdminSessionIff(users: Users, session: Session)
    ensures IsAdminSession(users, session) <==>
              && session.role == "ADMIN" && session.userId in users
              && users[session.userId].role == "ADMIN" && !users[session.userId].isBanned && users[session.userId].isApproved
              && users[session.userId].sessionVersion == session.sessionVersion
  {
  }

  predicate SetsPassword(a: Action) {
    a.RecoverPassword? || a.ResetByCode? || a.UpdateAdminCredentials? || a.ChangeAdminPassword? || a.BootstrapReset?
  }

  predicate Moderates(a: Action, m: Moderation) {
    a.ApplyModeration? && a.moderation == m
  }

  /** Everything but the two recoveries and the bootstrap is for administrators. */
  predicate ByAdmin(a: Action) {
    !a.RecoverPassword? && !a.ResetByCode? && !a.BootstrapReset?
  }

  /** Field by field, what an action that goes ahead makes of its account's row. */
  ghost predicate Leaves(a: Action, was: Row, row: Row) {
    && row.role == (if a.UpdateUserRole? then a.role else if a.BootstrapReset? then "ADMIN" else was.role)
    && row.isBanned == (if Moderates(a, Ban) then true else if Moderates(a, Unban) then false
                        else if a.ToggleBanUser? then !was.isBanned else was.isBanned)
    && row.isApproved == (if a.ToggleUserApproval? then a.isApproved
                          else if Moderates(a, Approve) || a.BootstrapReset? then true
                          else if Moderates(a, RevokeApproval) then false else was.isApproved)
    && row.isVerified == (if Moderates(a, Verify) then true else if Moderates(a, Unverify) then false else was.isVerified)
    && row.passwordHash == (if SetsPassword(a) then a.hash else was.passwordHash)
    && row.needsPasswordChange == (was.needsPasswordChange && !SetsPassword(a))
    && row.sessionVersion == was.sessionVersion +
         (if a.BootstrapReset? || Moderates(a, Warn) || Moderates(a, Verify) || Moderates(a, Unverify) then 0 else 1)
  }

  lemma ModeratedLeaves(a: Action, was: Row, row: Row)
    requires a.ApplyModeration? && row == Moderated(was, a.moderation)
    ensures Leaves(a, was, row)
  {
  }

  lemma WrittenLeaves(a: Action, was: Row, row: Row)
    requires row == Written(was, a)
    ensures Leaves(a, was, row)
  {
    match a
    case ApplyModeration(_, _, _) => ModeratedLeaves(a, was, row);
    case _ =>
  }

  /** An action that is refused, or about somebody else, leaves a row alone; otherwise it makes exactly this of it. */
  lemma ActionIsExact(users: Users, a: Action, after: Users, id: UserId)
    requires after == Act(users, a) && id in users
    ensures after.Keys == users.Keys
    ensures if Refused(users, a) || a.Subject() != id then after[id] == users[id] else Leaves(a, users[id], after[id])
  {
    if !Refused(users, a) && a.Subject() == id {
      WrittenLeaves(a, users[id], after[id]);
    }
  }

  /** An action goes ahead exactly if the account exists, whoever must be a live administrator is one, the secret (where
      one is needed) is right, and it neither bans nor restricts an administrator, nor withdraws one's approval by the
      toggle, nor assigns an unknown role. */
  lemma AllowedIff(users: Users, a: Action)
    ensures !Refused(users, a) <==>
              && a.Subject() in users
              && (ByAdmin(a) ==> IsAdminSession(users, a.caller))
              && (a.UpdateUserRole? ==> a.role == "USER" || a.role == "ADMIN")
              && (a.ToggleBanUser? || Moderates(a, Ban) || Moderates(a, Restrict24h) ==> users[a.Subject()].role != "ADMIN")
              && (a.ToggleUserApproval? && !a.isApproved ==> users[a.Subject()].role != "ADMIN")
              && (a.RecoverPassword? ==> a.validAnswer && !users[a.Subject()].isBanned)
              && (a.ResetByCode? ==> a.validCode)
              && (a.ChangeAdminPassword? ==> a.validCurrent)
  {
  }

  /** The User table and the actions that write it; `ok` is false where the action answers an error. */
  class UserTable {
    var users: Users

    method RequireAdmin(session: Session) returns (ok: bool)
      ensures ok == IsAdminSession(users, session)
    {
      if session.role != ADMIN || session.userId !in users {
        return false;
      }
      var row := users[session.userId];
      if row.isBanned || !row.isApproved || session.sessionVersion != row.sessionVersion {
        return false;
      }
      ok := row.role == session.role;
    }

    method UpdateUserRole(caller: Session, target: UserId, role: string) returns (ok: bool)
      modifies this
      ensures var a := Action.UpdateUserRole(caller, target, role);
              ok == !Refused(old(users), a) && users == Act(old(users), a)
    {
      ok := RequireAdmin(caller);
      if !ok || role !in ALLOWED_ROLES || target !in users {
        return false;
      }
      var row := users[target];
      users := users[target := row.(role := role, sessionVersion := row.sessionVersion + 1)];
    }

    method ToggleUserApproval(caller: Session, target: UserId, isApproved: bool) returns (ok: bool)
      modifies this
      ensures var a := Action.ToggleUserApproval(caller, target, isApproved);
              ok == !Refused(old(users), a) && users == Act(old(users), a)
    {
      ok := RequireAdmin(caller);
      if !ok || target !in users {
        return false;
      }
      var row := users[target];
      if row.role == ADMIN && !isApproved {
        return false;
      }
      users := users[target := row.(isApproved := isApproved, sessionVersion := row.sessionVersion + 1)];
    }

    method ToggleBanUser(caller: Session, target: UserId) returns (ok: bool)
      modifies this
      ensures var a := Action.ToggleBanUser(caller, target);
              ok == !Refused(old(users), a) && users == Act(old(users), a)
    {
      ok := RequireAdmin(caller);
      if !ok || target !in users || users[target].role == ADMIN {
        return false;
      }
      var row := users[target];
      users := users[target := row.(isBanned := !row.isBanned, sessionVersion := row.sessionVersion + 1)];
    }

    method ApplyModerationAction(caller: Session, target: UserId, m: Moderation) returns (ok: bool)
      modifies this
      ensures var a := ApplyModeration(caller, target, m);
              ok == !Refused(old(users), a) && users == Act(old(users), a)
    {
      ok := RequireAdmin(caller);
      if !ok || target !in users {
        return false;
      }
      var row := users[target];
      if row.role == ADMIN && (m == Ban || m == Restrict24h) {
        return false;
      }
      match m {
        case Warn =>
        case Restrict24h => row := row.(sessionVersion := row.sessionVersion + 1);
        case Ban => row := row.(isBanned := true, sessionVersion := row.sessionVersion + 1);
        case Unban => row := row.(isBanned := false, sessionVersion := row.sessionVersion + 1);
        case Approve => row := row.(isApproved := true, sessionVersion := row.sessionVersion + 1);
        case RevokeApproval => row := row.(isApproved := false, sessionVersion := row.sessionVersion + 1);
        case Verify => row := row.(isVerified := true);
        case Unverify => row := row.(isVerified := false);
      }
      users := users[target := row];
    }

    method RecoverPassword(target: UserId, validAnswer: bool, hash: string) returns (ok: bool)
      modifies this
      ensures var a := Action.RecoverPassword(target, validAnswer, hash);
              ok == !Refused(old(users), a) && users == Act(old(users), a)
    {
      if target !in users || users[target].isBanned || !validAnswer {
        return false;
      }
      var row := users[target];
      users := users[target := row.(passwordHash := hash, sessionVersion := row.sessionVersion + 1, needsPasswordChange := false)];
      ok := true;
    }

    method ResetPasswordWithCode(target: UserId, validCode: bool, hash: string) returns (ok: bool)
      modifies this
      ensures var a := ResetByCode(target, validCode, hash);
              ok == !Refused(old(users), a) && users == Act(old(users), a)
    {
      if target !in users || !validCode {
        return false;
      }
      var row := users[target];
      users := users[target := row.(passwordHash := hash, sessionVersion := row.sessionVersion + 1, needsPasswordChange := false)];
      ok := true;
    }

    method UpdateAdminCredentials(caller: Session, hash: string) returns (ok: bool)
      modifies this
      ensures var a := Action.UpdateAdminCredentials(caller, hash);
              ok == !Refused(old(users), a) && users == Act(old(users), a)
    {
      ok := RequireAdmin(caller);
      if !ok || users[caller.userId].role != ADMIN {
        return false;
      }
      var row := users[caller.userId];
      users := users[caller.userId := row.(passwordHash := hash, sessionVersion := row.sessionVersion + 1, needsPasswordChange := false)];
    }

    method ChangeAdminPassword(caller: Session, validCurrent: bool, hash: string) returns (ok: bool)
      modifies this
      ensures var a := Action.ChangeAdminPassword(caller, validCurrent, hash);
              ok == !Refused(old(users), a) && users == Act(old(users), a)
    {
      ok := RequireAdmin(caller);
      if !ok || users[caller.userId].role != ADMIN || !validCurrent {
        return false;
      }
      var row := users[caller.userId];
      users := users[caller.userId := row.(passwordHash := hash, sessionVersion := row.sessionVersion + 1, needsPasswordChange := false)];
    }

    /** The update branch of the admin bootstrap, when a reset of the existing account is configured. */
    method ResetExistingAdmin(target: UserId, hash: string) returns (ok: bool)
      modifies this
      ensures ok == (target in old(users)) && users == Act(old(users), BootstrapReset(target, hash))
    {
      if target !in users {
        return false;
      }
      users := users[target := users[target].(role := ADMIN, isApproved := true, passwordHash := hash, needsPasswordChange := false)];
      ok := true;
    }
  }

  /* ----------------------------------- runs ---------------------------------- */

  /** A session in somebody's hands: `root` is the read of the row it ultimately comes from. */
  datatype Card = Card(session: Session, root: nat)

  datatype State = State(users: Users, cards: seq<Card>)

  /** Login, second factor and OAuth read the row (ReadRow), and later issue a token from what they read; rotation
      issues a token from a token.  Both are Issue: a token carries the session it is made from. */
  datatype Event = Register(id: UserId, row: Row) | ReadRow(id: UserId) | Issue(card: nat) | Do(action: Action)

  const INIT := State(map[], [])

  /** What verification returns for a token made from the session: version 0 is read as 1. */
  function Carried(session: Session): Session {
    if session.sessionVersion == 0 then session.(sessionVersion := 1) else session
  }

  lemma IssuedIsCarried(c: SessionToken.Primitives, session: Session, csrf: string, ctx: SessionToken.Context, bindIp: bool, issued: int,
                        iv: Base64Url.Bytes, other: SessionToken.Context, now: int, token: string)
    requires SessionToken.Lawful(c) && iv != [] && (forall text :: c.sha256Hex(text) != "")
    requires token == SessionToken.CreateSessionToken(c, SessionToken.NewSession(c, session, csrf, ctx, bindIp, issued), iv)
    requires SessionToken.Verify(c, token, other, now).Some?
    ensures SessionToken.Verify(c, token, other, now).value.user == Carried(session)
  {
    SessionToken.AcceptedInContext(c, session, csrf, ctx, bindIp, issued, iv, other, now, token, SessionToken.Verify(c, token, other, now));
  }

  function SessionOf(id: UserId, row: Row): Session {
    SessionToken.User(id, row.role, row.needsPasswordChange, row.sessionVersion)
  }

  function Step(s: State, e: Event): State {
    match e
    case Register(id, row) => if id in s.users then s else s.(users := s.users[id := row.(sessionVersion := 1)])
    case ReadRow(id) => if id !in s.users then s else s.(cards := s.cards + [Card(SessionOf(id, s.users[id]), |s.cards|)])
    case Issue(card) =>
      if card >= |s.cards| then s else s.(cards := s.cards + [Card(Carried(s.cards[card].session), s.cards[card].root)])
    case Do(action) => s.(users := Act(s.users, action))
  }

  /** The state after the first n events. */
  function At(events: seq<Event>, n: nat): State
    requires n <= |events|
  {
    if n == 0 then INIT else Step(At(events, n - 1), events[n - 1])
  }

  /** The account's version grew from one state to the next. */
  predicate Bumps(s: State, next: State, id: UserId) {
    id in s.users && id in next.users && next.users[id].sessionVersion > s.users[id].sessionVersion
  }

  /** A step leaves an account's row alone, or writes what its action writes to its subject. */
  lemma StepWrites(s: State, e: Event, next: State, id: UserId)
    requires next == Step(s, e) && id in s.users
    ensures id in next.users
    ensures next.users[id] == s.users[id] || (e.Do? && next.users[id] == Written(s.users[id], e.action))
  {
    if e.Do? {
      ActWrites(s.users, e.action, id, next.users);
    }
  }

  lemma ActWrites(users: Users, a: Action, id: UserId, after: Users)
    requires id in users && after == Act(users, a)
    ensures after.Keys == users.Keys && (after[id] == users[id] || after[id] == Written(users[id], a))
  {
    if Refused(users, a) {
    } else {
      assert a.Subject() in users;
    }
  }

  lemma WrittenBumps(row: Row, a: Action, after: Row)
    requires after == Written(row, a)
    ensures after.sessionVersion == row.sessionVersion || after.sessionVersion == row.sessionVersion + 1
    ensures !a.BootstrapReset? && after.sessionVersion == row.sessionVersion ==>
              && row.role == after.role && row.isBanned == after.isBanned
              && row.isApproved == after.isApproved && row.passwordHash == after.passwordHash
  {
    match a
    case ApplyModeration(_, _, m) => assert after == Moderated(row, m);
    case _ =>
  }

  /** Versions never fall, and every change of role, ban, approval or password increments the version by one, except
      the bootstrap reset. */
  lemma EveryChangeBumps(s: State, e: Event, next: State, id: UserId)
    requires next == Step(s, e) && id in s.users
    ensures id in next.users
    ensures next.users[id].sessionVersion == s.users[id].sessionVersion + if Bumps(s, next, id) then 1 else 0
    ensures !Bumps(s, next, id) && !(e.Do? && e.action.BootstrapReset?) ==>
              && next.users[id].role == s.users[id].role && next.users[id].isBanned == s.users[id].isBanned
              && next.users[id].isApproved == s.users[id].isApproved && next.users[id].passwordHash == s.users[id].passwordHash
  {
    StepWrites(s, e, next, id);
    if e.Do? && next.users[id] != s.users[id] {
      WrittenBumps(s.users[id], e.action, next.users[id]);
    }
  }

  predicate RevokesApproval(users: Users, e: Event, id: UserId) {
    e.Do? && e.action.ApplyModeration? && e.action.moderation == RevokeApproval && e.action.target == id && !Refused(users, e.action)
  }

  /** No step bans an administrator.  An approved one stays approved through every step but one: the approval toggle
      refuses to withdraw an administrator's approval, the moderation action does not. */
  lemma AdminsKeepStanding(s: State, e: Event, next: State, id: UserId)
    requires next == Step(s, e) && id in s.users && s.users[id].role == ADMIN
    ensures id in next.users && (next.users[id].isBanned ==> s.users[id].isBanned)
    ensures s.users[id].isApproved ==> (!next.users[id].isApproved <==> RevokesApproval(s.users, e, id))
  {
    if e.Do? {
      AdminAction(s.users, e.action, next.users, id);
    }
  }

  lemma AdminAction(users: Users, a: Action, after: Users, id: UserId)
    requires after == Act(users, a) && id in users && users[id].role == ADMIN
    ensures id in after && (after[id].isBanned ==> users[id].isBanned)
    ensures users[id].isApproved ==> (!after[id].isApproved <==> RevokesApproval(users, Do(a), id))
  {
    if Refused(users, a) || a.Subject() != id {
      assert after[id] == users[id];
    } else {
      assert after[id] == Written(users[id], a);
      AdminWritten(users, users[id], a, id);
    }
  }

  lemma AdminWritten(users: Users, row: Row, a: Action, id: UserId)
    requires a.Subject() == id && id in users && users[id] == row && row.role == ADMIN && !Refused(users, a)
    ensures Written(row, a).isBanned ==> row.isBanned
    ensures row.isApproved ==> (!Written(row, a).isApproved <==> a.ApplyModeration? && a.moderation == RevokeApproval)
  {
    match a
    case ApplyModeration(_, _, m) => assert Written(row, a) == Moderated(row, m);
    case _ =>
  }

  /** Versions start at 1, and a session has the version its root read, which the row has had since. */
  ghost predicate CardOk(s: State, k: nat)
    requires k < |s.cards|
  {
    var card := s.cards[k];
    && card.root <= k && card.session == s.cards[card.root].session
    && card.session.userId in s.users
    && 1 <= card.session.sessionVersion <= s.users[card.session.userId].sessionVersion
  }

  ghost predicate Inv(s: State) {
    && (forall id | id in s.users :: s.users[id].sessionVersion >= 1)
    && (forall k | 0 <= k < |s.cards| :: CardOk(s, k))
  }

  /** Cards stay, accounts stay, versions only grow. */
  ghost predicate Grows(s: State, t: State) {
    && |s.cards| <= |t.cards| && t.cards[..|s.cards|] == s.cards
    && (forall id | id in s.users :: id in t.users && s.users[id].sessionVersion <= t.users[id].sessionVersion)
  }

  lemma StepGrows(s: State, e: Event, next: State)
    requires next == Step(s, e)
    ensures Grows(s, next)
  {
    forall id | id in s.users ensures id in next.users && s.users[id].sessionVersion <= next.users[id].sessionVersion {
      EveryChangeBumps(s, e, next, id);
    }
  }

  lemma GrowsTransitive(s: State, t: State, u: State)
    requires Grows(s, t) && Grows(t, u)
    ensures Grows(s, u)
  {
    assert u.cards[..|s.cards|] == u.cards[..|t.cards|][..|s.cards|];
  }

  lemma OldCardOk(s: State, t: State, k: nat)
    requires k < |s.cards| && CardOk(s, k) && Grows(s, t)
    ensures t.cards[k] == s.cards[k] && CardOk(t, k)
  {
    assert t.cards[..|s.cards|][k] == t.cards[k];
    assert t.cards[..|s.cards|][s.cards[k].root] == t.cards[s.cards[k].root];
  }

  lemma StepKeepsInv(s: State, e: Event, next: State)
    requires Inv(s) && next == Step(s, e)
    ensures Inv(next) && Grows(s, next)
  {
    StepGrows(s, e, next);
    forall k | 0 <= k < |s.cards| ensures CardOk(next, k) {
      OldCardOk(s, next, k);
    }
    forall id | id in next.users ensures next.users[id].sessionVersion >= 1 {
      if id in s.users {
        EveryChangeBumps(s, e, next, id);
      } else {
        assert e.Register?;
      }
    }
    if |next.cards| > |s.cards| {
      NewCardOk(s, e, next);
    }
  }

  lemma NewCardOk(s: State, e: Event, next: State)
    requires Inv(s) && next == Step(s, e) && |next.cards| > |s.cards|
    ensures |next.cards| == |s.cards| + 1 && CardOk(next, |s.cards|)
  {
    if e.Issue? {
      assert CardOk(s, e.card);
    }
  }

  lemma {:induction false} RunKeepsInv(events: seq<Event>, n: nat)
    requires n <= |events|
    ensures Inv(At(events, n))
  {
    if n > 0 {
      RunKeepsInv(events, n - 1);
      StepKeepsInv(At(events, n - 1), events[n - 1], At(events, n));
    }
  }

  lemma {:induction false} RunGrows(events: seq<Event>, i: nat, n: nat)
    requires i <= n <= |events|
    ensures Grows(At(events, i), At(events, n))
    decreases n
  {
    if i < n {
      RunGrows(events, i, n - 1);
      StepGrows(At(events, n - 1), events[n - 1], At(events, n));
      GrowsTransitive(At(events, i), At(events, n - 1), At(events, n));
    }
  }

  /** The states before and after a step of a run, and a later one. */
  ghost predicate Linked(s: State, next: State, t: State) {
    Inv(s) && Inv(t) && Grows(s, t) && Grows(next, t)
  }

  lemma RunLinks(events: seq<Event>, i: nat, n: nat, s: State, next: State, t: State)
    requires i < n <= |events| && s == At(events, i) && next == At(events, i + 1) && t == At(events, n)
    ensures Linked(s, next, t)
  {
    assert Inv(s) by { RunKeepsInv(events, i); }
    assert Inv(t) by { RunKeepsInv(events, n); }
    assert Grows(s, t) by { RunGrows(events, i, n); }
    assert Grows(next, t) by { RunGrows(events, i + 1, n); }
  }

  /** Once any step increments an account's version, no session of the account that existed, and nothing obtained from
      it or from the same login by any chain of issuing and rotating, is ever accepted again. */
  lemma RevokedForEver(events: seq<Event>, i: nat, n: nat, s: State, next: State, t: State, k: nat, j: nat)
    requires i < n <= |events| && s == At(events, i) && next == At(events, i + 1) && t == At(events, n)
    requires k < |s.cards| && Bumps(s, next, s.cards[k].session.userId)
    requires j < |t.cards| && t.cards[j].root == s.cards[k].root
    ensures FreshUser(t.users, t.cards[j].session) == None
    ensures FreshUserSameRole(t.users, t.cards[j].session) == None
  {
    RunLinks(events, i, n, s, next, t);
    SameRoot(s, next, t, k, j);
  }

  lemma SameRoot(s: State, next: State, t: State, k: nat, j: nat)
    requires Linked(s, next, t)
    requires k < |s.cards| && Bumps(s, next, s.cards[k].session.userId)
    requires j < |t.cards| && t.cards[j].root == s.cards[k].root
    ensures var session := t.cards[j].session;
            && session == s.cards[k].session && session.sessionVersion < t.users[session.userId].sessionVersion
            && FreshUser(t.users, session) == None && FreshUserSameRole(t.users, session) == None
  {
    assert CardOk(s, k) && CardOk(t, j);
    OldCardOk(s, t, k);
  }

  /** No step from position i up to n increments the account's version. */
  ghost predicate Unrevoked(events: seq<Event>, i: nat, n: nat, id: UserId)
    requires i <= n <= |events|
  {
    forall m | i <= m < n :: !Bumps(At(events, m), At(events, m + 1), id)
  }

  lemma {:induction false} VersionMoves(events: seq<Event>, i: nat, n: nat, id: UserId, s: State, t: State)
    requires i <= n <= |events| && s == At(events, i) && t == At(events, n) && id in s.users
    ensures id in t.users && s.users[id].sessionVersion <= t.users[id].sessionVersion
    ensures t.users[id].sessionVersion == s.users[id].sessionVersion <==> Unrevoked(events, i, n, id)
    decreases n
  {
    if i < n {
      var u := At(events, n - 1);
      VersionMoves(events, i, n - 1, id, s, u);
      EveryChangeBumps(u, events[n - 1], t, id);
      assert Unrevoked(events, i, n, id) <==> Unrevoked(events, i, n - 1, id) && !Bumps(u, t, id);
    }
  }

  /** A session is accepted exactly when its account is neither banned nor unapproved now and no step since the login
      that began it read the row has incremented the account's version. */
  lemma AcceptedIff(events: seq<Event>, i: nat, n: nat, id: UserId, s: State, t: State, j: nat)
    requires i < n <= |events| && events[i] == ReadRow(id) && s == At(events, i) && id in s.users && t == At(events, n)
    requires j < |t.cards| && t.cards[j].root == |s.cards|
    ensures t.cards[j].session.userId == id && id in t.users
    ensures FreshUser(t.users, t.cards[j].session).Some? <==>
              !t.users[id].isBanned && t.users[id].isApproved && Unrevoked(events, i, n, id)
  {
    RunKeepsInv(events, n);
    RunGrows(events, i + 1, n);
    ReadsVersion(s, id, At(events, i + 1), t, j);
    VersionMoves(events, i, n, id, s, t);
  }

  lemma ReadsVersion(s: State, id: UserId, next: State, t: State, j: nat)
    requires id in s.users && next == Step(s, ReadRow(id)) && Grows(next, t) && Inv(t)
    requires j < |t.cards| && t.cards[j].root == |s.cards|
    ensures t.cards[j].session == SessionOf(id, s.users[id])
  {
    assert CardOk(t, j);
    assert t.cards[..|next.cards|][|s.cards|] == t.cards[|s.cards|];
  }

  /* ----------------------------------- bans ---------------------------------- */

  /** Whether the event bans the account or unbans it, if it does either. */
  function SetsBan(s: State, e: Event, id: UserId): Option<bool> {
    match e
    case Register(other, row) => if other == id && id !in s.users then Some(row.isBanned) else None
    case Do(a) =>
      if id !in s.users || a.Subject() != id || Refused(s.users, a) then None
      else if Moderates(a, Ban) then Some(true)
      else if Moderates(a, Unban) then Some(false)
      else if a.ToggleBanUser? then Some(!s.users[id].isBanned)
      else None
    case _ => None
  }

  lemma StepSetsBan(s: State, e: Event, next: State, id: UserId)
    requires next == Step(s, e)
    ensures id in next.users <==> id in s.users || SetsBan(s, e, id).Some?
    ensures id in next.users ==>
              next.users[id].isBanned == if SetsBan(s, e, id).Some? then SetsBan(s, e, id).value else s.users[id].isBanned
  {
    if e.Do? && id in s.users {
      ActionIsExact(s.users, e.action, next.users, id);
    }
  }

  /** Event m is the latest of the first n that bans or unbans the account. */
  ghost predicate LastSetsBan(events: seq<Event>, m: nat, n: nat, id: UserId)
    requires n <= |events|
  {
    && m < n && SetsBan(At(events, m), events[m], id).Some?
    && forall k | m < k < n :: SetsBan(At(events, k), events[k], id).None?
  }

  /** Over every run, an account is banned exactly as the latest effective ban, unban or toggle (or its registration) left
      it, and while it is banned no session of it is accepted. */
  lemma {:induction false} BannedAsLastSet(events: seq<Event>, n: nat, id: UserId) returns (m: nat)
    requires n <= |events| && id in At(events, n).users
    ensures LastSetsBan(events, m, n, id)
    ensures At(events, n).users[id].isBanned == SetsBan(At(events, m), events[m], id).value
    ensures At(events, n).users[id].isBanned ==>
              forall session: Session | session.userId == id :: FreshUser(At(events, n).users, session) == None
    decreases n
  {
    var s := At(events, n - 1);
    StepSetsBan(s, events[n - 1], At(events, n), id);
    if SetsBan(s, events[n - 1], id).Some? {
      m := n - 1;
    } else {
      m := BannedAsLastSet(events, n - 1, id);
    }
  }

  /* ------------------------------ the role check ----------------------------- */

  predicate IsBootstrapReset(e: Event) {
    e.Do? && e.action.BootstrapReset?
  }

  /** A session of the current version has the current role. */
  ghost predicate RolesAgree(s: State) {
    forall k | 0 <= k < |s.cards| ::
      var session := s.cards[k].session;
      session.userId in s.users && session.sessionVersion == s.users[session.userId].sessionVersion
      ==> session.role == s.users[session.userId].role
  }

  lemma {:induction false} RolesAgreeInRun(events: seq<Event>, n: nat)
    requires n <= |events| && forall i | 0 <= i < n :: !IsBootstrapReset(events[i])
    ensures RolesAgree(At(events, n))
  {
    if n > 0 {
      RolesAgreeInRun(events, n - 1);
      RunKeepsInv(events, n - 1);
      StepKeepsRoles(At(events, n - 1), events[n - 1], At(events, n));
    }
  }

  lemma StepKeepsRoles(s: State, e: Event, t: State)
    requires Inv(s) && RolesAgree(s) && t == Step(s, e) && !IsBootstrapReset(e)
    ensures RolesAgree(t)
  {
    StepGrows(s, e, t);
    forall k | 0 <= k < |s.cards|
      ensures var session := t.cards[k].session;
              session.userId in t.users && session.sessionVersion == t.users[session.userId].sessionVersion
              ==> session.role == t.users[session.userId].role
    {
      OldCardOk(s, t, k);
      assert CardOk(s, k);
      EveryChangeBumps(s, e, t, s.cards[k].session.userId);
    }
    if |t.cards| > |s.cards| {
      NewCardRole(s, e, t);
    }
  }

  lemma NewCardRole(s: State, e: Event, t: State)
    requires Inv(s) && RolesAgree(s) && t == Step(s, e) && |t.cards| > |s.cards|
    ensures |t.cards| == |s.cards| + 1 && t.users == s.users
    ensures var session := t.cards[|s.cards|].session;
            session.userId in t.users && session.sessionVersion == t.users[session.userId].sessionVersion
            ==> session.role == t.users[session.userId].role
  {
    if e.Issue? {
      assert CardOk(s, e.card);
    }
  }

  /** Without bootstrap resets the version alone decides: the role check never refuses a session it would accept. */
  lemma RoleCheckAddsNothing(events: seq<Event>, n: nat, s: State, j: nat)
    requires n <= |events| && forall i | 0 <= i < n :: !IsBootstrapReset(events[i])
    requires s == At(events, n) && j < |s.cards|
    ensures FreshUserSameRole(s.users, s.cards[j].session) == FreshUser(s.users, s.cards[j].session)
  {
    RolesAgreeInRun(events, n);
  }

  /** A bootstrap reset is the exception, whatever happened before: it leaves every live session of the account live
      although the password has changed, and if the account was no admin only the role check still refuses them. */
  lemma BootstrapResetRevokesNothing(s: State, session: Session, hash: string, t: State)
    requires FreshUser(s.users, session).Some? && t == Step(s, Do(BootstrapReset(session.userId, hash)))
    ensures FreshUser(t.users, session).Some? && t.users[session.userId].passwordHash == hash
    ensures FreshUserSameRole(t.users, session).Some? <==> session.role == ADMIN
  {
    var a := BootstrapReset(session.userId, hash);
    assert !Refused(s.users, a) && a.Subject() == session.userId;
  }

  /* --------------------------- administrators keep out ----------------------- */

  /** An administrator's own row is just another account: once any step increments its version, no action by a session
      it held, or by one descending from the same login, changes any row. */
  lemma RevokedAdminsChangeNothing(events: seq<Event>, i: nat, n: nat, s: State, next: State, t: State, k: nat, j: nat, a: Action)
    requires i < n <= |events| && s == At(events, i) && next == At(events, i + 1) && t == At(events, n)
    requires k < |s.cards| && Bumps(s, next, s.cards[k].session.userId)
    requires j < |t.cards| && t.cards[j].root == s.cards[k].root
    requires ByAdmin(a) && a.caller == t.cards[j].session
    ensures Act(t.users, a) == t.users
  {
    RevokedForEver(events, i, n, s, next, t, k, j);
    NeedsLiveAdmin(t.users, a);
  }

  lemma NeedsLiveAdmin(users: Users, a: Action)
    requires ByAdmin(a) && !IsAdminSession(users, a.caller)
    ensures Refused(users, a)
  {
  }
}
