/**
 The account operations, each run alone from its first check to its transaction.

 The validators, the password verifier and the hash are dependencies of the operations; the
 two rate-limit answers are inputs. How calls interleave is the subject of `AccountRuns`.
 */
module AccountService {
  import opened Wrappers
  import opened AccountDatabase

  datatype AccountError =
    | InvalidEmail
    | EmailMismatch
    | PasswordPolicy
    | AccountNotFound
    | RateLimited(retryAfterSeconds: int)
    | InvalidPassword
    | AccountChanged
    | CurrentSession
    | SessionNotFound
    | DatabaseFailure

  datatype Result<+T> = Ok(value: T) | Err(error: AccountError)

  datatype Limit = Limit(allowed: bool, retryAfterSeconds: int)

  datatype Dependencies = Dependencies(
    normalizeEmail: string -> string,
    validEmail: string -> bool,
    passwordAllowed: string -> bool,
    verify: (string, string) -> bool)

  /** The wait a refused caller is told: the longest among the limits that block it. */
  function LongestWait(limits: seq<Limit>): (wait: Option<int>)
    ensures wait.None? <==> forall i :: 0 <= i < |limits| ==> limits[i].allowed
    ensures wait.Some? ==> exists i :: 0 <= i < |limits| && limits[i] == Limit(false, wait.value)
    ensures wait.Some? ==> forall i :: 0 <= i < |limits| && !limits[i].allowed ==> limits[i].retryAfterSeconds <= wait.value
  {
    if limits == [] then None
    else
      var rest := LongestWait(limits[1..]);
      if limits[0].allowed || (rest.Some? && rest.value >= limits[0].retryAfterSeconds) then
        assert forall i :: 0 <= i < |limits| - 1 ==> limits[1..][i] == limits[i + 1];
        rest
      else
        Some(limits[0].retryAfterSeconds)
  }

  /** The address is valid, and was typed twice. */
  ghost predicate EmailAccepted(deps: Dependencies, newEmail: string, emailConfirm: string) {
    deps.validEmail(deps.normalizeEmail(newEmail)) && deps.normalizeEmail(emailConfirm) == deps.normalizeEmail(newEmail)
  }

  /**
   Alone, an email change succeeds exactly when every check passes and no other user holds the
   address; it never sees a conflict, and whenever it fails nothing has changed.
   */
  method ChangeAccountEmail(store: AccountStore, deps: Dependencies, userId: nat, currentSessionId: nat,
                            newEmail: string, emailConfirm: string, currentPassword: string,
                            limits: seq<Limit>, now: int)
    returns (result: Result<string>)
    modifies store
    ensures result != Err(AccountChanged)
    ensures result.Err? ==> store.State() == old(store.State())
    ensures var email := deps.normalizeEmail(newEmail);
      result.Ok? <==>
        && deps.validEmail(email) && deps.normalizeEmail(emailConfirm) == email
        && userId in old(store.users)
        && LongestWait(limits).None?
        && deps.verify(old(store.users)[userId].passwordDigest, currentPassword)
        && (email == old(store.users)[userId].email || !EmailTaken(old(store.users), userId, email))
    ensures result == Err(InvalidEmail) <==> !deps.validEmail(deps.normalizeEmail(newEmail))
    ensures result == Err(EmailMismatch) <==>
      deps.validEmail(deps.normalizeEmail(newEmail)) && deps.normalizeEmail(emailConfirm) != deps.normalizeEmail(newEmail)
    ensures result == Err(AccountNotFound) <==> EmailAccepted(deps, newEmail, emailConfirm) && userId !in old(store.users)
    ensures (result.Err? && result.error.RateLimited?) <==>
      EmailAccepted(deps, newEmail, emailConfirm) && userId in old(store.users) && exists i :: 0 <= i < |limits| && !limits[i].allowed
    ensures result == Err(InvalidPassword) <==>
      && EmailAccepted(deps, newEmail, emailConfirm) && userId in old(store.users)
      && (forall i :: 0 <= i < |limits| ==> limits[i].allowed)
      && !deps.verify(old(store.users)[userId].passwordDigest, currentPassword)
    ensures result.Err? ==> result.error in {InvalidEmail, EmailMismatch, AccountNotFound, InvalidPassword, DatabaseFailure} || result.error.RateLimited?
    ensures result.Ok? ==>
      && result.value == deps.normalizeEmail(newEmail)
      && store.State() == (
        if result.value == old(store.users)[userId].email then old(store.State())
        else EmailChange(old(store.State()), userId, currentSessionId, old(store.users)[userId].email, result.value, now).0)
    ensures userId in old(store.users) && LongestWait(limits).Some? && deps.validEmail(deps.normalizeEmail(newEmail))
      && deps.normalizeEmail(emailConfirm) == deps.normalizeEmail(newEmail)
      ==> result == Err(RateLimited(LongestWait(limits).value))
  {
    var email := deps.normalizeEmail(newEmail);
    if !deps.validEmail(email) {
      return Err(InvalidEmail);
    }
    if deps.normalizeEmail(emailConfirm) != email {
      return Err(EmailMismatch);
    }
    var user := store.FindUser(userId);
    if user.None? {
      return Err(AccountNotFound);
    }
    var wait := LongestWait(limits);
    if wait.Some? {
      return Err(RateLimited(wait.value));
    }
    if !deps.verify(user.value.passwordDigest, currentPassword) {
      return Err(InvalidPassword);
    }
    if email != user.value.email {
      var cas := store.ApplyEmailChange(userId, currentSessionId, user.value.email, email, now);
      if cas == Conflict {
        return Err(AccountChanged);
      }
      if cas == UniqueViolation {
        return Err(DatabaseFailure);
      }
    }
    result := Ok(email);
  }

  /**
   Alone, a password change succeeds exactly when every check passes, and then the presented
   password verified against the digest that it replaced; it never sees a conflict.
   */
  method ChangeAccountPassword(store: AccountStore, deps: Dependencies, userId: nat, currentPassword: string,
                               newPassword: string, hashed: string, limits: seq<Limit>, now: int)
    returns (result: Result<()>)
    modifies store
    ensures result != Err(AccountChanged)
    ensures result.Err? ==> store.State() == old(store.State())
    ensures result.Ok? <==>
        && deps.passwordAllowed(newPassword)
        && userId in old(store.users)
        && LongestWait(limits).None?
        && deps.verify(old(store.users)[userId].passwordDigest, currentPassword)
    ensures result == Err(PasswordPolicy) <==> !deps.passwordAllowed(newPassword)
    ensures result == Err(AccountNotFound) <==> deps.passwordAllowed(newPassword) && userId !in old(store.users)
    ensures (result.Err? && result.error.RateLimited?) <==>
      deps.passwordAllowed(newPassword) && userId in old(store.users) && exists i :: 0 <= i < |limits| && !limits[i].allowed
    ensures result == Err(InvalidPassword) <==>
      && deps.passwordAllowed(newPassword) && userId in old(store.users)
      && (forall i :: 0 <= i < |limits| ==> limits[i].allowed)
      && !deps.verify(old(store.users)[userId].passwordDigest, currentPassword)
    ensures result.Err? ==> result.error in {PasswordPolicy, AccountNotFound, InvalidPassword} || result.error.RateLimited?
    ensures result.Ok? ==>
      && LiveSessions(store.sessions, userId) == {}
      && userId in store.users && store.users[userId].passwordDigest == hashed
      && store.State() == PasswordChange(old(store.State()), userId, old(store.users)[userId].passwordDigest, hashed, now).0
    ensures userId in old(store.users) && LongestWait(limits).Some? && deps.passwordAllowed(newPassword)
      ==> result == Err(RateLimited(LongestWait(limits).value))
  {
    if !deps.passwordAllowed(newPassword) {
      return Err(PasswordPolicy);
    }
    var user := store.FindUser(userId);
    if user.None? {
      return Err(AccountNotFound);
    }
    var wait := LongestWait(limits);
    if wait.Some? {
      return Err(RateLimited(wait.value));
    }
    if !deps.verify(user.value.passwordDigest, currentPassword) {
      return Err(InvalidPassword);
    }
    LiveSessionsAfterChange(store.State(), userId, 0, user.value.passwordDigest, hashed, now);
    var cas := store.ApplyPasswordChange(userId, user.value.passwordDigest, hashed, now);
    if cas == Conflict {
      return Err(AccountChanged);
    }
    result := Ok(());
  }

  /** The caller's own session is refused; another one is revoked exactly when it was live and theirs. */
  method RevokeAccountSession(store: AccountStore, userId: nat, sessionId: nat, currentSessionId: nat, now: int)
    returns (result: Result<()>)
    modifies store`sessions
    ensures result == Err(CurrentSession) <==> sessionId == currentSessionId
    ensures result.Err? ==> result.error in {CurrentSession, SessionNotFound}
    ensures result.Ok? <==> sessionId != currentSessionId && sessionId in LiveSessions(old(store.sessions), userId)
    ensures RevokesExactly(old(store.sessions), store.sessions, userId, if result.Ok? then {sessionId} else {}, now)
  {
    hide Revoke, RevokesExactly, LiveSessions;
    NothingRevoked(store.sessions, userId, now);
    if sessionId == currentSessionId {
      return Err(CurrentSession);
    }
    RevocationsRevokeExactly(store.State(), userId, sessionId, now);
    var revoked := store.RevokeSession(userId, sessionId, now);
    if !revoked {
      return Err(SessionNotFound);
    }
    result := Ok(());
  }

  /** The count is that of the sessions revoked by this call; only the current session may stay live. */
  method RevokeOtherAccountSessions(store: AccountStore, userId: nat, currentSessionId: nat, now: int)
    returns (revokedCount: nat)
    modifies store`sessions
    ensures RevokesExactly(old(store.sessions), store.sessions, userId,
                           LiveSessions(old(store.sessions), userId) - {currentSessionId}, now)
    ensures revokedCount == |RevokedSessions(store.sessions)| - |RevokedSessions(old(store.sessions))|
    ensures LiveSessions(store.sessions, userId) <= {currentSessionId}
  {
    RevocationsRevokeExactly(store.State(), userId, currentSessionId, now);
    revokedCount := store.RevokeOtherSessions(userId, currentSessionId, now);
    RevokesExactlyCounts(old(store.sessions), store.sessions, userId,
                         LiveSessions(old(store.sessions), userId) - {currentSessionId}, now);
  }
}
