/**
 The tables behind the account service, and the transactions of its four writers.

 Emails are unique among users; CLI installations and CLI sessions carry a copy of their
 user's email. Each transaction is one atomic step: it either commits all of its updates or
 none of them.
 */
module AccountDatabase {
  import opened Wrappers
  import opened CredentialRevocation

  datatype User = User(
    email: string,
    passwordDigest: string,
    passwordChangedAt: int,
    updatedAt: int,
    credentialEpoch: nat)

  datatype HumanSession = HumanSession(userId: nat, revokedAt: Option<int>)

  datatype Database = Database(
    users: map<nat, User>,
    sessions: map<nat, HumanSession>,
    credentials: Credentials)

  /** `UniqueViolation` is the error the database raises when another user holds the email. */
  datatype CasResult = Applied | Conflict | UniqueViolation

  ghost predicate UniqueEmails(db: Database) {
    forall u, v :: u in db.users && v in db.users && db.users[u].email == db.users[v].email ==> u == v
  }

  // ---- Human sessions ----

  function LiveSessions(sessions: map<nat, HumanSession>, userId: nat): (live: set<nat>)
    ensures live <= sessions.Keys
  {
    set s | s in sessions && sessions[s].userId == userId && sessions[s].revokedAt.None?
  }

  function RevokedSessions(sessions: map<nat, HumanSession>): set<nat> {
    set s | s in sessions && sessions[s].revokedAt.Some?
  }

  function Revoke(sessions: map<nat, HumanSession>, ids: set<nat>, now: int): map<nat, HumanSession> {
    map s | s in sessions :: if s in ids then sessions[s].(revokedAt := Some(now)) else sessions[s]
  }

  // ---- The transactions ----

  predicate EmailTaken(users: map<nat, User>, userId: nat, email: string) {
    exists v :: v in users && v != userId && users[v].email == email
  }

  /** The copy of an email after `previous` was renamed to `email`. */
  function Rename(previous: string, email: string, copy: string): string {
    if copy == previous then email else copy
  }

  function RenameInstallations(c: map<nat, CliInstallation>, previous: string, email: string): map<nat, CliInstallation> {
    map i | i in c :: c[i].(userEmail := Rename(previous, email, c[i].userEmail))
  }

  function RenameCliSessions(c: map<nat, CliSession>, previous: string, email: string): map<nat, CliSession> {
    map s | s in c :: c[s].(userEmail := Rename(previous, email, c[s].userEmail))
  }

  function EmailChange(db: Database, userId: nat, currentSessionId: nat, previous: string, email: string, now: int): (Database, CasResult) {
    if userId !in db.users || db.users[userId].email != previous then (db, Conflict)
    else if EmailTaken(db.users, userId, email) then (db, UniqueViolation)
    else
      (Database(
         db.users[userId := db.users[userId].(email := email, updatedAt := now)],
         Revoke(db.sessions, LiveSessions(db.sessions, userId) - {currentSessionId}, now),
         db.credentials.(
           cliInstallations := RenameInstallations(db.credentials.cliInstallations, previous, email),
           cliSessions := RenameCliSessions(db.credentials.cliSessions, previous, email))),
       Applied)
  }

  /** The row after the update; the trigger on the digest column advances the epoch. */
  function RotateDigest(user: User, digest: string, now: int): User {
    User(user.email, digest, now, now,
         if digest != user.passwordDigest then user.credentialEpoch + 1 else user.credentialEpoch)
  }

  function PasswordChange(db: Database, userId: nat, expected: string, digest: string, now: int): (Database, CasResult) {
    if userId !in db.users || db.users[userId].passwordDigest != expected then (db, Conflict)
    else
      (Database(
         db.users[userId := RotateDigest(db.users[userId], digest, now)],
         Revoke(db.sessions, LiveSessions(db.sessions, userId), now),
         RevokeUserMachineCredentials(db.credentials, userId, db.users[userId].email, now)),
       Applied)
  }

  function SessionRevocation(db: Database, userId: nat, sessionId: nat, now: int): (Database, bool) {
    var rows := LiveSessions(db.sessions, userId) * {sessionId};
    (db.(sessions := Revoke(db.sessions, rows, now)), |rows| > 0)
  }

  function OthersRevocation(db: Database, userId: nat, currentSessionId: nat, now: int): (Database, nat) {
    var rows := LiveSessions(db.sessions, userId) - {currentSessionId};
    (db.(sessions := Revoke(db.sessions, rows, now)), |rows|)
  }

  // ---- What a copied email stands for ----

  /** The rows that carry a copied email. */
  datatype CliRow = InstallationRow(id: nat) | SessionRow(id: nat)

  predicate HasRow(c: Credentials, row: CliRow) {
    if row.InstallationRow? then row.id in c.cliInstallations else row.id in c.cliSessions
  }

  function CopiedEmail(c: Credentials, row: CliRow): string
    requires HasRow(c, row)
  {
    if row.InstallationRow? then c.cliInstallations[row.id].userEmail else c.cliSessions[row.id].userEmail
  }

  predicate ResolvesTo(db: Database, row: CliRow, userId: nat) {
    HasRow(db.credentials, row) && userId in db.users && db.users[userId].email == CopiedEmail(db.credentials, row)
  }

  /** The row's email belongs to nobody. */
  ghost predicate Dangling(db: Database, row: CliRow) {
    HasRow(db.credentials, row) && forall u :: u in db.users ==> !ResolvesTo(db, row, u)
  }

  /** An email change keeps emails unique and every row with the user it belonged to. */
  lemma EmailChangeKeepsResolution(db: Database, userId: nat, current: nat, previous: string, email: string, now: int, row: CliRow)
    requires UniqueEmails(db) && HasRow(db.credentials, row)
    ensures var after := EmailChange(db, userId, current, previous, email, now).0;
      && UniqueEmails(after)
      && HasRow(after.credentials, row)
      && forall v :: ResolvesTo(db, row, v) ==> ResolvesTo(after, row, v)
  {
    hide LiveSessions, Revoke;
    EmailChangeKeepsUnique(db, userId, current, previous, email, now);
  }

  lemma EmailChangeKeepsUnique(db: Database, userId: nat, current: nat, previous: string, email: string, now: int)
    requires UniqueEmails(db)
    ensures UniqueEmails(EmailChange(db, userId, current, previous, email, now).0)
  {
    hide LiveSessions, Revoke, RenameInstallations, RenameCliSessions;
  }

  /**
   The row resolves exactly as before unless it was dangling on the very address that the user
   moves to: then, and only then, the move gives it an owner.
   */
  lemma EmailChangeResolvesAsBefore(db: Database, userId: nat, current: nat, previous: string, email: string, now: int, row: CliRow)
    requires UniqueEmails(db) && HasRow(db.credentials, row)
    requires EmailChange(db, userId, current, previous, email, now).1 == Applied && previous != email
    ensures var after := EmailChange(db, userId, current, previous, email, now).0;
      (forall v :: ResolvesTo(db, row, v) <==> ResolvesTo(after, row, v)) <==> CopiedEmail(db.credentials, row) != email
  {
    hide LiveSessions, Revoke;
    var after := EmailChange(db, userId, current, previous, email, now).0;
    EmailChangeKeepsResolution(db, userId, current, previous, email, now, row);
    if CopiedEmail(db.credentials, row) == email {
      assert ResolvesTo(after, row, userId) && !ResolvesTo(db, row, userId);
    }
  }

  /** Such a row exists: a copy left behind under an address nobody holds is captured. */
  lemma DanglingRowIsCaptured()
    ensures exists db: Database, after: Database, row: CliRow ::
      && UniqueEmails(db) && Dangling(db, row)
      && EmailChange(db, 1, 7, "a@pulse.dev", "b@pulse.dev", 0) == (after, Applied)
      && ResolvesTo(after, row, 1)
  {
    hide LiveSessions, Revoke;
    var installation := CliInstallation("b@pulse.dev", None, None);
    var db := Database(map[1 := User("a@pulse.dev", "d", 0, 0, 0)], map[], Credentials(map[], map[5 := installation], map[]));
    var after := EmailChange(db, 1, 7, "a@pulse.dev", "b@pulse.dev", 0).0;
    assert !EmailTaken(db.users, 1, "b@pulse.dev");
    assert Dangling(db, InstallationRow(5));
    assert ResolvesTo(after, InstallationRow(5), 1);
  }

  /**
   The email change applies exactly when the user still holds the previous address and nobody
   else the new one. It revokes no machine credential: of the CLI rows it touches the copied
   email and nothing else, of the user the email and the time of the update.
   */
  lemma EmailChangeTouchesOnlyEmails(db: Database, userId: nat, current: nat, previous: string, email: string, now: int)
    ensures var (after, r) := EmailChange(db, userId, current, previous, email, now);
      && (r == Applied <==>
            && userId in db.users && db.users[userId].email == previous
            && forall v :: v in db.users && v != userId ==> db.users[v].email != email)
      && after.users.Keys == db.users.Keys
      && (forall v :: v in db.users ==>
            after.users[v] == if v == userId && r == Applied then db.users[v].(email := email, updatedAt := now) else db.users[v])
      && after.credentials.apiTokens == db.credentials.apiTokens
      && SameButEmails(db.credentials, after.credentials)
  {
    hide LiveSessions, Revoke;
  }

  ghost predicate SameButEmails(before: Credentials, after: Credentials) {
    && before.cliInstallations.Keys == after.cliInstallations.Keys
    && before.cliSessions.Keys == after.cliSessions.Keys
    && (forall i :: i in before.cliInstallations ==>
          after.cliInstallations[i] == before.cliInstallations[i].(userEmail := after.cliInstallations[i].userEmail))
    && (forall x :: x in before.cliSessions ==>
          after.cliSessions[x] == before.cliSessions[x].(userEmail := after.cliSessions[x].userEmail))
  }

  /** A change that remembers an address which now belongs to someone else does nothing at all. */
  lemma StaleEmailChangeConflicts(db: Database, userId: nat, current: nat, previous: string, email: string, now: int, holder: nat)
    requires UniqueEmails(db) && holder in db.users && holder != userId && db.users[holder].email == previous
    ensures EmailChange(db, userId, current, previous, email, now) == (db, Conflict)
  {
  }

  // ---- What the writers do to sessions ----

  /** `ids` are live sessions of the user; exactly they are stamped, and no row else changes. */
  ghost predicate RevokesExactly(before: map<nat, HumanSession>, after: map<nat, HumanSession>, userId: nat, ids: set<nat>, now: int) {
    && after.Keys == before.Keys
    && (forall s :: s in ids ==>
          s in before && before[s] == HumanSession(userId, None) && after[s] == HumanSession(userId, Some(now)))
    && (forall s :: s in before && s !in ids ==> after[s] == before[s])
  }

  lemma RevokeIsExact(sessions: map<nat, HumanSession>, userId: nat, ids: set<nat>, now: int)
    requires ids <= LiveSessions(sessions, userId)
    ensures RevokesExactly(sessions, Revoke(sessions, ids, now), userId, ids, now)
  {
    assert Revoke(sessions, ids, now).Keys == sessions.Keys;
    forall s | s in ids ensures sessions[s] == HumanSession(userId, None) {
      assert s in LiveSessions(sessions, userId);
    }
  }

  lemma NothingRevoked(sessions: map<nat, HumanSession>, userId: nat, now: int)
    ensures RevokesExactly(sessions, sessions, userId, {}, now)
  {
  }

  /** Which sessions the two compare-and-set transactions revoke. */
  lemma ChangesRevokeExactly(db: Database, userId: nat, current: nat, expected: string, replacement: string, now: int)
    ensures var (after, r) := EmailChange(db, userId, current, expected, replacement, now);
      var ids := if r == Applied then LiveSessions(db.sessions, userId) - {current} else {};
      RevokesExactly(db.sessions, after.sessions, userId, ids, now)
    ensures var (after, r) := PasswordChange(db, userId, expected, replacement, now);
      var ids := if r == Applied then LiveSessions(db.sessions, userId) else {};
      RevokesExactly(db.sessions, after.sessions, userId, ids, now)
  {
    hide RevokeUserMachineCredentials, RenameInstallations, RenameCliSessions, Revoke, RevokesExactly, LiveSessions;
    RevokeIsExact(db.sessions, userId, LiveSessions(db.sessions, userId) - {current}, now);
    RevokeIsExact(db.sessions, userId, LiveSessions(db.sessions, userId), now);
    NothingRevoked(db.sessions, userId, now);
  }

  /** Which sessions the two revocations revoke, and that what they report is what they did. */
  lemma RevocationsRevokeExactly(db: Database, userId: nat, other: nat, now: int)
    ensures var (after, found) := SessionRevocation(db, userId, other, now);
      && (found <==> other in LiveSessions(db.sessions, userId))
      && RevokesExactly(db.sessions, after.sessions, userId, if found then {other} else {}, now)
    ensures var (after, count) := OthersRevocation(db, userId, other, now);
      && RevokesExactly(db.sessions, after.sessions, userId, LiveSessions(db.sessions, userId) - {other}, now)
      && count == |RevokedSessions(after.sessions) - RevokedSessions(db.sessions)|
  {
    hide Revoke, RevokesExactly, LiveSessions, RevokedSessions;
    var live := LiveSessions(db.sessions, userId);
    assert live * {other} == if other in live then {other} else {};
    RevokeIsExact(db.sessions, userId, live * {other}, now);
    RevokeIsExact(db.sessions, userId, live - {other}, now);
    RevokesExactlyCounts(db.sessions, Revoke(db.sessions, live - {other}, now), userId, live - {other}, now);
    assert RevokedSessions(db.sessions) + (live - {other}) - RevokedSessions(db.sessions) == live - {other};
  }

  /** Revoking exactly `ids` adds exactly `ids`, none of which was revoked before. */
  lemma RevokesExactlyCounts(before: map<nat, HumanSession>, after: map<nat, HumanSession>, userId: nat, ids: set<nat>, now: int)
    requires RevokesExactly(before, after, userId, ids, now)
    ensures RevokedSessions(after) == RevokedSessions(before) + ids
    ensures RevokedSessions(before) !! ids
    ensures |RevokedSessions(after)| == |RevokedSessions(before)| + |ids|
  {
    assert RevokedSessions(after) == RevokedSessions(before) + ids;
  }

  /** After a password change the user has no live session; after an email change at most the current one. */
  lemma LiveSessionsAfterChange(db: Database, userId: nat, current: nat, expected: string, replacement: string, now: int)
    ensures var (after, r) := EmailChange(db, userId, current, expected, replacement, now);
      r == Applied ==> LiveSessions(after.sessions, userId) == LiveSessions(db.sessions, userId) * {current}
    ensures var (after, r) := PasswordChange(db, userId, expected, replacement, now);
      r == Applied ==> LiveSessions(after.sessions, userId) == {}
  {
    hide RevokeUserMachineCredentials, RenameInstallations, RenameCliSessions;
  }

  /** The user as the database knows them: by id, and by the present email. */
  ghost predicate TokenIsUsers(db: Database, t: nat, userId: nat) {
    userId in db.users && TokenBelongs(db.credentials, t, userId, db.users[userId].email)
  }

  /**
   A password change applies exactly when the user still has the expected digest. It writes the
   digest, both times and the next epoch to the user's row and to no other; it moves no CLI email.
   */
  lemma PasswordChangeTouches(db: Database, userId: nat, expected: string, digest: string, now: int)
    ensures var (after, r) := PasswordChange(db, userId, expected, digest, now);
      && (r == if userId in db.users && db.users[userId].passwordDigest == expected then Applied else Conflict)
      && (r == Conflict ==> after == db)
      && (r == Applied ==>
            && after.users.Keys == db.users.Keys
            && (forall v :: v in db.users && v != userId ==> after.users[v] == db.users[v])
            && (digest != expected ==>
                  after.users[userId] == User(db.users[userId].email, digest, now, now, db.users[userId].credentialEpoch + 1))
            && (digest == expected ==>
                  after.users[userId] == User(db.users[userId].email, digest, now, now, db.users[userId].credentialEpoch))
            && forall row :: HasRow(db.credentials, row) ==>
                 HasRow(after.credentials, row) && CopiedEmail(after.credentials, row) == CopiedEmail(db.credentials, row))
  {
    hide RevokeUserMachineCredentials, Revoke, LiveSessions;
    if userId in db.users {
      RevocationKeepsRows(db.credentials, userId, db.users[userId].email, now);
    }
  }

  /** The tokens of the user, and only they, are revoked by it. */
  lemma PasswordChangeRevokesTokens(db: Database, userId: nat, expected: string, digest: string, now: int, t: nat)
    requires PasswordChange(db, userId, expected, digest, now).1 == Applied && t in db.credentials.apiTokens
    ensures var after, token := PasswordChange(db, userId, expected, digest, now).0.credentials.apiTokens, db.credentials.apiTokens[t];
      && t in after
      && after[t] == if TokenIsUsers(db, t, userId) && token.revokedAt.None?
                     then ApiToken(token.owner, token.createdBy, Some(now)) else token
  {
    hide RevokeUserMachineCredentials, Revoke, LiveSessions, TokenBelongs;
    TokenRevocationIsExact(db.credentials, userId, db.users[userId].email, now, t);
  }

  /** The installation and every CLI session on it are revoked. */
  ghost predicate InstallationDead(c: Credentials, i: nat) {
    && i in c.cliInstallations && c.cliInstallations[i].revokedAt.Some?
    && forall x :: x in c.cliSessions && c.cliSessions[x].installationId == i ==> c.cliSessions[x].revokedAt.Some?
  }

  /** After a password change every installation that resolves to the user is dead. */
  lemma PasswordChangeKillsInstallations(db: Database, userId: nat, expected: string, digest: string, now: int, installation: nat)
    requires PasswordChange(db, userId, expected, digest, now).1 == Applied
    requires ResolvesTo(db, InstallationRow(installation), userId)
    ensures InstallationDead(PasswordChange(db, userId, expected, digest, now).0.credentials, installation)
  {
    hide RevokeUserMachineCredentials, Revoke, LiveSessions, Roots;
    var c, email := db.credentials, db.users[userId].email;
    InstallationRevocationIsExact(c, userId, email, now, installation);
    RevocationKeepsRows(c, userId, email, now);
    forall s | s in c.cliSessions && c.cliSessions[s].installationId == installation
      ensures RevokeUserMachineCredentials(c, userId, email, now).cliSessions[s].revokedAt.Some?
    {
      CliSessionRevocationIsExact(c, userId, email, now, s);
    }
  }

  /** A revocation adds no row, drops none, and leaves owners, emails and creators alone. */
  lemma RevocationKeepsRows(c: Credentials, userId: nat, userEmail: string, now: int)
    ensures var after := RevokeUserMachineCredentials(c, userId, userEmail, now);
      && after.apiTokens.Keys == c.apiTokens.Keys
      && after.cliInstallations.Keys == c.cliInstallations.Keys
      && after.cliSessions.Keys == c.cliSessions.Keys
      && (forall row :: HasRow(c, row) ==> HasRow(after, row) && CopiedEmail(after, row) == CopiedEmail(c, row))
      && (forall s :: s in c.cliSessions ==> after.cliSessions[s].installationId == c.cliSessions[s].installationId)
  {
    hide Tree, Roots, Installations;
  }

  // ---- The store ----

  /** The database as the stores of the account service see it. */
  class AccountStore {
    var users: map<nat, User>
    var sessions: map<nat, HumanSession>
    var credentials: Credentials

    ghost function State(): Database
      reads this
    {
      Database(users, sessions, credentials)
    }

    constructor (db: Database)
      ensures State() == db
    {
      users := db.users;
      sessions := db.sessions;
      credentials := db.credentials;
    }

    method FindUser(userId: nat) returns (user: Option<User>)
      ensures user.Some? <==> userId in users
      ensures user.Some? ==> user.value == users[userId]
    {
      user := if userId in users then Some(users[userId]) else None;
    }

    method ApplyEmailChange(userId: nat, currentSessionId: nat, previousEmail: string, email: string, now: int)
      returns (result: CasResult)
      modifies this
      ensures (State(), result) == EmailChange(old(State()), userId, currentSessionId, previousEmail, email, now)
    {
      if userId !in users || users[userId].email != previousEmail {
        return Conflict;
      }
      if EmailTaken(users, userId, email) {
        return UniqueViolation;
      }
      users := users[userId := users[userId].(email := email, updatedAt := now)];
      var others := LiveSessions(sessions, userId) - {currentSessionId};
      sessions := Revoke(sessions, others, now);
      credentials := credentials.(cliInstallations := RenameInstallations(credentials.cliInstallations, previousEmail, email));
      credentials := credentials.(cliSessions := RenameCliSessions(credentials.cliSessions, previousEmail, email));
      result := Applied;
    }

    method ApplyPasswordChange(userId: nat, expectedDigest: string, digest: string, now: int) returns (result: CasResult)
      modifies this
      ensures (State(), result) == PasswordChange(old(State()), userId, expectedDigest, digest, now)
    {
      if userId !in users || users[userId].passwordDigest != expectedDigest {
        return Conflict;
      }
      users := users[userId := RotateDigest(users[userId], digest, now)];
      sessions := Revoke(sessions, LiveSessions(sessions, userId), now);
      credentials := RevokeUserMachineCredentials(credentials, userId, users[userId].email, now);
      result := Applied;
    }

    method RevokeSession(userId: nat, sessionId: nat, now: int) returns (revoked: bool)
      modifies this`sessions
      ensures (State(), revoked) == SessionRevocation(old(State()), userId, sessionId, now)
    {
      var rows := LiveSessions(sessions, userId) * {sessionId};
      sessions := Revoke(sessions, rows, now);
      revoked := |rows| > 0;
    }

    method RevokeOtherSessions(userId: nat, currentSessionId: nat, now: int) returns (count: nat)
      modifies this`sessions
      ensures (State(), count) == OthersRevocation(old(State()), userId, currentSessionId, now)
    {
      var rows := LiveSessions(sessions, userId) - {currentSessionId};
      sessions := Revoke(sessions, rows, now);
      count := |rows|;
    }
  }
}
