/**
 Any number of account operations in flight against one database.

 A call reads its user, charges the limiters, verifies the password, hashes (for a password
 change) and commits; every arrow between those is a point where other calls may run. The
 limiter's answers and the fresh digests are chosen by the environment. A call starts here
 once its input has passed validation, which touches no state.
 */
module AccountRuns {
  import opened Wrappers
  import opened CredentialRevocation
  import opened AccountDatabase
  import opened AccountService

  datatype Request =
    | EmailRequest(userId: nat, currentSessionId: nat, email: string, password: string)
    | PasswordRequest(userId: nat, password: string)

  /** What a call read, and how many transactions had been logged by then. */
  datatype Seen = Seen(email: string, digest: string, position: nat)

  datatype Outcome = EmailIs(email: string) | PasswordIsChanged | Failed(error: AccountError)

  datatype Call = Call(
    request: Request,
    seen: Option<Seen>,
    admitted: bool,
    verified: bool,
    hashed: Option<string>,
    outcome: Option<Outcome>)

  /** One committed transaction; `revoked` holds the human sessions that it signed out. */
  datatype Entry =
    | EmailEntry(userId: nat, revoked: set<nat>, call: nat, before: string, after: string)
    | PasswordEntry(userId: nat, revoked: set<nat>, call: nat, before: string, after: string)
    | SessionEntry(userId: nat, revoked: set<nat>, found: bool)
    | OthersEntry(userId: nat, revoked: set<nat>, count: nat)

  /** `issued` holds the digests that exist; salting makes every new one different. */
  datatype State = State(db: Database, calls: map<nat, Call>, issued: set<string>, log: seq<Entry>)

  datatype Event =
    | Begin(call: nat, request: Request)
    | Find(call: nat)
    | Charge(call: nat, limits: seq<Limit>)
    | Verify(call: nat)
    | Hash(call: nat, digest: string)
    | CommitEmail(call: nat, now: int)
    | CommitPassword(call: nat, now: int)
    | RevokeOne(userId: nat, sessionId: nat, now: int)
    | RevokeOthers(userId: nat, currentSessionId: nat, now: int)
    | SignIn(sessionId: nat, userId: nat)

  // ---- The steps ----

  predicate Active(s: State, c: nat) {
    c in s.calls && s.calls[c].outcome.None?
  }

  predicate Enabled(s: State, e: Event) {
    match e
    case Begin(c, _) => c !in s.calls
    case Find(c) => Active(s, c) && s.calls[c].seen.None?
    case Charge(c, _) => Active(s, c) && s.calls[c].seen.Some? && !s.calls[c].admitted
    case Verify(c) => Active(s, c) && s.calls[c].seen.Some? && s.calls[c].admitted && !s.calls[c].verified
    case Hash(c, digest) =>
      Active(s, c) && s.calls[c].request.PasswordRequest? && s.calls[c].verified && s.calls[c].hashed.None? && digest !in s.issued
    case CommitEmail(c, _) => Active(s, c) && s.calls[c].request.EmailRequest? && s.calls[c].seen.Some? && s.calls[c].verified
    case CommitPassword(c, _) =>
      Active(s, c) && s.calls[c].request.PasswordRequest? && s.calls[c].seen.Some? && s.calls[c].verified && s.calls[c].hashed.Some?
    case RevokeOne(_, _, _) => true
    case RevokeOthers(_, _, _) => true
    case SignIn(sessionId, userId) => sessionId !in s.db.sessions && userId in s.db.users
  }

  function AfterFind(s: State, call: Call): Call {
    var u := call.request.userId;
    if u !in s.db.users then call.(outcome := Some(Failed(AccountNotFound)))
    else call.(seen := Some(Seen(s.db.users[u].email, s.db.users[u].passwordDigest, |s.log|)))
  }

  function AfterCharge(call: Call, limits: seq<Limit>): Call {
    var wait := LongestWait(limits);
    if wait.Some? then call.(outcome := Some(Failed(RateLimited(wait.value)))) else call.(admitted := true)
  }

  /** An email change to the address already read needs no transaction. */
  function AfterVerify(call: Call, check: (string, string) -> bool): Call
    requires call.seen.Some?
  {
    if !check(call.seen.value.digest, call.request.password) then call.(outcome := Some(Failed(InvalidPassword)))
    else if call.request.EmailRequest? && call.request.email == call.seen.value.email then
      call.(verified := true, outcome := Some(EmailIs(call.request.email)))
    else call.(verified := true)
  }

  /** The human sessions that a transaction signed out. */
  function SignedOut(before: Database, after: Database): set<nat> {
    RevokedSessions(after.sessions) - RevokedSessions(before.sessions)
  }

  function EmailCommit(s: State, call: Call, now: int): (Database, CasResult)
    requires call.request.EmailRequest? && call.seen.Some?
  {
    EmailChange(s.db, call.request.userId, call.request.currentSessionId, call.seen.value.email, call.request.email, now)
  }

  function PasswordCommit(s: State, call: Call, now: int): (Database, CasResult)
    requires call.request.PasswordRequest? && call.seen.Some? && call.hashed.Some?
  {
    PasswordChange(s.db, call.request.userId, call.seen.value.digest, call.hashed.value, now)
  }

  /** The outcome of a call whose transaction did not apply. */
  function Refusal(r: CasResult): Outcome {
    Failed(if r == Conflict then AccountChanged else DatabaseFailure)
  }

  function AfterEmailCommit(s: State, c: nat, now: int): State
    requires Enabled(s, CommitEmail(c, now))
  {
    var call := s.calls[c];
    var u := call.request.userId;
    var (db, r) := EmailCommit(s, call, now);
    if r != Applied then s.(calls := s.calls[c := call.(outcome := Some(Refusal(r)))])
    else
      s.(db := db,
         calls := s.calls[c := call.(outcome := Some(EmailIs(call.request.email)))],
         log := s.log + [EmailEntry(u, SignedOut(s.db, db), c, s.db.users[u].email, db.users[u].email)])
  }

  function AfterPasswordCommit(s: State, c: nat, now: int): State
    requires Enabled(s, CommitPassword(c, now))
  {
    var call := s.calls[c];
    var u := call.request.userId;
    var (db, r) := PasswordCommit(s, call, now);
    if r != Applied then s.(calls := s.calls[c := call.(outcome := Some(Refusal(r)))])
    else
      s.(db := db,
         calls := s.calls[c := call.(outcome := Some(PasswordIsChanged))],
         log := s.log + [PasswordEntry(u, SignedOut(s.db, db), c, s.db.users[u].passwordDigest, db.users[u].passwordDigest)])
  }

  function AfterRevokeOne(s: State, userId: nat, sessionId: nat, now: int): State {
    var (db, found) := SessionRevocation(s.db, userId, sessionId, now);
    s.(db := db, log := s.log + [SessionEntry(userId, SignedOut(s.db, db), found)])
  }

  function AfterRevokeOthers(s: State, userId: nat, currentSessionId: nat, now: int): State {
    var (db, count) := OthersRevocation(s.db, userId, currentSessionId, now);
    s.(db := db, log := s.log + [OthersEntry(userId, SignedOut(s.db, db), count)])
  }

  function Step(s: State, e: Event, check: (string, string) -> bool): State
    requires Enabled(s, e)
  {
    match e
    case Begin(c, request) => s.(calls := s.calls[c := Call(request, None, false, false, None, None)])
    case Find(c) => s.(calls := s.calls[c := AfterFind(s, s.calls[c])])
    case Charge(c, limits) => s.(calls := s.calls[c := AfterCharge(s.calls[c], limits)])
    case Verify(c) => s.(calls := s.calls[c := AfterVerify(s.calls[c], check)])
    case Hash(c, digest) => s.(calls := s.calls[c := s.calls[c].(hashed := Some(digest))], issued := s.issued + {digest})
    case CommitEmail(c, now) => AfterEmailCommit(s, c, now)
    case CommitPassword(c, now) => AfterPasswordCommit(s, c, now)
    case RevokeOne(userId, sessionId, now) => AfterRevokeOne(s, userId, sessionId, now)
    case RevokeOthers(userId, current, now) => AfterRevokeOthers(s, userId, current, now)
    case SignIn(sessionId, userId) =>
      s.(db := s.db.(sessions := s.db.sessions[sessionId := HumanSession(userId, None)]))
  }

  /** `events` lead from `s` to `t`. */
  predicate Runs(s: State, events: seq<Event>, t: State, check: (string, string) -> bool)
    decreases |events|
  {
    if events == [] then s == t
    else Enabled(s, events[0]) && Runs(Step(s, events[0], check), events[1..], t, check)
  }

  // ---- Copied emails over a run ----

  lemma StepKeepsEmails(s: State, e: Event, check: (string, string) -> bool, row: CliRow)
    requires Enabled(s, e) && UniqueEmails(s.db) && HasRow(s.db.credentials, row)
    ensures var t := Step(s, e, check);
      && UniqueEmails(t.db)
      && HasRow(t.db.credentials, row)
      && forall v :: ResolvesTo(s.db, row, v) ==> ResolvesTo(t.db, row, v)
  {
    hide LiveSessions, Revoke, RevokedSessions, RevokeUserMachineCredentials, EmailChange;
    match e
    case CommitEmail(c, now) =>
      var call := s.calls[c];
      var r := call.request;
      EmailChangeKeepsResolution(s.db, r.userId, r.currentSessionId, call.seen.value.email, r.email, now, row);
    case CommitPassword(c, now) =>
      var call := s.calls[c];
      if PasswordCommit(s, call, now).1 == Applied {
        RevocationKeepsRows(s.db.credentials, call.request.userId, s.db.users[call.request.userId].email, now);
      }
    case _ =>
  }

  /** Over any run, every CLI row that resolves to a user goes on resolving to that user, and to no other. */
  lemma {:induction false} RunKeepsEmails(s: State, events: seq<Event>, t: State, check: (string, string) -> bool, row: CliRow)
    requires Runs(s, events, t, check) && UniqueEmails(s.db) && HasRow(s.db.credentials, row)
    ensures UniqueEmails(t.db) && HasRow(t.db.credentials, row)
    ensures forall v :: ResolvesTo(s.db, row, v) ==> ResolvesTo(t.db, row, v)
    ensures forall v, w :: ResolvesTo(s.db, row, v) && ResolvesTo(t.db, row, w) ==> v == w
    decreases |events|
  {
    hide Step, Enabled;
    if events != [] {
      StepKeepsEmails(s, events[0], check, row);
      RunKeepsEmails(Step(s, events[0], check), events[1..], t, check, row);
    }
  }

  // ---- Revocations over a run ----

  /** No session is dropped or handed to another user, and no time of revocation changes. */
  ghost predicate KeepsSessions(before: map<nat, HumanSession>, after: map<nat, HumanSession>) {
    forall x :: x in before ==>
      x in after && after[x].userId == before[x].userId && (before[x].revokedAt.Some? ==> after[x] == before[x])
  }

  /** What a revocation told its caller is what it did. */
  predicate ReportedTruly(e: Entry) {
    && (e.OthersEntry? ==> e.count == |e.revoked|)
    && (e.SessionEntry? ==> |e.revoked| == if e.found then 1 else 0)
  }

  /** `t` logs one more transaction than `s`, of this user and signing out these sessions; or none. */
  predicate Logs(s: State, t: State, userId: nat, ids: set<nat>) {
    if |t.log| <= |s.log| then t.log == s.log && ids == {}
    else
      var e := t.log[|t.log| - 1];
      t.log == s.log + [e] && e.userId == userId && e.revoked == ids && ReportedTruly(e)
  }

  lemma SignedOutExactly(before: Database, after: Database, userId: nat, ids: set<nat>, now: int)
    requires RevokesExactly(before.sessions, after.sessions, userId, ids, now)
    ensures SignedOut(before, after) == RevokedSessions(after.sessions) - RevokedSessions(before.sessions) == ids
  {
    RevokesExactlyCounts(before.sessions, after.sessions, userId, ids, now);
  }

  lemma EmailCommitRevokes(s: State, c: nat, at: int) returns (userId: nat, ids: set<nat>, now: int)
    requires Enabled(s, CommitEmail(c, at))
    ensures var t := AfterEmailCommit(s, c, at);
      RevokesExactly(s.db.sessions, t.db.sessions, userId, ids, now) && Logs(s, t, userId, ids)
  {
    hide LiveSessions, Revoke, RevokedSessions, RevokesExactly, SignedOut, EmailChange;
    userId, ids, now := 0, {}, 0;
    NothingRevoked(s.db.sessions, userId, now);
    var call := s.calls[c];
    var (db, r) := EmailCommit(s, call, at);
    if r == Applied {
      userId, now := call.request.userId, at;
      ids := LiveSessions(s.db.sessions, userId) - {call.request.currentSessionId};
      ChangesRevokeExactly(s.db, userId, call.request.currentSessionId, call.seen.value.email, call.request.email, now);
      SignedOutExactly(s.db, db, userId, ids, now);
    }
  }

  lemma PasswordCommitRevokes(s: State, c: nat, at: int) returns (userId: nat, ids: set<nat>, now: int)
    requires Enabled(s, CommitPassword(c, at))
    ensures var t := AfterPasswordCommit(s, c, at);
      RevokesExactly(s.db.sessions, t.db.sessions, userId, ids, now) && Logs(s, t, userId, ids)
  {
    hide LiveSessions, Revoke, RevokedSessions, RevokesExactly, SignedOut, PasswordChange;
    userId, ids, now := 0, {}, 0;
    NothingRevoked(s.db.sessions, userId, now);
    var call := s.calls[c];
    var (db, r) := PasswordCommit(s, call, at);
    if r == Applied {
      userId, now := call.request.userId, at;
      ids := LiveSessions(s.db.sessions, userId);
      ChangesRevokeExactly(s.db, userId, 0, call.seen.value.digest, call.hashed.value, now);
      SignedOutExactly(s.db, db, userId, ids, now);
    }
  }

  lemma RevokeOneRevokes(s: State, u: nat, x: nat, now: int) returns (ids: set<nat>)
    ensures var t := AfterRevokeOne(s, u, x, now);
      RevokesExactly(s.db.sessions, t.db.sessions, u, ids, now) && Logs(s, t, u, ids)
  {
    hide LiveSessions, Revoke, RevokedSessions, RevokesExactly, SignedOut;
    var (db, found) := SessionRevocation(s.db, u, x, now);
    ids := if found then {x} else {};
    RevocationsRevokeExactly(s.db, u, x, now);
    SignedOutExactly(s.db, db, u, ids, now);
  }

  lemma RevokeOthersRevokes(s: State, u: nat, x: nat, now: int) returns (ids: set<nat>)
    ensures var t := AfterRevokeOthers(s, u, x, now);
      RevokesExactly(s.db.sessions, t.db.sessions, u, ids, now) && Logs(s, t, u, ids)
  {
    hide LiveSessions, Revoke, RevokedSessions, RevokesExactly, SignedOut;
    var (db, count) := OthersRevocation(s.db, u, x, now);
    ids := LiveSessions(s.db.sessions, u) - {x};
    RevocationsRevokeExactly(s.db, u, x, now);
    SignedOutExactly(s.db, db, u, ids, now);
  }

  /** Apart from signing in, every step revokes exactly the sessions that it logs. */
  lemma StepRevokes(s: State, e: Event, check: (string, string) -> bool) returns (userId: nat, ids: set<nat>, now: int)
    requires Enabled(s, e) && !e.SignIn?
    ensures var t := Step(s, e, check);
      && RevokesExactly(s.db.sessions, t.db.sessions, userId, ids, now)
      && Logs(s, t, userId, ids)
  {
    hide RevokesExactly, ReportedTruly, AfterEmailCommit, AfterPasswordCommit, AfterRevokeOne, AfterRevokeOthers;
    hide AfterFind, AfterCharge, AfterVerify;
    userId, ids, now := 0, {}, 0;
    NothingRevoked(s.db.sessions, userId, now);
    match e
    case CommitEmail(c, at) => userId, ids, now := EmailCommitRevokes(s, c, at);
    case CommitPassword(c, at) => userId, ids, now := PasswordCommitRevokes(s, c, at);
    case RevokeOne(u, x, at) =>
      userId, now := u, at;
      ids := RevokeOneRevokes(s, u, x, at);
    case RevokeOthers(u, x, at) =>
      userId, now := u, at;
      ids := RevokeOthersRevokes(s, u, x, at);
    case _ =>
  }

  lemma StepKeepsSessions(s: State, e: Event, check: (string, string) -> bool)
    requires Enabled(s, e)
    ensures KeepsSessions(s.db.sessions, Step(s, e, check).db.sessions)
  {
    if !e.SignIn? {
      hide Step, Enabled;
      var u, ids, now := StepRevokes(s, e, check);
    }
  }

  /** Over any run, of all four writers, a time of revocation once written is final. */
  lemma {:induction false} RunKeepsSessions(s: State, events: seq<Event>, t: State, check: (string, string) -> bool)
    requires Runs(s, events, t, check)
    ensures KeepsSessions(s.db.sessions, t.db.sessions)
    decreases |events|
  {
    hide Step, Enabled;
    if events != [] {
      StepKeepsSessions(s, events[0], check);
      RunKeepsSessions(Step(s, events[0], check), events[1..], t, check);
    }
  }

  function TotalRevoked(log: seq<Entry>): nat {
    if log == [] then 0 else TotalRevoked(log[..|log| - 1]) + |log[|log| - 1].revoked|
  }

  predicate InSomeEntry(log: seq<Entry>, x: nat) {
    exists k :: 0 <= k < |log| && x in log[k].revoked
  }

  /** The sessions of an entry are revoked, belong to its user, and were not revoked before the log began. */
  ghost predicate Owned(sessions: map<nat, HumanSession>, base: set<nat>, e: Entry) {
    && ReportedTruly(e)
    && e.revoked !! base
    && forall x :: x in e.revoked ==> x in RevokedSessions(sessions) && sessions[x].userId == e.userId
  }

  ghost predicate Covered(sessions: map<nat, HumanSession>, base: set<nat>, log: seq<Entry>) {
    forall x :: x in RevokedSessions(sessions) ==> x in base || InSomeEntry(log, x)
  }

  ghost predicate Entered(sessions: map<nat, HumanSession>, base: set<nat>, log: seq<Entry>) {
    && (forall k :: 0 <= k < |log| ==> Owned(sessions, base, log[k]))
    && (forall j, k :: 0 <= j < k < |log| ==> log[j].revoked !! log[k].revoked)
  }

  /** Every revoked session was revoked before the log began or is in exactly one entry, under its owner. */
  ghost predicate Ledger(s: State, base: set<nat>) {
    && base <= RevokedSessions(s.db.sessions)
    && Covered(s.db.sessions, base, s.log)
    && Entered(s.db.sessions, base, s.log)
    && |RevokedSessions(s.db.sessions)| == |base| + TotalRevoked(s.log)
  }

  lemma StepKeepsLedger(s: State, e: Event, check: (string, string) -> bool, base: set<nat>)
    requires Enabled(s, e) && Ledger(s, base)
    ensures Ledger(Step(s, e, check), base)
  {
    var t := Step(s, e, check);
    if e.SignIn? {
      assert RevokedSessions(t.db.sessions) == RevokedSessions(s.db.sessions);
    } else {
      hide Step, Enabled, ReportedTruly, Ledger;
      var u, ids, now := StepRevokes(s, e, check);
      LogsKeepLedger(s, t, u, ids, now, base);
    }
  }

  lemma OwnedPersists(before: map<nat, HumanSession>, after: map<nat, HumanSession>, base: set<nat>, e: Entry)
    requires KeepsSessions(before, after) && Owned(before, base, e)
    ensures Owned(after, base, e)
  {
    hide ReportedTruly;
  }

  lemma LogsKeepLedger(s: State, t: State, u: nat, ids: set<nat>, now: int, base: set<nat>)
    requires Ledger(s, base) && Logs(s, t, u, ids)
    requires RevokesExactly(s.db.sessions, t.db.sessions, u, ids, now)
    ensures Ledger(t, base)
  {
    hide Covered, Entered, RevokedSessions, RevokesExactly, ReportedTruly;
    RevokesExactlyCounts(s.db.sessions, t.db.sessions, u, ids, now);
    EntriesStayOwned(s, t, u, ids, now, base);
    LogCovers(s, t, u, ids, now, base);
    if |t.log| > |s.log| {
      assert t.log[..|t.log| - 1] == s.log;
    }
  }

  lemma LogCovers(s: State, t: State, u: nat, ids: set<nat>, now: int, base: set<nat>)
    requires Covered(s.db.sessions, base, s.log) && Logs(s, t, u, ids)
    requires RevokesExactly(s.db.sessions, t.db.sessions, u, ids, now)
    ensures Covered(t.db.sessions, base, t.log)
  {
    RevokesExactlyCounts(s.db.sessions, t.db.sessions, u, ids, now);
    hide RevokedSessions, RevokesExactly, ReportedTruly;
    forall x | x in RevokedSessions(t.db.sessions) ensures x in base || InSomeEntry(t.log, x) {
      if x in ids {
        assert x in t.log[|s.log|].revoked;
      } else if x !in base {
        var k :| 0 <= k < |s.log| && x in s.log[k].revoked;
        assert x in t.log[k].revoked;
      }
    }
  }

  lemma EntriesStayOwned(s: State, t: State, u: nat, ids: set<nat>, now: int, base: set<nat>)
    requires Entered(s.db.sessions, base, s.log) && Logs(s, t, u, ids) && base <= RevokedSessions(s.db.sessions)
    requires RevokesExactly(s.db.sessions, t.db.sessions, u, ids, now)
    ensures Entered(t.db.sessions, base, t.log)
  {
    hide Owned, RevokedSessions;
    var before, after := s.db.sessions, t.db.sessions;
    assert KeepsSessions(before, after);
    RevokesExactlyCounts(before, after, u, ids, now);
    forall k | 0 <= k < |s.log| ensures Owned(after, base, s.log[k]) {
      OwnedPersists(before, after, base, s.log[k]);
    }
    if |t.log| > |s.log| {
      NewEntryOwned(before, after, t.log[|s.log|], now, base);
      EntriesStayDisjoint(before, base, s.log, t.log[|s.log|]);
    }
  }

  lemma NewEntryOwned(before: map<nat, HumanSession>, after: map<nat, HumanSession>, e: Entry, now: int, base: set<nat>)
    requires base <= RevokedSessions(before) && ReportedTruly(e)
    requires RevokesExactly(before, after, e.userId, e.revoked, now)
    ensures Owned(after, base, e)
  {
    hide ReportedTruly;
    RevokesExactlyCounts(before, after, e.userId, e.revoked, now);
  }

  lemma EntriesStayDisjoint(before: map<nat, HumanSession>, base: set<nat>, log: seq<Entry>, e: Entry)
    requires Entered(before, base, log)
    requires RevokedSessions(before) !! e.revoked
    ensures forall j, k :: 0 <= j < k < |log + [e]| ==> (log + [e])[j].revoked !! (log + [e])[k].revoked
  {
    forall k | 0 <= k < |log| ensures log[k].revoked !! e.revoked {
      assert Owned(before, base, log[k]);
    }
  }

  /**
   Whatever the writers do and however they interleave, each session is signed out by at most
   one transaction and reported once: the reports add up to the sessions that became revoked.
   */
  lemma {:induction false} RunKeepsLedger(s: State, events: seq<Event>, t: State, check: (string, string) -> bool, base: set<nat>)
    requires Runs(s, events, t, check) && Ledger(s, base)
    ensures Ledger(t, base)
    decreases |events|
  {
    hide Step, Enabled, Ledger;
    if events != [] {
      StepKeepsLedger(s, events[0], check, base);
      RunKeepsLedger(Step(s, events[0], check), events[1..], t, check, base);
    }
  }

  lemma SessionsRevokedOnce(s: State, events: seq<Event>, t: State, check: (string, string) -> bool)
    requires Runs(s, events, t, check) && s.log == []
    ensures Ledger(t, RevokedSessions(s.db.sessions))
    ensures TotalRevoked(t.log) == |RevokedSessions(t.db.sessions)| - |RevokedSessions(s.db.sessions)|
  {
    RunKeepsLedger(s, events, t, check, RevokedSessions(s.db.sessions));
  }
}
