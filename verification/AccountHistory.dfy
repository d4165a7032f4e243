/**
 What the log of committed transactions tells about a run of `AccountRuns`: the digests and
 emails of a user form chains, each applied change consumes its predecessor, and revocations
 reach everything that belonged to the user.
 */
module AccountHistory {
  import opened Wrappers
  import opened CredentialRevocation
  import opened AccountDatabase
  import opened AccountService
  import opened AccountRuns

  // ---- The chain of values of one column ----

  datatype Column = Email | Digest

  function Value(db: Database, col: Column, u: nat): string
    requires u in db.users
  {
    if col == Email then db.users[u].email else db.users[u].passwordDigest
  }

  predicate Writes(e: Entry, col: Column, u: nat) {
    e.userId == u && if col == Email then e.EmailEntry? else e.PasswordEntry?
  }

  /** The column's value after the log: that of the last write, or the one it started with. */
  function Last(first: Database, log: seq<Entry>, col: Column, u: nat): string
    requires u in first.users
  {
    if log == [] then Value(first, col, u)
    else if Writes(log[|log| - 1], col, u) then log[|log| - 1].after
    else Last(first, log[..|log| - 1], col, u)
  }

  /** How many writes to the column the log holds. */
  function Count(log: seq<Entry>, col: Column, u: nat): nat {
    if log == [] then 0
    else Count(log[..|log| - 1], col, u) + if Writes(log[|log| - 1], col, u) then 1 else 0
  }

  lemma {:induction false} LastIsFirstOrAWrite(first: Database, log: seq<Entry>, col: Column, u: nat)
    requires u in first.users
    ensures || Last(first, log, col, u) == Value(first, col, u)
      || exists i :: 0 <= i < |log| && Writes(log[i], col, u) && log[i].after == Last(first, log, col, u)
  {
    if log != [] && !Writes(log[|log| - 1], col, u) {
      LastIsFirstOrAWrite(first, log[..|log| - 1], col, u);
    }
  }

  /** If the column was written at or after `p`, its value is one written at or after `p`. */
  lemma {:induction false} LastIsAWriteSince(first: Database, log: seq<Entry>, col: Column, u: nat, p: nat, i: nat)
    requires u in first.users && p <= i < |log| && Writes(log[i], col, u)
    ensures exists j :: p <= j < |log| && Writes(log[j], col, u) && log[j].after == Last(first, log, col, u)
  {
    if !Writes(log[|log| - 1], col, u) {
      LastIsAWriteSince(first, log[..|log| - 1], col, u, p, i);
    }
  }

  // ---- The database follows the log ----

  /** Users, emails, digests and epochs are what the log makes of the first database. */
  ghost predicate Follows(s: State, first: Database) {
    && s.db.users.Keys == first.users.Keys
    && (forall u :: u in first.users ==> FollowsAt(s, first, u))
  }

  predicate FollowsAt(s: State, first: Database, u: nat)
    requires u in s.db.users && u in first.users
  {
    && s.db.users[u].email == Last(first, s.log, Email, u)
    && s.db.users[u].passwordDigest == Last(first, s.log, Digest, u)
    && s.db.users[u].credentialEpoch == first.users[u].credentialEpoch + Count(s.log, Digest, u)
  }

  /** A call remembers what the columns were when it read them, and has verified against that. */
  ghost predicate CallTrue(s: State, first: Database, c: nat, check: (string, string) -> bool)
    requires c in s.calls
  {
    var call := s.calls[c];
    var u := call.request.userId;
    && (call.admitted ==> call.seen.Some?)
    && (call.verified ==> call.admitted)
    && (call.seen.Some? ==>
          && u in first.users && call.seen.value.position <= |s.log|
          && call.seen.value.email == Last(first, s.log[..call.seen.value.position], Email, u)
          && call.seen.value.digest == Last(first, s.log[..call.seen.value.position], Digest, u))
    && (call.verified ==> check(call.seen.value.digest, call.request.password))
    && (call.verified && call.request.EmailRequest? && call.outcome.None? ==> call.request.email != call.seen.value.email)
    && (call.hashed.Some? ==> call.verified && call.request.PasswordRequest?)
  }

  ghost predicate CallsTrue(s: State, first: Database, check: (string, string) -> bool) {
    forall c :: c in s.calls ==> CallTrue(s, first, c, check)
  }

  lemma StepKeepsCallTrue(s: State, e: Event, check: (string, string) -> bool, first: Database, c: nat)
    requires Enabled(s, e) && Follows(s, first) && c in Step(s, e, check).calls
    requires c in s.calls ==> CallTrue(s, first, c, check)
    ensures CallTrue(Step(s, e, check), first, c, check)
  {
    hide Last, Count, EmailChange, PasswordChange, SessionRevocation, OthersRevocation, SignedOut, LongestWait;
    var t := Step(s, e, check);
    assert s.log[..|s.log|] == s.log;
    if c in s.calls && s.calls[c].seen.Some? {
      assert t.log[..s.calls[c].seen.value.position] == s.log[..s.calls[c].seen.value.position];
    }
  }

  lemma StepKeepsCallsTrue(s: State, e: Event, check: (string, string) -> bool, first: Database)
    requires Enabled(s, e) && CallsTrue(s, first, check) && Follows(s, first)
    ensures CallsTrue(Step(s, e, check), first, check)
  {
    hide Step, CallTrue, Follows;
    forall c | c in Step(s, e, check).calls ensures CallTrue(Step(s, e, check), first, c, check) {
      StepKeepsCallTrue(s, e, check, first, c);
    }
  }

  // ---- New digests are fresh ----

  ghost predicate Initially(first: Database, d: string) {
    exists u :: u in first.users && first.users[u].passwordDigest == d
  }

  predicate Written(log: seq<Entry>, d: string) {
    exists k :: 0 <= k < |log| && log[k].PasswordEntry? && log[k].after == d
  }

  /** The call holds a new digest that it has not committed yet. */
  predicate Pending(s: State, c: nat) {
    c in s.calls && s.calls[c].hashed.Some? && s.calls[c].outcome.None?
  }

  /** A pending digest is nobody's, and no digest was written twice. */
  ghost predicate Fresh(s: State, first: Database) {
    && (forall d :: Initially(first, d) || Written(s.log, d) ==> d in s.issued)
    && (forall c :: Pending(s, c) ==> s.calls[c].hashed.value in s.issued)
    && (forall c :: Pending(s, c) ==> !Initially(first, s.calls[c].hashed.value) && !Written(s.log, s.calls[c].hashed.value))
    && (forall c, b :: Pending(s, c) && Pending(s, b) && c != b ==> s.calls[c].hashed != s.calls[b].hashed)
    && DigestsDistinct(s.log, first)
  }

  ghost predicate DigestsDistinct(log: seq<Entry>, first: Database) {
    && (forall k :: 0 <= k < |log| && log[k].PasswordEntry? ==> !Initially(first, log[k].after))
    && (forall j, k :: 0 <= j < k < |log| && log[j].PasswordEntry? && log[k].PasswordEntry? ==> log[j].after != log[k].after)
  }

  lemma WrittenByOneMore(log: seq<Entry>, e: Entry, d: string)
    ensures Written(log + [e], d) <==> Written(log, d) || (e.PasswordEntry? && e.after == d)
  {
    assert (log + [e])[|log|] == e;
    if Written(log, d) {
      var k :| 0 <= k < |log| && log[k].PasswordEntry? && log[k].after == d;
      assert (log + [e])[k] == log[k];
    }
  }

  lemma AppendKeepsDistinct(log: seq<Entry>, first: Database, e: Entry)
    requires DigestsDistinct(log, first)
    requires e.PasswordEntry? ==> !Initially(first, e.after) && !Written(log, e.after)
    ensures DigestsDistinct(log + [e], first)
  {
    hide Initially;
  }

  /** Only hashing makes a digest pending, and only committing it writes it. */
  lemma StepWritesPending(s: State, e: Event, check: (string, string) -> bool)
    requires Enabled(s, e)
    ensures var t := Step(s, e, check);
      && (forall c :: Pending(t, c) ==>
            || (Pending(s, c) && t.calls[c].hashed == s.calls[c].hashed)
            || (e.Hash? && e.call == c && t.calls[c].hashed == Some(e.digest)))
      && t.issued == (if e.Hash? then s.issued + {e.digest} else s.issued)
      && (e.Hash? ==> t.log == s.log)
      && (t.log == s.log || |t.log| == |s.log| + 1)
      && (t.log != s.log ==>
            var entry := t.log[|s.log|];
            && t.log == s.log + [entry]
            && (entry.PasswordEntry? ==>
                  e.CommitPassword? && Pending(s, e.call) && !Pending(t, e.call) && s.calls[e.call].hashed == Some(entry.after)))
  {
    hide EmailChange, SessionRevocation, OthersRevocation, SignedOut, LongestWait;
    hide RevokeUserMachineCredentials, Revoke, LiveSessions;
  }

  lemma StepKeepsFresh(s: State, e: Event, check: (string, string) -> bool, first: Database)
    requires Enabled(s, e) && Fresh(s, first)
    ensures Fresh(Step(s, e, check), first)
  {
    hide Step, Initially, Written, DigestsDistinct;
    var t := Step(s, e, check);
    StepWritesPending(s, e, check);
    if t.log != s.log {
      var entry := t.log[|s.log|];
      forall d ensures Written(t.log, d) <==> Written(s.log, d) || (entry.PasswordEntry? && entry.after == d) {
        WrittenByOneMore(s.log, entry, d);
      }
      AppendKeepsDistinct(s.log, first, entry);
    }
  }

  lemma CurrentDigestIsUsed(s: State, first: Database, u: nat)
    requires Follows(s, first) && u in first.users
    ensures Initially(first, s.db.users[u].passwordDigest) || Written(s.log, s.db.users[u].passwordDigest)
  {
    assert FollowsAt(s, first, u);
    LastIsFirstOrAWrite(first, s.log, Digest, u);
  }

  /** A user's row changes in a logged write to it and in nothing else. */
  predicate RowStep(s: State, t: State, u: nat)
    requires u in s.db.users && u in t.db.users
  {
    var was, row := s.db.users[u], t.db.users[u];
    if t.log == s.log then
      row.email == was.email && row.passwordDigest == was.passwordDigest && row.credentialEpoch == was.credentialEpoch
    else
      && |t.log| == |s.log| + 1 && t.log == s.log + [t.log[|s.log|]]
      && var e := t.log[|s.log|];
      && row.email == (if Writes(e, Email, u) then e.after else was.email)
      && row.passwordDigest == (if Writes(e, Digest, u) then e.after else was.passwordDigest)
      && row.credentialEpoch == was.credentialEpoch + (if Writes(e, Digest, u) then 1 else 0)
  }

  lemma EmailCommitIsRowStep(s: State, c: nat, now: int, u: nat)
    requires Enabled(s, CommitEmail(c, now)) && u in s.db.users
    ensures u in AfterEmailCommit(s, c, now).db.users && RowStep(s, AfterEmailCommit(s, c, now), u)
  {
    hide SignedOut, Revoke, LiveSessions, RenameInstallations, RenameCliSessions, EmailTaken;
  }

  lemma PasswordCommitIsRowStep(s: State, c: nat, now: int, u: nat)
    requires Enabled(s, CommitPassword(c, now)) && u in s.db.users
    requires s.calls[c].hashed.value != s.db.users[u].passwordDigest
    ensures u in AfterPasswordCommit(s, c, now).db.users && RowStep(s, AfterPasswordCommit(s, c, now), u)
  {
    hide SignedOut, Revoke, LiveSessions, RevokeUserMachineCredentials;
  }

  lemma StepIsRowStep(s: State, e: Event, check: (string, string) -> bool, u: nat)
    requires Enabled(s, e) && u in s.db.users
    requires e.CommitPassword? ==> s.calls[e.call].hashed.value != s.db.users[u].passwordDigest
    ensures u in Step(s, e, check).db.users && RowStep(s, Step(s, e, check), u)
  {
    hide AfterEmailCommit, AfterPasswordCommit, SignedOut, Revoke, LiveSessions;
    match e
    case CommitEmail(c, now) => EmailCommitIsRowStep(s, c, now, u);
    case CommitPassword(c, now) => PasswordCommitIsRowStep(s, c, now, u);
    case _ =>
  }

  lemma RowStepKeepsFollowsAt(s: State, t: State, first: Database, u: nat)
    requires u in first.users && u in s.db.users && u in t.db.users
    requires FollowsAt(s, first, u) && RowStep(s, t, u)
    ensures FollowsAt(t, first, u)
  {
    if t.log != s.log {
      assert t.log[..|t.log| - 1] == s.log;
    }
  }

  lemma StepKeepsUsers(s: State, e: Event, check: (string, string) -> bool)
    requires Enabled(s, e)
    ensures Step(s, e, check).db.users.Keys == s.db.users.Keys
  {
    hide SignedOut, LongestWait, RevokeUserMachineCredentials, Revoke, LiveSessions, RenameInstallations, RenameCliSessions;
  }

  lemma StepKeepsFollows(s: State, e: Event, check: (string, string) -> bool, first: Database)
    requires Enabled(s, e) && Follows(s, first) && Fresh(s, first)
    ensures Follows(Step(s, e, check), first)
  {
    hide Step, Initially, Written, DigestsDistinct, FollowsAt, RowStep;
    StepKeepsUsers(s, e, check);
    forall u | u in first.users ensures FollowsAt(Step(s, e, check), first, u) {
      CurrentDigestIsUsed(s, first, u);
      assert e.CommitPassword? ==> Pending(s, e.call);
      StepIsRowStep(s, e, check, u);
      RowStepKeepsFollowsAt(s, Step(s, e, check), first, u);
    }
  }

  // ---- Every logged change comes from a call that saw what it replaced ----

  predicate IsChange(e: Entry) {
    e.EmailEntry? || e.PasswordEntry?
  }

  ghost predicate EntryTrue(s: State, first: Database, k: nat, check: (string, string) -> bool)
    requires k < |s.log| && IsChange(s.log[k])
  {
    var e := s.log[k];
    && e.userId in first.users && e.call in s.calls
    && var call := s.calls[e.call];
    && call.request.userId == e.userId
    && call.seen.Some? && call.seen.value.position <= k && call.verified
    && check(call.seen.value.digest, call.request.password)
    && if e.EmailEntry? then
         && e.before == call.seen.value.email == Last(first, s.log[..k], Email, e.userId)
         && call.request.EmailRequest? && e.after == call.request.email && e.before != e.after
         && call.outcome == Some(EmailIs(e.after))
       else
         && e.before == call.seen.value.digest == Last(first, s.log[..k], Digest, e.userId)
         && call.request.PasswordRequest? && call.hashed == Some(e.after)
         && call.outcome == Some(PasswordIsChanged)
  }

  ghost predicate EntriesTrue(s: State, first: Database, check: (string, string) -> bool) {
    && (forall k :: 0 <= k < |s.log| && IsChange(s.log[k]) ==> EntryTrue(s, first, k, check))
    && (forall j, k :: 0 <= j < k < |s.log| && IsChange(s.log[j]) && IsChange(s.log[k]) ==> s.log[j].call != s.log[k].call)
  }

  /** The call's transaction is in the log. */
  predicate Logged(log: seq<Entry>, c: nat) {
    exists k :: 0 <= k < |log| && IsChange(log[k]) && log[k].call == c
  }

  /** A call that reports a change made it. */
  ghost predicate OutcomesTrue(s: State) {
    forall c :: c in s.calls && Succeeded(s.calls[c]) ==> Logged(s.log, c)
  }

  /** The call reports a change; an email change to the address in use is none. */
  predicate Succeeded(call: Call) {
    || call.outcome == Some(PasswordIsChanged)
    || (call.outcome.Some? && call.outcome.value.EmailIs? && call.seen.Some? && call.seen.value.email != call.outcome.value.email)
  }

  lemma FinishedCallsStay(s: State, e: Event, check: (string, string) -> bool, c: nat)
    requires Enabled(s, e) && c in s.calls && s.calls[c].outcome.Some?
    ensures c in Step(s, e, check).calls && Step(s, e, check).calls[c] == s.calls[c]
  {
    hide EmailChange, PasswordChange, SessionRevocation, OthersRevocation, SignedOut, LongestWait;
  }

  lemma EmailEntryIsTrue(s: State, c: nat, now: int, check: (string, string) -> bool, first: Database)
    requires Enabled(s, CommitEmail(c, now)) && Follows(s, first) && CallTrue(s, first, c, check)
    ensures var t := AfterEmailCommit(s, c, now);
      t.log != s.log ==>
        && t.log == s.log + [t.log[|s.log|]] && t.log[|s.log|].EmailEntry? && t.log[|s.log|].call == c
        && EntryTrue(t, first, |s.log|, check)
  {
    hide SignedOut, Revoke, LiveSessions, RenameInstallations, RenameCliSessions, EmailTaken, Last, Count;
    var t := AfterEmailCommit(s, c, now);
    if t.log != s.log {
      assert t.log[..|s.log|] == s.log;
    }
  }

  lemma PasswordEntryIsTrue(s: State, c: nat, now: int, check: (string, string) -> bool, first: Database)
    requires Enabled(s, CommitPassword(c, now)) && Follows(s, first) && CallTrue(s, first, c, check)
    ensures var t := AfterPasswordCommit(s, c, now);
      t.log != s.log ==>
        && t.log == s.log + [t.log[|s.log|]] && t.log[|s.log|].PasswordEntry? && t.log[|s.log|].call == c
        && EntryTrue(t, first, |s.log|, check)
  {
    hide SignedOut, Revoke, LiveSessions, RevokeUserMachineCredentials, Last, Count;
    var t := AfterPasswordCommit(s, c, now);
    if t.log != s.log {
      assert t.log[..|s.log|] == s.log;
    }
  }

  /** A logged change is the active call's own, and it is true. */
  lemma StepAddsTrueEntry(s: State, e: Event, check: (string, string) -> bool, first: Database)
    requires Enabled(s, e) && Follows(s, first) && CallsTrue(s, first, check)
    ensures var t := Step(s, e, check);
      && s.log <= t.log && |t.log| <= |s.log| + 1
      && (t.log != s.log && IsChange(t.log[|s.log|]) ==>
            && Active(s, t.log[|s.log|].call)
            && EntryTrue(t, first, |s.log|, check))
  {
    hide AfterEmailCommit, AfterPasswordCommit, EntryTrue, SignedOut, Follows, CallTrue, Revoke, LiveSessions, LongestWait;
    match e
    case CommitEmail(c, now) => EmailEntryIsTrue(s, c, now, check, first);
    case CommitPassword(c, now) => PasswordEntryIsTrue(s, c, now, check, first);
    case _ =>
  }

  lemma OldEntryStaysTrue(s: State, t: State, first: Database, k: nat, check: (string, string) -> bool)
    requires k < |s.log| && s.log <= t.log && IsChange(s.log[k]) && EntryTrue(s, first, k, check)
    requires s.log[k].call in t.calls && t.calls[s.log[k].call] == s.calls[s.log[k].call]
    ensures EntryTrue(t, first, k, check)
  {
    assert t.log[..k] == s.log[..k];
  }

  lemma StepKeepsEntriesTrue(s: State, e: Event, check: (string, string) -> bool, first: Database)
    requires Enabled(s, e) && Follows(s, first) && CallsTrue(s, first, check) && EntriesTrue(s, first, check)
    ensures EntriesTrue(Step(s, e, check), first, check)
  {
    hide Step, Follows, CallsTrue, Last, Enabled;
    var t := Step(s, e, check);
    StepAddsTrueEntry(s, e, check, first);
    forall k | 0 <= k < |s.log| && IsChange(s.log[k]) ensures EntryTrue(t, first, k, check) {
      assert EntryTrue(s, first, k, check);
      FinishedCallsStay(s, e, check, s.log[k].call);
      OldEntryStaysTrue(s, t, first, k, check);
    }
  }

  lemma StepKeepsOutcomesTrue(s: State, e: Event, check: (string, string) -> bool, first: Database)
    requires Enabled(s, e) && OutcomesTrue(s) && CallsTrue(s, first, check)
    ensures OutcomesTrue(Step(s, e, check))
  {
    hide SignedOut, Revoke, LiveSessions, RevokeUserMachineCredentials, EmailChange, PasswordChange, Last, Count, LongestWait;
    var t := Step(s, e, check);
    forall c | c in t.calls && Succeeded(t.calls[c]) ensures Logged(t.log, c) {
      if c in s.calls && Succeeded(s.calls[c]) {
        var k :| 0 <= k < |s.log| && IsChange(s.log[k]) && s.log[k].call == c;
        assert t.log[k] == s.log[k];
      } else {
        assert c in s.calls ==> CallTrue(s, first, c, check);
        assert |t.log| == |s.log| + 1 && t.log[|s.log|].call == c;
      }
    }
  }

  // ---- Whole runs ----

  ghost predicate History(s: State, first: Database, check: (string, string) -> bool) {
    Follows(s, first) && CallsTrue(s, first, check) && Fresh(s, first) && EntriesTrue(s, first, check) && OutcomesTrue(s)
  }

  /** No call is in flight, nothing is logged, and the stored digests are accounted for. */
  ghost predicate Start(s: State) {
    s.calls == map[] && s.log == [] && forall u :: u in s.db.users ==> s.db.users[u].passwordDigest in s.issued
  }

  lemma StartHasHistory(s: State, check: (string, string) -> bool)
    requires Start(s)
    ensures History(s, s.db, check)
  {
  }

  lemma {:induction false} RunKeepsHistory(s: State, events: seq<Event>, t: State, check: (string, string) -> bool, first: Database)
    requires Runs(s, events, t, check) && History(s, first, check)
    ensures History(t, first, check)
    decreases |events|
  {
    hide Step, Enabled, Follows, CallsTrue, Fresh, EntriesTrue, OutcomesTrue;
    if events != [] {
      var e := events[0];
      StepKeepsFollows(s, e, check, first);
      StepKeepsCallsTrue(s, e, check, first);
      StepKeepsFresh(s, e, check, first);
      StepKeepsEntriesTrue(s, e, check, first);
      StepKeepsOutcomesTrue(s, e, check, first);
      RunKeepsHistory(Step(s, e, check), events[1..], t, check, first);
    }
  }
}
