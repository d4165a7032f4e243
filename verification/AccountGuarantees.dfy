/**
 What holds of every run of the account service that starts with no call in flight.
 */
module AccountGuarantees {
  import opened Wrappers
  import opened CredentialRevocation
  import opened AccountDatabase
  import opened AccountService
  import opened AccountRuns
  import opened AccountHistory

  ghost predicate Reaches(s: State, events: seq<Event>, t: State, check: (string, string) -> bool) {
    Start(s) && Runs(s, events, t, check)
  }

  lemma RunHasHistory(s: State, events: seq<Event>, t: State, check: (string, string) -> bool)
    requires Reaches(s, events, t, check)
    ensures History(t, s.db, check)
  {
    StartHasHistory(s, check);
    RunKeepsHistory(s, events, t, check, s.db);
  }

  // ---- Refused calls ----

  /** A finished call stays as it is. */
  lemma {:induction false} FinishedCallsPersist(s: State, events: seq<Event>, t: State, check: (string, string) -> bool, c: nat)
    requires Runs(s, events, t, check) && c in s.calls && s.calls[c].outcome.Some?
    ensures c in t.calls && t.calls[c] == s.calls[c]
    decreases |events|
  {
    hide Step, Enabled;
    if events != [] {
      FinishedCallsStay(s, events[0], check, c);
      FinishedCallsPersist(Step(s, events[0], check), events[1..], t, check, c);
    }
  }

  /** A call that ends in an error has changed nothing: no transaction of the run is its own. */
  lemma FailedCallsChangeNothing(s: State, events: seq<Event>, t: State, check: (string, string) -> bool, c: nat)
    requires Reaches(s, events, t, check) && c in t.calls && t.calls[c].outcome.Some? && t.calls[c].outcome.value.Failed?
    ensures !Logged(t.log, c)
  {
    hide Last, Count, Runs, Follows, CallsTrue, Fresh, OutcomesTrue;
    RunHasHistory(s, events, t, check);
    forall k | 0 <= k < |t.log| && IsChange(t.log[k]) ensures t.log[k].call != c {
      assert EntryTrue(t, s.db, k, check);
    }
  }

  /** A call blocked by a limit is told the longest wait, never gets to verify a password, and commits nothing. */
  lemma BlockedCallsEnd(
      s: State, before: seq<Event>, m: State, c: nat, limits: seq<Limit>, after: seq<Event>, t: State,
      check: (string, string) -> bool)
    requires Reaches(s, before, m, check) && Enabled(m, Charge(c, limits)) && LongestWait(limits).Some?
    requires Runs(Step(m, Charge(c, limits), check), after, t, check)
    ensures c in t.calls && !t.calls[c].verified && !Logged(t.log, c)
    ensures t.calls[c].outcome == Some(Failed(RateLimited(LongestWait(limits).value)))
  {
    hide LongestWait, Last, Count, Runs, Follows, Fresh, EntriesTrue, OutcomesTrue, Logged;
    var n := Step(m, Charge(c, limits), check);
    RunHasHistory(s, before, m, check);
    assert CallTrue(m, s.db, c, check);
    RunsOne(m, Charge(c, limits), check);
    RunsCompose(s, before, m, [Charge(c, limits)], n, check);
    RunsCompose(s, before + [Charge(c, limits)], n, after, t, check);
    FinishedCallsPersist(n, after, t, check, c);
    FailedCallsChangeNothing(s, before + [Charge(c, limits)] + after, t, check, c);
  }

  lemma RunsOne(s: State, e: Event, check: (string, string) -> bool)
    requires Enabled(s, e)
    ensures Runs(s, [e], Step(s, e, check), check)
  {
    hide Step;
    assert [e][1..] == [];
    assert Runs(Step(s, e, check), [], Step(s, e, check), check);
  }

  // ---- Passwords ----

  /**
   The digests of a user form a chain without repeats: every change replaces what the change
   before it wrote, the last one written is stored, no digest comes back, and the credential
   epoch has advanced once for every change.
   */
  lemma DigestsFormAChain(s: State, events: seq<Event>, t: State, check: (string, string) -> bool, u: nat)
    requires Reaches(s, events, t, check) && u in s.db.users
    ensures u in t.db.users
    ensures t.db.users[u].passwordDigest == Last(s.db, t.log, Digest, u)
    ensures t.db.users[u].credentialEpoch == s.db.users[u].credentialEpoch + Count(t.log, Digest, u)
    ensures forall k :: 0 <= k < |t.log| && Writes(t.log[k], Digest, u) ==>
      && t.log[k].before == Last(s.db, t.log[..k], Digest, u)
      && t.log[k].after != s.db.users[u].passwordDigest
    ensures forall j, k :: 0 <= j < k < |t.log| && Writes(t.log[j], Digest, u) && Writes(t.log[k], Digest, u) ==>
      t.log[j].after != t.log[k].after && t.log[j].before != t.log[k].before
  {
    hide Last, Count, Runs;
    RunHasHistory(s, events, t, check);
    assert FollowsAt(t, s.db, u);
    forall k | 0 <= k < |t.log| && Writes(t.log[k], Digest, u)
      ensures t.log[k].before == Last(s.db, t.log[..k], Digest, u) && t.log[k].after != s.db.users[u].passwordDigest
    {
      assert EntryTrue(t, s.db, k, check);
    }
    forall j, k | 0 <= j < k < |t.log| && Writes(t.log[j], Digest, u) && Writes(t.log[k], Digest, u)
      ensures t.log[j].before != t.log[k].before
    {
      DigestsReplacedOnce(t, s.db, check, u, j, k);
    }
  }

  /** Two changes never replace the same digest. */
  lemma DigestsReplacedOnce(t: State, first: Database, check: (string, string) -> bool, u: nat, j: nat, k: nat)
    requires History(t, first, check) && u in first.users && j < k < |t.log|
    requires Writes(t.log[j], Digest, u) && Writes(t.log[k], Digest, u)
    ensures t.log[j].before != t.log[k].before
  {
    hide Follows, CallsTrue, OutcomesTrue, Fresh;
    assert EntryTrue(t, first, j, check) && EntryTrue(t, first, k, check);
    SeenDigestIsGone(t, first, check, u, j, j, k);
  }

  /** Of the callers who read the same digest of a user, at most one changes the password. */
  lemma OnePasswordWinner(s: State, events: seq<Event>, t: State, check: (string, string) -> bool, a: nat, b: nat)
    requires Reaches(s, events, t, check) && a in t.calls && b in t.calls && a != b
    requires t.calls[a].request.userId == t.calls[b].request.userId
    requires t.calls[a].seen.Some? && t.calls[b].seen.Some? && t.calls[a].seen.value.digest == t.calls[b].seen.value.digest
    ensures !(t.calls[a].outcome == Some(PasswordIsChanged) && t.calls[b].outcome == Some(PasswordIsChanged))
  {
    hide Last, Count, Runs, Follows, CallsTrue, Fresh;
    RunHasHistory(s, events, t, check);
    if t.calls[a].outcome == Some(PasswordIsChanged) && t.calls[b].outcome == Some(PasswordIsChanged) {
      assert Succeeded(t.calls[a]) && Succeeded(t.calls[b]);
      var j :| 0 <= j < |t.log| && IsChange(t.log[j]) && t.log[j].call == a;
      var k :| 0 <= k < |t.log| && IsChange(t.log[k]) && t.log[k].call == b;
      assert EntryTrue(t, s.db, j, check) && EntryTrue(t, s.db, k, check);
      if j < k {
        DigestsReplacedOnce(t, s.db, check, t.log[j].userId, j, k);
      } else {
        DigestsReplacedOnce(t, s.db, check, t.log[j].userId, k, j);
      }
    }
  }

  /**
   The password that a change presented verifies against the digest it replaced at the instant
   of its commit, and nobody changed that user's password between its read and its commit.
   */
  lemma PasswordChangeIsAuthorised(s: State, events: seq<Event>, t: State, check: (string, string) -> bool, k: nat)
    requires Reaches(s, events, t, check) && k < |t.log| && t.log[k].PasswordEntry?
    ensures var e := t.log[k];
      && e.userId in s.db.users && e.call in t.calls && t.calls[e.call].seen.Some?
      && check(Last(s.db, t.log[..k], Digest, e.userId), t.calls[e.call].request.password)
      && forall i :: t.calls[e.call].seen.value.position <= i < k ==> !Writes(t.log[i], Digest, e.userId)
  {
    hide Count, Runs, Follows, OutcomesTrue;
    RunHasHistory(s, events, t, check);
    assert EntryTrue(t, s.db, k, check);
    var u, call := t.log[k].userId, t.calls[t.log[k].call];
    assert CallTrue(t, s.db, t.log[k].call, check);
    forall i | call.seen.value.position <= i < k ensures !Writes(t.log[i], Digest, u) {
      if Writes(t.log[i], Digest, u) {
        SeenDigestIsGone(t, s.db, check, u, call.seen.value.position, i, k);
      }
    }
  }

  /** Once replaced, a digest is never the stored one again. */
  lemma SeenDigestIsGone(t: State, first: Database, check: (string, string) -> bool, u: nat, p: nat, i: nat, q: nat)
    requires History(t, first, check) && u in first.users && p <= i < q <= |t.log| && Writes(t.log[i], Digest, u)
    ensures Last(first, t.log[..p], Digest, u) != Last(first, t.log[..q], Digest, u)
  {
    hide Follows, CallsTrue, OutcomesTrue, EntriesTrue;
    assert t.log[..q][i] == t.log[i];
    LastIsAWriteSince(first, t.log[..q], Digest, u, p, i);
    var h :| p <= h < q && Writes(t.log[..q][h], Digest, u) && t.log[..q][h].after == Last(first, t.log[..q], Digest, u);
    LastIsFirstOrAWrite(first, t.log[..p], Digest, u);
    if Last(first, t.log[..p], Digest, u) != Value(first, Digest, u) {
      var g :| 0 <= g < p && Writes(t.log[..p][g], Digest, u) && t.log[..p][g].after == Last(first, t.log[..p], Digest, u);
      assert t.log[g].after != t.log[h].after;
    }
  }

  // ---- Emails ----

  /** Emails form a chain as well, but a chain that may return to an earlier address. */
  lemma EmailsFormAChain(s: State, events: seq<Event>, t: State, check: (string, string) -> bool, u: nat)
    requires Reaches(s, events, t, check) && u in s.db.users
    ensures u in t.db.users && t.db.users[u].email == Last(s.db, t.log, Email, u)
    ensures forall k :: 0 <= k < |t.log| && Writes(t.log[k], Email, u) ==>
      t.log[k].before == Last(s.db, t.log[..k], Email, u) && t.log[k].before != t.log[k].after
  {
    hide Last, Count, Runs;
    RunHasHistory(s, events, t, check);
    assert FollowsAt(t, s.db, u);
    forall k | 0 <= k < |t.log| && Writes(t.log[k], Email, u)
      ensures t.log[k].before == Last(s.db, t.log[..k], Email, u) && t.log[k].before != t.log[k].after
    {
      assert EntryTrue(t, s.db, k, check);
    }
  }

  /** No change of the user's email was logged from position `p` on. */
  predicate EmailUntouched(log: seq<Entry>, u: nat, p: nat) {
    forall i :: p <= i < |log| ==> !Writes(log[i], Email, u)
  }

  /** The last change of the user's email is entry `i`, at or after position `p`, and set it to `email`. */
  predicate ReturnedAt(log: seq<Entry>, u: nat, email: string, p: nat, i: int) {
    p <= i < |log| && Writes(log[i], Email, u) && log[i].after == email && EmailUntouched(log, u, i + 1)
  }

  /** From position `p` on the user's email was changed, and the last change set it to `email`. */
  ghost predicate ReturnedLast(log: seq<Entry>, u: nat, email: string, p: nat) {
    exists i :: ReturnedAt(log, u, email, p, i)
  }

  lemma {:induction false} UntouchedKeepsLast(first: Database, log: seq<Entry>, u: nat, p: nat)
    requires u in first.users && p <= |log| && EmailUntouched(log, u, p)
    ensures Last(first, log, Email, u) == Last(first, log[..p], Email, u)
  {
    if p < |log| {
      UntouchedKeepsLast(first, log[..|log| - 1], u, p);
      assert log[..|log| - 1][..p] == log[..p];
    } else {
      assert log[..p] == log;
    }
  }

  /** The column's value is `email` exactly when nothing was written since `p` and it was `email` then, or the last write made it so. */
  lemma {:induction false} LastByLastWrite(first: Database, log: seq<Entry>, u: nat, email: string, p: nat)
    requires u in first.users && p <= |log|
    ensures Last(first, log, Email, u) == email <==>
      (EmailUntouched(log, u, p) && Last(first, log[..p], Email, u) == email) || ReturnedLast(log, u, email, p)
  {
    if EmailUntouched(log, u, p) {
      UntouchedKeepsLast(first, log, u, p);
    } else {
      var i := LastWrite(log, u, p);
      NoWriteSince(first, log, u, i);
      if Last(first, log, Email, u) == email {
        assert ReturnedAt(log, u, email, p, i);
      }
      forall j | ReturnedAt(log, u, email, p, j) ensures j == i {
        assert Writes(log[i], Email, u) && Writes(log[j], Email, u);
      }
    }
  }

  lemma {:induction false} LastWrite(log: seq<Entry>, u: nat, p: nat) returns (i: nat)
    requires p <= |log| && !EmailUntouched(log, u, p)
    ensures p <= i < |log| && Writes(log[i], Email, u) && EmailUntouched(log, u, i + 1)
  {
    var n := |log| - 1;
    if Writes(log[n], Email, u) {
      i := n;
    } else {
      i := LastWrite(log[..n], u, p);
    }
  }

  lemma {:induction false} NoWriteSince(first: Database, log: seq<Entry>, u: nat, i: nat)
    requires u in first.users && i < |log| && Writes(log[i], Email, u)
    requires forall h :: i < h < |log| ==> !Writes(log[h], Email, u)
    ensures Last(first, log, Email, u) == log[i].after
  {
    if i < |log| - 1 {
      NoWriteSince(first, log[..|log| - 1], u, i);
    }
  }

  /**
   At the instant of its commit an email change applies exactly when nobody else holds the new
   address and, since the call's read, either the user's email was not changed or the last
   change set it back to what was read.
   */
  lemma EmailCommitAppliesIff(s: State, events: seq<Event>, m: State, check: (string, string) -> bool, c: nat, now: int)
    requires Reaches(s, events, m, check) && Enabled(m, CommitEmail(c, now))
    ensures var seen, u := m.calls[c].seen.value, m.calls[c].request.userId;
      EmailCommit(m, m.calls[c], now).1 == Applied <==>
        && (EmailUntouched(m.log, u, seen.position) || ReturnedLast(m.log, u, seen.email, seen.position))
        && !EmailTaken(m.db.users, u, m.calls[c].request.email)
  {
    hide Last, Count, Runs, Fresh, EntriesTrue, OutcomesTrue, EmailTaken, EmailUntouched, ReturnedLast;
    RunHasHistory(s, events, m, check);
    var call := m.calls[c];
    assert CallTrue(m, s.db, c, check);
    assert FollowsAt(m, s.db, call.request.userId);
    LastByLastWrite(s.db, m.log, call.request.userId, call.seen.value.email, call.seen.value.position);
  }

  /** Two changes of one user's email both read before either committed. */
  predicate Concurrent(m: State, j: nat, c: nat)
    requires j < |m.log| && c in m.calls && m.calls[c].seen.Some?
  {
    m.calls[c].seen.value.position <= j && Writes(m.log[j], Email, m.calls[c].request.userId)
  }

  /**
   The promise of a single winner for concurrent email changes: when one of two callers that
   read the same address has committed, at `j`, the other one also succeeds exactly when a
   change after `j` was the last and brought the address back, and its own address is free.
   */
  lemma SecondEmailWinnerIff(s: State, events: seq<Event>, m: State, check: (string, string) -> bool, j: nat, c: nat, now: int)
    requires Reaches(s, events, m, check) && Enabled(m, CommitEmail(c, now)) && j < |m.log|
    requires Concurrent(m, j, c) && m.log[j].before == m.calls[c].seen.value.email
    ensures EmailCommit(m, m.calls[c], now).1 == Applied <==>
      && ReturnedLast(m.log, m.calls[c].request.userId, m.log[j].before, j + 1)
      && !EmailTaken(m.db.users, m.calls[c].request.userId, m.calls[c].request.email)
  {
    EmailCommitAppliesIff(s, events, m, check, c, now);
    hide Last, Count, Runs, Follows, CallsTrue, Fresh, OutcomesTrue, EmailTaken, Enabled;
    RunHasHistory(s, events, m, check);
    assert EntryTrue(m, s.db, j, check);
    var u, seen := m.calls[c].request.userId, m.calls[c].seen.value;
    assert !EmailUntouched(m.log, u, seen.position);
    if ReturnedLast(m.log, u, seen.email, seen.position) {
      var i :| ReturnedAt(m.log, u, seen.email, seen.position, i);
      assert i != j && i >= j;
      assert ReturnedAt(m.log, u, seen.email, j + 1, i);
    }
    if ReturnedLast(m.log, u, seen.email, j + 1) {
      var i :| ReturnedAt(m.log, u, seen.email, j + 1, i);
      assert ReturnedAt(m.log, u, seen.email, seen.position, i);
    }
  }

  lemma {:induction false} RunsCompose(s: State, first: seq<Event>, m: State, second: seq<Event>, t: State, check: (string, string) -> bool)
    requires Runs(s, first, m, check) && Runs(m, second, t, check)
    ensures Runs(s, first + second, t, check)
    decreases |first|
  {
    hide Step, Enabled;
    if first == [] {
      assert first + second == second;
    } else {
      assert (first + second)[1..] == first[1..] + second;
      RunsCompose(Step(s, first[0], check), first[1..], m, second, t, check);
    }
  }

  /**
   An email commit pins the address and not the digest. The stored digest is still the one that
   the call verified against exactly when nobody changed the password since its read.
   */
  lemma EmailAuthorisationIff(s: State, events: seq<Event>, m: State, check: (string, string) -> bool, c: nat, now: int)
    requires Reaches(s, events, m, check) && Enabled(m, CommitEmail(c, now))
    ensures var seen, u := m.calls[c].seen.value, m.calls[c].request.userId;
      && u in m.db.users && check(seen.digest, m.calls[c].request.password)
      && (m.db.users[u].passwordDigest == seen.digest <==>
            forall i :: seen.position <= i < |m.log| ==> !Writes(m.log[i], Digest, u))
  {
    hide Count, Runs, EntriesTrue, OutcomesTrue, Fresh;
    RunHasHistory(s, events, m, check);
    var seen, u := m.calls[c].seen.value, m.calls[c].request.userId;
    assert CallTrue(m, s.db, c, check) && FollowsAt(m, s.db, u);
    assert m.log[..|m.log|] == m.log;
    if i :| seen.position <= i < |m.log| && Writes(m.log[i], Digest, u) {
      SeenDigestIsGone(m, s.db, check, u, seen.position, i, |m.log|);
    } else {
      UnwrittenKeepsDigest(s.db, m.log, u, seen.position);
    }
  }

  lemma {:induction false} UnwrittenKeepsDigest(first: Database, log: seq<Entry>, u: nat, p: nat)
    requires u in first.users && p <= |log| && forall i :: p <= i < |log| ==> !Writes(log[i], Digest, u)
    ensures Last(first, log, Digest, u) == Last(first, log[..p], Digest, u)
  {
    if p < |log| {
      UnwrittenKeepsDigest(first, log[..|log| - 1], u, p);
      assert log[..|log| - 1][..p] == log[..p];
    } else {
      assert log[..p] == log;
    }
  }

  lemma RunsComposeSix(
      s: State, e1: seq<Event>, s1: State, e2: seq<Event>, s2: State, e3: seq<Event>, s3: State,
      e4: seq<Event>, s4: State, e5: seq<Event>, s5: State, e6: seq<Event>, t: State, check: (string, string) -> bool)
    requires Runs(s, e1, s1, check) && Runs(s1, e2, s2, check) && Runs(s2, e3, s3, check)
    requires Runs(s3, e4, s4, check) && Runs(s4, e5, s5, check) && Runs(s5, e6, t, check)
    ensures Runs(s, e1 + e2 + e3 + e4 + e5 + e6, t, check)
  {
    hide Runs;
    RunsCompose(s, e1, s1, e2, s2, check);
    RunsCompose(s, e1 + e2, s2, e3, s3, check);
    RunsCompose(s, e1 + e2 + e3, s3, e4, s4, check);
    RunsCompose(s, e1 + e2 + e3 + e4, s4, e5, s5, check);
    RunsCompose(s, e1 + e2 + e3 + e4 + e5, s5, e6, t, check);
  }

  /** The state in which the call has read, been admitted and verified, and is about to commit. */
  function Ready(s: State, c: nat, r: Request): State
    requires r.userId in s.db.users
  {
    var user := s.db.users[r.userId];
    s.(calls := s.calls[c := Call(r, Some(Seen(user.email, user.passwordDigest, |s.log|)), true, true, None, None)])
  }

  lemma CallGetsReady(s: State, c: nat, r: Request, check: (string, string) -> bool) returns (events: seq<Event>)
    requires r.userId in s.db.users && c !in s.calls && r.EmailRequest?
    requires check(s.db.users[r.userId].passwordDigest, r.password) && r.email != s.db.users[r.userId].email
    ensures Runs(s, events, Ready(s, c, r), check)
  {
    var e1, e2, e3, e4 := Begin(c, r), Find(c), Charge(c, [Limit(true, 0), Limit(true, 0)]), Verify(c);
    var s1 := Step(s, e1, check);
    var s2 := Step(s1, e2, check);
    var s3 := Step(s2, e3, check);
    var s4 := Step(s3, e4, check);
    assert s4 == Ready(s, c, r);
    assert Enabled(s, e1) && Enabled(s1, e2) && Enabled(s2, e3) && Enabled(s3, e4);
    hide Step, Enabled;
    RunsOne(s, e1, check);
    RunsOne(s1, e2, check);
    RunsOne(s2, e3, check);
    RunsOne(s3, e4, check);
    hide Runs;
    RunsCompose(s, [e1], s1, [e2], s2, check);
    RunsCompose(s, [e1] + [e2], s2, [e3], s3, check);
    RunsCompose(s, [e1] + [e2] + [e3], s3, [e4], s4, check);
    events := [e1] + [e2] + [e3] + [e4];
  }

  /** A call that is ready, and whose address the user still holds, commits to an address nobody holds. */
  lemma ReadyCallCommits(s: State, c: nat, check: (string, string) -> bool) returns (t: State)
    requires Enabled(s, CommitEmail(c, 0))
    requires s.calls[c].request.userId in s.db.users
    requires s.db.users[s.calls[c].request.userId].email == s.calls[c].seen.value.email
    requires forall v :: v in s.db.users ==> s.db.users[v].email != s.calls[c].request.email
    ensures Runs(s, [CommitEmail(c, 0)], t, check)
    ensures t.calls == s.calls[c := s.calls[c].(outcome := Some(EmailIs(s.calls[c].request.email)))]
    ensures var u := s.calls[c].request.userId;
      t.db.users == s.db.users[u := s.db.users[u].(email := s.calls[c].request.email, updatedAt := 0)]
  {
    hide LiveSessions, Revoke, RevokedSessions, RenameInstallations, RenameCliSessions;
    t := Step(s, CommitEmail(c, 0), check);
    assert [CommitEmail(c, 0)][1..] == [];
    assert Runs(t, [], t, check);
  }

  /**
   Two callers that read the same address at the same time can both succeed: from any start,
   for any user and any two addresses nobody holds, a third call that moves the user back
   between their commits makes it happen.
   */
  lemma TwoEmailWinners(s: State, check: (string, string) -> bool, u: nat, x: string, y: string, password: string)
    requires Start(s) && u in s.db.users && check(s.db.users[u].passwordDigest, password)
    requires x != y && forall v :: v in s.db.users ==> s.db.users[v].email != x && s.db.users[v].email != y
    requires UniqueEmails(s.db)
    ensures exists events, t ::
      && Reaches(s, events, t, check)
      && 1 in t.calls && 2 in t.calls && t.calls[1].seen == t.calls[2].seen
      && t.calls[1].request.userId == t.calls[2].request.userId == u
      && t.calls[1].outcome == Some(EmailIs(x)) && t.calls[2].outcome == Some(EmailIs(y))
  {
    hide Step, Runs;
    var home := s.db.users[u].email;
    var r1, r2, r3 := EmailRequest(u, 0, x, password), EmailRequest(u, 0, y, password), EmailRequest(u, 0, home, password);
    var e1 := CallGetsReady(s, 1, r1, check);
    var s1 := Ready(s, 1, r1);
    var e2 := CallGetsReady(s1, 2, r2, check);
    var s2 := Ready(s1, 2, r2);
    var s3 := ReadyCallCommits(s2, 1, check);
    var e3 := CallGetsReady(s3, 3, r3, check);
    var s4 := Ready(s3, 3, r3);
    var s5 := ReadyCallCommits(s4, 3, check);
    var t := ReadyCallCommits(s5, 2, check);
    RunsComposeSix(s, e1, s1, e2, s2, [CommitEmail(1, 0)], s3, e3, s4, [CommitEmail(3, 0)], s5, [CommitEmail(2, 0)], t, check);
    assert Reaches(s, e1 + e2 + [CommitEmail(1, 0)] + e3 + [CommitEmail(3, 0)] + [CommitEmail(2, 0)], t, check);
  }

  /** The state in which a password call has read, been admitted, verified and hashed. */
  function ReadyToChange(s: State, c: nat, u: nat, password: string, digest: string): State
    requires u in s.db.users
  {
    var user := s.db.users[u];
    var seen := Seen(user.email, user.passwordDigest, |s.log|);
    s.(calls := s.calls[c := Call(PasswordRequest(u, password), Some(seen), true, true, Some(digest), None)],
       issued := s.issued + {digest})
  }

  lemma PasswordCallGetsReady(s: State, c: nat, u: nat, password: string, digest: string, check: (string, string) -> bool)
    returns (events: seq<Event>)
    requires u in s.db.users && c !in s.calls && digest !in s.issued && check(s.db.users[u].passwordDigest, password)
    ensures Runs(s, events, ReadyToChange(s, c, u, password, digest), check)
  {
    var r := PasswordRequest(u, password);
    var e1, e2, e3, e4, e5 := Begin(c, r), Find(c), Charge(c, [Limit(true, 0), Limit(true, 0)]), Verify(c), Hash(c, digest);
    var s1 := Step(s, e1, check);
    var s2 := Step(s1, e2, check);
    var s3 := Step(s2, e3, check);
    var s4 := Step(s3, e4, check);
    var s5 := Step(s4, e5, check);
    assert s5 == ReadyToChange(s, c, u, password, digest);
    assert Enabled(s, e1) && Enabled(s1, e2) && Enabled(s2, e3) && Enabled(s3, e4) && Enabled(s4, e5);
    hide Step, Enabled;
    RunsOne(s, e1, check);
    RunsOne(s1, e2, check);
    RunsOne(s2, e3, check);
    RunsOne(s3, e4, check);
    RunsOne(s4, e5, check);
    hide Runs;
    RunsCompose(s, [e1], s1, [e2], s2, check);
    RunsCompose(s, [e1] + [e2], s2, [e3], s3, check);
    RunsCompose(s, [e1] + [e2] + [e3], s3, [e4], s4, check);
    RunsCompose(s, [e1] + [e2] + [e3] + [e4], s4, [e5], s5, check);
    events := [e1] + [e2] + [e3] + [e4] + [e5];
  }

  lemma PasswordCommits(s: State, c: nat, check: (string, string) -> bool) returns (t: State)
    requires Enabled(s, CommitPassword(c, 0)) && s.calls[c].request.userId in s.db.users
    requires s.db.users[s.calls[c].request.userId].passwordDigest == s.calls[c].seen.value.digest
    ensures Runs(s, [CommitPassword(c, 0)], t, check)
    ensures t.calls == s.calls[c := s.calls[c].(outcome := Some(PasswordIsChanged))]
    ensures var u := s.calls[c].request.userId;
      t.db.users == s.db.users[u := RotateDigest(s.db.users[u], s.calls[c].hashed.value, 0)]
  {
    hide LiveSessions, Revoke, RevokedSessions, RevokeUserMachineCredentials, RotateDigest;
    t := Step(s, CommitPassword(c, 0), check);
    assert [CommitPassword(c, 0)][1..] == [];
    assert Runs(t, [], t, check);
  }

  /**
   An email change can apply although its password no longer verifies: from any start, when the
   password is changed between its check and its commit.
   */
  lemma EmailChangeOutlivesPassword(
      s: State, check: (string, string) -> bool, u: nat, x: string, password: string, digest: string)
    requires Start(s) && u in s.db.users && check(s.db.users[u].passwordDigest, password)
    requires digest !in s.issued && !check(digest, password)
    requires forall v :: v in s.db.users ==> s.db.users[v].email != x
    ensures exists events, m: State, t: State ::
      && Reaches(s, events, m, check) && Runs(m, [CommitEmail(1, 0)], t, check)
      && 1 in m.calls && m.calls[1].request == EmailRequest(u, 0, x, password)
      && u in m.db.users && !check(m.db.users[u].passwordDigest, password)
      && 1 in t.calls && t.calls[1].outcome == Some(EmailIs(x))
  {
    hide Step, Runs, RotateDigest;
    var r := EmailRequest(u, 0, x, password);
    var e1 := CallGetsReady(s, 1, r, check);
    var s1 := Ready(s, 1, r);
    var e2 := PasswordCallGetsReady(s1, 2, u, password, digest, check);
    var s2 := ReadyToChange(s1, 2, u, password, digest);
    var m := PasswordCommits(s2, 2, check);
    assert m.db.users[u].passwordDigest == digest && m.db.users[u].email == s.db.users[u].email by { Rotated(s.db.users[u], digest); }
    var t := ReadyCallCommits(m, 1, check);
    RunsCompose(s, e1, s1, e2, s2, check);
    RunsCompose(s, e1 + e2, s2, [CommitPassword(2, 0)], m, check);
    assert Reaches(s, e1 + e2 + [CommitPassword(2, 0)], m, check);
  }

  lemma Rotated(user: User, digest: string)
    ensures RotateDigest(user, digest, 0).passwordDigest == digest && RotateDigest(user, digest, 0).email == user.email
  {
  }

  // ---- Copied emails that belong to nobody ----

  lemma StepExtendsLog(s: State, e: Event, check: (string, string) -> bool)
    requires Enabled(s, e)
    ensures s.log <= Step(s, e, check).log && |Step(s, e, check).log| <= |s.log| + 1
  {
    hide EmailChange, PasswordChange, SessionRevocation, OthersRevocation, SignedOut, LongestWait;
  }

  lemma {:induction false} RunExtendsLog(s: State, events: seq<Event>, t: State, check: (string, string) -> bool)
    requires Runs(s, events, t, check)
    ensures s.log <= t.log
    decreases |events|
  {
    hide Step, Enabled;
    if events != [] {
      StepExtendsLog(s, events[0], check);
      RunExtendsLog(Step(s, events[0], check), events[1..], t, check);
    }
  }

  /** Some change logged from position `p` on moved a user to `email`. */
  predicate TakenSince(log: seq<Entry>, p: nat, email: string) {
    exists k :: p <= k < |log| && log[k].EmailEntry? && log[k].after == email
  }

  lemma StepCapturesDangling(s: State, e: Event, check: (string, string) -> bool, row: CliRow)
    requires Enabled(s, e) && Dangling(s.db, row)
    ensures var t := Step(s, e, check);
      && HasRow(t.db.credentials, row)
      && if TakenSince(t.log, |s.log|, CopiedEmail(s.db.credentials, row)) then !Dangling(t.db, row)
         else Dangling(t.db, row) && CopiedEmail(t.db.credentials, row) == CopiedEmail(s.db.credentials, row)
  {
    hide SignedOut, LongestWait, Revoke, LiveSessions, RevokeUserMachineCredentials;
    match e
    case CommitEmail(c, now) => EmailCommitCaptures(s, c, now, row);
    case CommitPassword(c, now) =>
      var call := s.calls[c];
      if PasswordCommit(s, call, now).1 == Applied {
        RevocationKeepsRows(s.db.credentials, call.request.userId, s.db.users[call.request.userId].email, now);
      }
    case _ =>
  }

  lemma EmailCommitCaptures(s: State, c: nat, now: int, row: CliRow)
    requires Enabled(s, CommitEmail(c, now)) && Dangling(s.db, row)
    ensures var t := AfterEmailCommit(s, c, now);
      && HasRow(t.db.credentials, row)
      && if TakenSince(t.log, |s.log|, CopiedEmail(s.db.credentials, row)) then !Dangling(t.db, row)
         else Dangling(t.db, row) && CopiedEmail(t.db.credentials, row) == CopiedEmail(s.db.credentials, row)
  {
    hide SignedOut, Revoke, LiveSessions, EmailTaken;
    var t := AfterEmailCommit(s, c, now);
    var u := s.calls[c].request.userId;
    if t.log != s.log {
      assert !ResolvesTo(s.db, row, u);
      assert t.log[|s.log|].EmailEntry? && t.log[|s.log|].after == s.calls[c].request.email;
      if s.calls[c].request.email == CopiedEmail(s.db.credentials, row) {
        assert ResolvesTo(t.db, row, u);
      }
    }
  }

  /** A row whose address belongs to nobody stays that way exactly until some user moves to the address. */
  lemma {:induction false} DanglingUntilTaken(s: State, events: seq<Event>, t: State, check: (string, string) -> bool, row: CliRow)
    requires Runs(s, events, t, check) && UniqueEmails(s.db) && Dangling(s.db, row)
    ensures Dangling(t.db, row) <==> !TakenSince(t.log, |s.log|, CopiedEmail(s.db.credentials, row))
    decreases |events|
  {
    hide Step, Enabled, UniqueEmails, HasRow, CopiedEmail;
    if events != [] {
      var m := Step(s, events[0], check);
      var copy := CopiedEmail(s.db.credentials, row);
      StepCapturesDangling(s, events[0], check, row);
      StepExtendsLog(s, events[0], check);
      RunExtendsLog(m, events[1..], t, check);
      StepKeepsEmails(s, events[0], check, row);
      if TakenSince(m.log, |s.log|, copy) {
        var k :| |s.log| <= k < |m.log| && m.log[k].EmailEntry? && m.log[k].after == copy;
        assert t.log[k] == m.log[k];
        RunKeepsEmails(m, events[1..], t, check, row);
      } else {
        DanglingUntilTaken(m, events[1..], t, check, row);
        TakenLater(m.log, t.log, |s.log|, copy);
      }
    }
  }

  lemma TakenLater(earlier: seq<Entry>, log: seq<Entry>, p: nat, email: string)
    requires earlier <= log && p <= |earlier| && !TakenSince(earlier, p, email)
    ensures TakenSince(log, p, email) <==> TakenSince(log, |earlier|, email)
  {
    forall k | p <= k < |earlier| ensures log[k] == earlier[k] {
    }
  }

  // ---- A password change reaches everything ----

  /** Revocations are final, and no CLI session moves to another installation. */
  ghost predicate KeepsCredentials(before: Credentials, after: Credentials) {
    && KeepsRevocations(before, after)
    && after.cliSessions.Keys == before.cliSessions.Keys
    && forall x :: x in before.cliSessions ==> after.cliSessions[x].installationId == before.cliSessions[x].installationId
  }

  lemma StepKeepsCredentials(s: State, e: Event, check: (string, string) -> bool)
    requires Enabled(s, e)
    ensures KeepsCredentials(s.db.credentials, Step(s, e, check).db.credentials)
  {
    hide SignedOut, LongestWait, Revoke, LiveSessions, RevokeUserMachineCredentials;
    if e.CommitPassword? && PasswordCommit(s, s.calls[e.call], e.now).1 == Applied {
      var u := s.calls[e.call].request.userId;
      RevocationIsIdempotent(s.db.credentials, u, s.db.users[u].email, e.now, e.now);
      RevocationKeepsRows(s.db.credentials, u, s.db.users[u].email, e.now);
    }
  }

  lemma KeepsTransitively(a: Credentials, b: Credentials, c: Credentials)
    requires KeepsCredentials(a, b) && KeepsCredentials(b, c)
    ensures KeepsCredentials(a, c)
  {
  }

  lemma {:induction false} RunKeepsCredentials(s: State, events: seq<Event>, t: State, check: (string, string) -> bool)
    requires Runs(s, events, t, check)
    ensures KeepsCredentials(s.db.credentials, t.db.credentials)
    decreases |events|
  {
    hide Step, Enabled;
    if events != [] {
      hide KeepsCredentials;
      var m := Step(s, events[0], check);
      StepKeepsCredentials(s, events[0], check);
      RunKeepsCredentials(m, events[1..], t, check);
      KeepsTransitively(s.db.credentials, m.db.credentials, t.db.credentials);
    }
  }

  /**
   An installation that ever resolved to a user is dead after a password change of that user,
   whatever email changes of whichever users ran before the change, and it stays dead whatever
   of these operations run after it.
   */
  lemma PasswordChangeReachesEarlierInstallations(
      s: State, before: seq<Event>, m: State, c: nat, now: int, after: seq<Event>, t: State,
      check: (string, string) -> bool, i: nat)
    requires UniqueEmails(s.db) && Runs(s, before, m, check)
    requires Enabled(m, CommitPassword(c, now)) && PasswordCommit(m, m.calls[c], now).1 == Applied
    requires Runs(Step(m, CommitPassword(c, now), check), after, t, check)
    requires ResolvesTo(s.db, InstallationRow(i), m.calls[c].request.userId)
    ensures InstallationDead(t.db.credentials, i)
  {
    hide Runs, UniqueEmails, SignedOut, Revoke, LiveSessions, RevokeUserMachineCredentials;
    var u := m.calls[c].request.userId;
    var n := Step(m, CommitPassword(c, now), check);
    RunKeepsEmails(s, before, m, check, InstallationRow(i));
    assert ResolvesTo(m.db, InstallationRow(i), u);
    PasswordChangeKillsInstallations(m.db, u, m.calls[c].seen.value.digest, m.calls[c].hashed.value, now, i);
    StepKeepsCredentials(m, CommitPassword(c, now), check);
    RunKeepsCredentials(n, after, t, check);
    DeadStaysDead(n.db.credentials, t.db.credentials, i);
  }

  lemma DeadStaysDead(before: Credentials, after: Credentials, i: nat)
    requires KeepsCredentials(before, after) && InstallationDead(before, i)
    ensures InstallationDead(after, i)
  {
  }

  /** The human sessions that a user has at a password change never authenticate again. */
  lemma PasswordChangeEndsSessions(
      m: State, c: nat, now: int, after: seq<Event>, t: State, check: (string, string) -> bool, x: nat)
    requires Enabled(m, CommitPassword(c, now)) && PasswordCommit(m, m.calls[c], now).1 == Applied
    requires Runs(Step(m, CommitPassword(c, now), check), after, t, check)
    requires x in m.db.sessions && m.db.sessions[x].userId == m.calls[c].request.userId
    ensures x in t.db.sessions && t.db.sessions[x].revokedAt.Some?
  {
    hide Runs, SignedOut, Revoke, RevokeUserMachineCredentials;
    var call := m.calls[c];
    var n := Step(m, CommitPassword(c, now), check);
    LiveSessionsAfterChange(m.db, call.request.userId, 0, call.seen.value.digest, call.hashed.value, now);
    StepKeepsSessions(m, CommitPassword(c, now), check);
    RunKeepsSessions(n, after, t, check);
    assert n.db.sessions[x].revokedAt.None? ==> x in LiveSessions(n.db.sessions, call.request.userId);
  }

  // ---- Tokens over a run ----

  /** Who owns, created and carries the credentials is the same; only emails and revocations may differ. */
  ghost predicate SameShape(a: Credentials, b: Credentials) {
    && a.apiTokens.Keys == b.apiTokens.Keys && a.cliInstallations.Keys == b.cliInstallations.Keys && a.cliSessions.Keys == b.cliSessions.Keys
    && (forall t :: t in a.apiTokens ==> a.apiTokens[t].owner == b.apiTokens[t].owner && a.apiTokens[t].createdBy == b.apiTokens[t].createdBy)
    && (forall i :: i in a.cliInstallations ==> a.cliInstallations[i].userId == b.cliInstallations[i].userId)
    && (forall x :: x in a.cliSessions ==> a.cliSessions[x].installationId == b.cliSessions[x].installationId)
  }

  lemma RevocationKeepsShape(c: Credentials, userId: nat, userEmail: string, now: int)
    ensures SameShape(c, RevokeUserMachineCredentials(c, userId, userEmail, now))
  {
    hide Tree, Roots, Installations;
  }

  lemma StepKeepsShape(s: State, e: Event, check: (string, string) -> bool)
    requires Enabled(s, e)
    ensures SameShape(s.db.credentials, Step(s, e, check).db.credentials)
  {
    hide SignedOut, LongestWait, Revoke, LiveSessions, RevokeUserMachineCredentials;
    if e.CommitPassword? && PasswordCommit(s, s.calls[e.call], e.now).1 == Applied {
      var u := s.calls[e.call].request.userId;
      RevocationKeepsShape(s.db.credentials, u, s.db.users[u].email, e.now);
    }
  }

  lemma ShapeTransitive(a: Credentials, b: Credentials, c: Credentials)
    requires SameShape(a, b) && SameShape(b, c)
    ensures SameShape(a, c)
  {
  }

  lemma {:induction false} RunKeepsShape(s: State, events: seq<Event>, t: State, check: (string, string) -> bool)
    requires Runs(s, events, t, check)
    ensures SameShape(s.db.credentials, t.db.credentials) && t.db.users.Keys == s.db.users.Keys
    decreases |events|
  {
    hide Step, Enabled;
    if events != [] {
      hide SameShape;
      var m := Step(s, events[0], check);
      StepKeepsShape(s, events[0], check);
      StepKeepsUsers(s, events[0], check);
      RunKeepsShape(m, events[1..], t, check);
      ShapeTransitive(s.db.credentials, m.db.credentials, t.db.credentials);
    }
  }

  /** An installation of the user stays the user's, under whatever email. */
  lemma LinkPersists(s: State, events: seq<Event>, m: State, check: (string, string) -> bool, i: nat, u: nat)
    requires Runs(s, events, m, check) && UniqueEmails(s.db) && u in s.db.users
    requires LinkedTo(s.db.credentials, i, u, s.db.users[u].email)
    ensures u in m.db.users && LinkedTo(m.db.credentials, i, u, m.db.users[u].email)
  {
    hide Runs, UniqueEmails;
    RunKeepsShape(s, events, m, check);
    RunKeepsEmails(s, events, m, check, InstallationRow(i));
    if s.db.credentials.cliInstallations[i].userEmail == s.db.users[u].email {
      assert ResolvesTo(s.db, InstallationRow(i), u);
      assert ResolvesTo(m.db, InstallationRow(i), u);
    }
  }

  lemma IssuePersists(s: State, events: seq<Event>, m: State, check: (string, string) -> bool, t: nat, u: nat)
    requires Runs(s, events, m, check) && UniqueEmails(s.db) && u in s.db.users
    requires IssuedFor(s.db.credentials, t, u, s.db.users[u].email)
    ensures u in m.db.users && IssuedFor(m.db.credentials, t, u, m.db.users[u].email)
  {
    hide Runs, UniqueEmails, LinkedTo;
    RunKeepsShape(s, events, m, check);
    var creator := s.db.credentials.apiTokens[t].createdBy;
    if creator.ByCliSession? && creator.sessionId in s.db.credentials.cliSessions {
      var i := s.db.credentials.cliSessions[creator.sessionId].installationId;
      if LinkedTo(s.db.credentials, i, u, s.db.users[u].email) {
        LinkPersists(s, events, m, check, i, u);
      }
    }
  }

  /** A token that belongs to a user goes on belonging to that user, over any email changes. */
  lemma TokenGoesOnBelonging(s: State, events: seq<Event>, m: State, check: (string, string) -> bool, t: nat, u: nat)
    requires Runs(s, events, m, check) && UniqueEmails(s.db) && TokenIsUsers(s.db, t, u)
    ensures TokenIsUsers(m.db, t, u)
  {
    hide Runs, UniqueEmails, IssuedFor;
    var chain :| ChainTo(s.db.credentials, t, u, s.db.users[u].email, chain);
    IssuePersists(s, events, m, check, chain[0], u);
    RunKeepsShape(s, events, m, check);
    assert ChainTo(m.db.credentials, t, u, m.db.users[u].email, chain);
  }

  /**
   Every token that ever belonged to a user, issued directly or through any chain of creations, is
   revoked by that user's password change, whatever email changes came before, and stays revoked.
   */
  lemma PasswordChangeEndsTokens(
      s: State, before: seq<Event>, m: State, c: nat, now: int, after: seq<Event>, end: State,
      check: (string, string) -> bool, t: nat)
    requires UniqueEmails(s.db) && Runs(s, before, m, check)
    requires Enabled(m, CommitPassword(c, now)) && PasswordCommit(m, m.calls[c], now).1 == Applied
    requires Runs(Step(m, CommitPassword(c, now), check), after, end, check)
    requires t in s.db.credentials.apiTokens && TokenIsUsers(s.db, t, m.calls[c].request.userId)
    ensures t in end.db.credentials.apiTokens && end.db.credentials.apiTokens[t].revokedAt.Some?
  {
    hide Runs, UniqueEmails, SignedOut, Revoke, LiveSessions, RevokeUserMachineCredentials, TokenIsUsers;
    var u := m.calls[c].request.userId;
    var n := Step(m, CommitPassword(c, now), check);
    TokenGoesOnBelonging(s, before, m, check, t, u);
    RunKeepsShape(s, before, m, check);
    assert t in m.db.credentials.apiTokens;
    PasswordChangeRevokesTokens(m.db, u, m.calls[c].seen.value.digest, m.calls[c].hashed.value, now, t);
    RunKeepsCredentials(n, after, end, check);
  }

  // ---- What a call is told ----

  /** Each step's answer, refusal by refusal. */
  lemma StepsAnswer(s: State, c: nat, now: int, check: (string, string) -> bool)
    ensures Enabled(s, Find(c)) && s.calls[c].request.userId !in s.db.users ==>
      Step(s, Find(c), check).calls[c].outcome == Some(Failed(AccountNotFound))
    ensures Enabled(s, Verify(c)) && !check(s.calls[c].seen.value.digest, s.calls[c].request.password) ==>
      Step(s, Verify(c), check).calls[c].outcome == Some(Failed(InvalidPassword))
    ensures Enabled(s, Verify(c)) && check(s.calls[c].seen.value.digest, s.calls[c].request.password) ==>
      Step(s, Verify(c), check).calls[c].outcome
      == if s.calls[c].request.EmailRequest? && s.calls[c].request.email == s.calls[c].seen.value.email
         then Some(EmailIs(s.calls[c].request.email)) else None
    ensures Enabled(s, CommitPassword(c, now)) ==>
      var u := s.calls[c].request.userId;
      Step(s, CommitPassword(c, now), check).calls[c].outcome
      == if u in s.db.users && s.db.users[u].passwordDigest == s.calls[c].seen.value.digest
         then Some(PasswordIsChanged) else Some(Failed(AccountChanged))
    ensures Enabled(s, CommitEmail(c, now)) ==>
      var u, email := s.calls[c].request.userId, s.calls[c].request.email;
      Step(s, CommitEmail(c, now), check).calls[c].outcome
      == if u !in s.db.users || s.db.users[u].email != s.calls[c].seen.value.email then Some(Failed(AccountChanged))
         else if exists v :: v in s.db.users && v != u && s.db.users[v].email == email then Some(Failed(DatabaseFailure))
         else Some(EmailIs(email))
  {
    hide SignedOut, LongestWait, Revoke, LiveSessions, RevokeUserMachineCredentials, RenameInstallations, RenameCliSessions;
  }
}
