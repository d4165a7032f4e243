/**
 Machine credentials of one user: API tokens, CLI installations and CLI sessions.

 A token records what created it: a person, a CLI session, or another token. Revoking a
 user's credentials takes the tokens issued to or by the user and by the user's CLI sessions,
 and then every token created through them, however long the chain. The database finds those
 with a recursive query that works round by round on the newly found rows.
 */
module CredentialRevocation {
  import opened Wrappers

  datatype Creator = ByHuman(userId: nat) | ByCliSession(sessionId: nat) | ByApiToken(tokenId: nat)

  datatype ApiToken = ApiToken(owner: Option<nat>, createdBy: Creator, revokedAt: Option<int>)

  datatype CliInstallation = CliInstallation(userEmail: string, userId: Option<nat>, revokedAt: Option<int>)

  datatype CliSession = CliSession(installationId: nat, userEmail: string, revokedAt: Option<int>)

  datatype Credentials = Credentials(
    apiTokens: map<nat, ApiToken>,
    cliInstallations: map<nat, CliInstallation>,
    cliSessions: map<nat, CliSession>)

  /** The installation belongs to the user by id or by its copied email. */
  predicate OwnsInstallation(i: CliInstallation, userId: nat, userEmail: string) {
    i.userId == Some(userId) || i.userEmail == userEmail
  }

  function Installations(c: Credentials, userId: nat, userEmail: string): set<nat> {
    set id | id in c.cliInstallations && OwnsInstallation(c.cliInstallations[id], userId, userEmail)
  }

  predicate IsRoot(c: Credentials, t: ApiToken, userId: nat, userEmail: string) {
    || t.owner == Some(userId)
    || t.createdBy == ByHuman(userId)
    || (t.createdBy.ByCliSession? && t.createdBy.sessionId in c.cliSessions
        && c.cliSessions[t.createdBy.sessionId].installationId in Installations(c, userId, userEmail))
  }

  function Roots(c: Credentials, userId: nat, userEmail: string): (r: set<nat>)
    ensures r <= c.apiTokens.Keys
  {
    set id | id in c.apiTokens && IsRoot(c, c.apiTokens[id], userId, userEmail)
  }

  function Children(tokens: map<nat, ApiToken>, parents: set<nat>): set<nat> {
    set id | id in tokens && tokens[id].createdBy.ByApiToken? && tokens[id].createdBy.tokenId in parents
  }

  ghost predicate Closed(tokens: map<nat, ApiToken>, s: set<nat>) {
    Children(tokens, s) <= s
  }

  /** `t` is reached from `roots` by creations: each token of the chain created the next. */
  ghost predicate Descends(tokens: map<nat, ApiToken>, roots: set<nat>, t: nat, chain: seq<nat>) {
    && chain != [] && chain[0] in roots && chain[|chain| - 1] == t
    && forall i :: 0 < i < |chain| ==>
         chain[i] in tokens && tokens[chain[i]].createdBy == ByApiToken(chain[i - 1])
  }

  ghost predicate Reached(tokens: map<nat, ApiToken>, roots: set<nat>, t: nat) {
    exists chain :: Descends(tokens, roots, t, chain)
  }

  /** Everything found from `seen` on, taking all children at every round. */
  function Tree(tokens: map<nat, ApiToken>, seen: set<nat>): (tree: set<nat>)
    requires seen <= tokens.Keys
    ensures seen <= tree <= tokens.Keys
    ensures Closed(tokens, tree)
    decreases tokens.Keys - seen
  {
    if Children(tokens, seen) <= seen then seen else Tree(tokens, seen + Children(tokens, seen))
  }

  /** The tree is the least closed set around its roots. */
  lemma {:induction false} TreeIsLeast(tokens: map<nat, ApiToken>, seen: set<nat>, s: set<nat>)
    requires seen <= tokens.Keys && seen <= s && Closed(tokens, s)
    ensures Tree(tokens, seen) <= s
    decreases tokens.Keys - seen
  {
    if Children(tokens, seen) <= seen {
    } else {
      assert Children(tokens, seen) <= Children(tokens, s);
      TreeIsLeast(tokens, seen + Children(tokens, seen), s);
    }
  }

  /** The recursive query: only the rows found in the last round are joined again. */
  method TokenTree(tokens: map<nat, ApiToken>, roots: set<nat>) returns (tree: set<nat>)
    requires roots <= tokens.Keys
    ensures tree == Tree(tokens, roots)
  {
    tree := roots;
    var working := roots;
    while working != {}
      invariant roots <= tree <= Tree(tokens, roots) && working <= tree
      invariant Children(tokens, tree - working) <= tree
      decreases tokens.Keys - tree, working
    {
      var found := Children(tokens, working) - tree;
      assert Children(tokens, working) <= Children(tokens, Tree(tokens, roots));
      assert Children(tokens, tree) == Children(tokens, tree - working) + Children(tokens, working);
      working := found;
      tree := tree + found;
      assert tree - working == tree - found;
    }
    assert tree - {} == tree;
    TreeIsLeast(tokens, roots, tree);
  }

  /** A token is in the tree exactly when a chain of creations leads to it from a root. */
  lemma TreeIsDescendants(tokens: map<nat, ApiToken>, roots: set<nat>, t: nat)
    requires roots <= tokens.Keys
    ensures t in Tree(tokens, roots) <==> Reached(tokens, roots, t)
  {
    if t in Tree(tokens, roots) {
      forall u | u in roots ensures Reached(tokens, roots, u) {
        assert Descends(tokens, roots, u, [u]);
      }
      TreeHasChains(tokens, roots, roots, t);
    }
    if Reached(tokens, roots, t) {
      var chain :| Descends(tokens, roots, t, chain);
      ChainStaysInTree(tokens, roots, Tree(tokens, roots), chain, |chain| - 1);
    }
  }

  lemma {:induction false} ChainStaysInTree(tokens: map<nat, ApiToken>, roots: set<nat>, s: set<nat>, chain: seq<nat>, i: nat)
    requires roots <= s && Closed(tokens, s) && i < |chain|
    requires Descends(tokens, roots, chain[|chain| - 1], chain)
    ensures chain[i] in s
  {
    if i > 0 {
      ChainStaysInTree(tokens, roots, s, chain, i - 1);
      assert chain[i] in Children(tokens, s);
    }
  }

  lemma ChildIsReached(tokens: map<nat, ApiToken>, roots: set<nat>, t: nat)
    requires t in tokens && tokens[t].createdBy.ByApiToken? && Reached(tokens, roots, tokens[t].createdBy.tokenId)
    ensures Reached(tokens, roots, t)
  {
    var chain :| Descends(tokens, roots, tokens[t].createdBy.tokenId, chain);
    assert Descends(tokens, roots, t, chain + [t]);
  }

  lemma {:induction false} TreeHasChains(tokens: map<nat, ApiToken>, roots: set<nat>, seen: set<nat>, t: nat)
    requires roots <= seen <= tokens.Keys && t in Tree(tokens, seen)
    requires forall u :: u in seen ==> Reached(tokens, roots, u)
    ensures Reached(tokens, roots, t)
    decreases tokens.Keys - seen
  {
    hide Reached;
    if Children(tokens, seen) <= seen {
    } else {
      forall u | u in Children(tokens, seen) ensures Reached(tokens, roots, u) {
        ChildIsReached(tokens, roots, u);
      }
      TreeHasChains(tokens, roots, seen + Children(tokens, seen), t);
    }
  }

  // ---- Revocation ----

  function RevokeToken(t: ApiToken, now: int): ApiToken {
    if t.revokedAt.None? then t.(revokedAt := Some(now)) else t
  }

  function RevokeInstallation(i: CliInstallation, now: int): CliInstallation {
    if i.revokedAt.None? then i.(revokedAt := Some(now)) else i
  }

  function RevokeCliSession(s: CliSession, now: int): CliSession {
    if s.revokedAt.None? then s.(revokedAt := Some(now)) else s
  }

  function RevokeUserMachineCredentials(c: Credentials, userId: nat, userEmail: string, now: int): Credentials {
    var tree := Tree(c.apiTokens, Roots(c, userId, userEmail));
    var installations := Installations(c, userId, userEmail);
    Credentials(
      map id | id in c.apiTokens :: if id in tree then RevokeToken(c.apiTokens[id], now) else c.apiTokens[id],
      map id | id in c.cliInstallations ::
        if id in installations then RevokeInstallation(c.cliInstallations[id], now) else c.cliInstallations[id],
      map id | id in c.cliSessions ::
        if c.cliSessions[id].installationId in installations then RevokeCliSession(c.cliSessions[id], now)
        else c.cliSessions[id])
  }

  // ---- Whose credentials they are ----

  /** The installation is the user's: linked by id, or under a copy of the email. */
  ghost predicate LinkedTo(c: Credentials, i: nat, userId: nat, userEmail: string) {
    i in c.cliInstallations && (c.cliInstallations[i].userId == Some(userId) || c.cliInstallations[i].userEmail == userEmail)
  }

  /** The token was issued to the user, by the user, or by a CLI session on an installation of the user. */
  ghost predicate IssuedFor(c: Credentials, t: nat, userId: nat, userEmail: string) {
    t in c.apiTokens &&
    var token := c.apiTokens[t];
    || token.owner == Some(userId)
    || token.createdBy == ByHuman(userId)
    || (token.createdBy.ByCliSession? && token.createdBy.sessionId in c.cliSessions
        && LinkedTo(c, c.cliSessions[token.createdBy.sessionId].installationId, userId, userEmail))
  }

  /** Each token of the chain created the next one, the first was issued for the user, and the last is `t`. */
  ghost predicate ChainTo(c: Credentials, t: nat, userId: nat, userEmail: string, chain: seq<nat>) {
    && chain != [] && IssuedFor(c, chain[0], userId, userEmail) && chain[|chain| - 1] == t
    && forall i :: 0 < i < |chain| ==>
         chain[i] in c.apiTokens && c.apiTokens[chain[i]].createdBy == ByApiToken(chain[i - 1])
  }

  ghost predicate TokenBelongs(c: Credentials, t: nat, userId: nat, userEmail: string) {
    exists chain :: ChainTo(c, t, userId, userEmail, chain)
  }

  lemma RootsAreIssued(c: Credentials, t: nat, userId: nat, userEmail: string)
    ensures t in Roots(c, userId, userEmail) <==> IssuedFor(c, t, userId, userEmail)
  {
  }

  lemma BelongsIsReached(c: Credentials, t: nat, userId: nat, userEmail: string)
    ensures TokenBelongs(c, t, userId, userEmail) <==> Reached(c.apiTokens, Roots(c, userId, userEmail), t)
  {
    hide Roots, IssuedFor;
    forall chain: seq<nat> | chain != []
      ensures ChainTo(c, t, userId, userEmail, chain) <==> Descends(c.apiTokens, Roots(c, userId, userEmail), t, chain)
    {
      RootsAreIssued(c, chain[0], userId, userEmail);
    }
  }

  /** A live token that belongs to the user is revoked now, and every other token is as it was. */
  lemma TokenRevocationIsExact(c: Credentials, userId: nat, userEmail: string, now: int, t: nat)
    requires t in c.apiTokens
    ensures var after := RevokeUserMachineCredentials(c, userId, userEmail, now).apiTokens;
      && t in after
      && after[t] == if TokenBelongs(c, t, userId, userEmail) && c.apiTokens[t].revokedAt.None?
                     then ApiToken(c.apiTokens[t].owner, c.apiTokens[t].createdBy, Some(now)) else c.apiTokens[t]
  {
    hide Tree, Roots, Installations, Reached, TokenBelongs;
    TreeIsDescendants(c.apiTokens, Roots(c, userId, userEmail), t);
    BelongsIsReached(c, t, userId, userEmail);
  }

  /** A live CLI session on an installation of the user is revoked now, and every other one is as it was. */
  lemma CliSessionRevocationIsExact(c: Credentials, userId: nat, userEmail: string, now: int, s: nat)
    requires s in c.cliSessions
    ensures var after := RevokeUserMachineCredentials(c, userId, userEmail, now).cliSessions;
      && s in after
      && var session := c.cliSessions[s];
      after[s] == if LinkedTo(c, session.installationId, userId, userEmail) && session.revokedAt.None?
                  then CliSession(session.installationId, session.userEmail, Some(now)) else session
  {
    hide Tree, Roots;
  }

  /** A live installation of the user is revoked now, and every other one is as it was. */
  lemma InstallationRevocationIsExact(c: Credentials, userId: nat, userEmail: string, now: int, i: nat)
    requires i in c.cliInstallations
    ensures var after := RevokeUserMachineCredentials(c, userId, userEmail, now).cliInstallations;
      && i in after
      && var installation := c.cliInstallations[i];
      after[i] == if LinkedTo(c, i, userId, userEmail) && installation.revokedAt.None?
                  then CliInstallation(installation.userEmail, installation.userId, Some(now)) else installation
  {
    hide Tree, Roots;
  }

  /** A time of revocation once written is never changed. */
  predicate KeepsRevocations(before: Credentials, after: Credentials) {
    && (forall t :: t in before.apiTokens && before.apiTokens[t].revokedAt.Some? ==>
          t in after.apiTokens && after.apiTokens[t].revokedAt == before.apiTokens[t].revokedAt)
    && (forall s :: s in before.cliSessions && before.cliSessions[s].revokedAt.Some? ==>
          s in after.cliSessions && after.cliSessions[s].revokedAt == before.cliSessions[s].revokedAt)
    && (forall i :: i in before.cliInstallations && before.cliInstallations[i].revokedAt.Some? ==>
          i in after.cliInstallations && after.cliInstallations[i].revokedAt == before.cliInstallations[i].revokedAt)
  }

  lemma RevocationKeepsTimes(c: Credentials, userId: nat, userEmail: string, now: int)
    ensures KeepsRevocations(c, RevokeUserMachineCredentials(c, userId, userEmail, now))
  {
    hide Tree, Roots, Installations;
  }

  /** Who owns and who created what is left alone, so the same user has the same credentials again. */
  lemma RevocationKeepsOwners(c: Credentials, userId: nat, userEmail: string, now: int)
    ensures var once := RevokeUserMachineCredentials(c, userId, userEmail, now);
      && Installations(once, userId, userEmail) == Installations(c, userId, userEmail)
      && Roots(once, userId, userEmail) == Roots(c, userId, userEmail)
      && Tree(once.apiTokens, Roots(c, userId, userEmail)) == Tree(c.apiTokens, Roots(c, userId, userEmail))
  {
    hide Tree;
    var once := RevokeUserMachineCredentials(c, userId, userEmail, now);
    assert Installations(once, userId, userEmail) == Installations(c, userId, userEmail);
    hide Installations;
    assert Roots(once, userId, userEmail) == Roots(c, userId, userEmail);
    hide Roots;
    SameCreatorsSameTree(c.apiTokens, once.apiTokens, Roots(c, userId, userEmail));
  }

  /**
   No revocation moves the time of an earlier one, and revoking the same user once more
   changes nothing at all.
   */
  lemma RevocationIsIdempotent(c: Credentials, userId: nat, userEmail: string, now: int, later: int)
    ensures var once := RevokeUserMachineCredentials(c, userId, userEmail, now);
      && KeepsRevocations(c, once)
      && RevokeUserMachineCredentials(once, userId, userEmail, later) == once
  {
    hide Tree, Roots, Installations, KeepsRevocations;
    var once := RevokeUserMachineCredentials(c, userId, userEmail, now);
    RevocationKeepsTimes(c, userId, userEmail, now);
    RevocationKeepsOwners(c, userId, userEmail, now);
    var twice := RevokeUserMachineCredentials(once, userId, userEmail, later);
    assert twice.apiTokens == once.apiTokens;
    assert twice.cliInstallations == once.cliInstallations;
    assert twice.cliSessions == once.cliSessions;
  }

  /** The tree depends on who created the tokens and on nothing else. */
  lemma {:induction false} SameCreatorsSameTree(tokens: map<nat, ApiToken>, others: map<nat, ApiToken>, seen: set<nat>)
    requires tokens.Keys == others.Keys && seen <= tokens.Keys
    requires forall t :: t in tokens ==> tokens[t].createdBy == others[t].createdBy
    ensures Tree(tokens, seen) == Tree(others, seen)
    decreases tokens.Keys - seen
  {
    assert Children(tokens, seen) == Children(others, seen);
    if Children(tokens, seen) <= seen {
    } else {
      SameCreatorsSameTree(tokens, others, seen + Children(tokens, seen));
    }
  }
}
