# Verified models of Pulse's protocols and algorithms

Pulse is a self-hosted monitoring and status page service. This project models the parts of it
whose correctness spans several steps, several users or several requests, and proves what they
promise. Nothing was executed: every statement is checked by the Dafny verifier.

    dafny verify dfyconfig.toml

## What is modelled

**Accounts under concurrency.** `AccountDatabase` holds the tables (users with unique emails,
human sessions, API tokens, CLI installations, CLI sessions) and the four writers as atomic
transactions, both as functions and as the methods of a store that updates its fields.
`CredentialRevocation` is the revocation of a user's machine credentials with its recursive
token query. `AccountService` runs each operation alone, with every refusal in the source's
order. `AccountRuns` lets any number of calls interleave: each reads, is admitted, verifies,
hashes and commits in separate steps, while sessions are revoked and users sign in.
`AccountHistory` shows that the database always follows the log of committed transactions, and
`AccountGuarantees` draws the conclusions for every run.

**The status page form.** `StatusPageDocument` has the field comparison, the payload and the
three-way merge; `StatusPageProtocol` has one server with a version, any number of forms with
`(saved, draft, etag)`, other writers, late and lost responses, 412 recovery, discard and mount
revalidation.

**Bounded admission control.** `LocalAdmission` has the insertion-ordered map with expiry and
eviction, and an unbounded per-key limiter to compare it with.

**Reports.** `ReportStatus` has the order of updates, the sort and the two flip verdicts;
`ReportEditor` has the partly loaded timeline and the edit form that must warn before a flip. Two
loaded updates are needed for the verdict and are always there: a first page holds up to fifty
(lib/api/status-reports.ts:154), so a single loaded update is the whole timeline.

**The navigation guard.** `NavigationGuard` runs the hook on a browser history.

**Configuration acceptance.** `ConfigurationLock` serialises any number of writers by one lock:
API mutations and the scheduler, which stamp their snapshots from the database clock, and the
activation of the first monitor, which stamps its snapshot from its host's.

**Text.** `DocsHighlight` (the documentation highlighter), `EscapePasses` and `PaletteLabels`
(the landing page's escaping and label highlighter), `RecentCommands`, `SettingsIds`. `Html` is
an independent reader of the HTML those pages write; it plays the browser's part. `Sorting` is
`Array.prototype.sort`, `Text` is `trim`, `Wrappers` has `Option`.

## Where the code and what is said about it differ

- Concurrent email changes are said to have a single winner because they compare-and-set the
  previous email (lib/api/account.ts:361). They do unless the address returns: a second caller
  that read the same address also succeeds exactly when the last change since moved the user back
  to it (`SecondEmailWinnerIff`, `EmailCommitAppliesIff`; `TwoEmailWinners` makes it happen from
  any start). Password changes do have a single winner, because a salted digest never returns.
- The email compare-and-set pins the address and not the digest, so an email change may apply after
  the password it was authorised by was changed (`EmailAuthorisationIff`,
  `EmailChangeOutlivesPassword`).
- A copied CLI email that belongs to nobody is taken over by the first user who moves to that
  address (`DanglingUntilTaken`, `DanglingRowIsCaptured`). Rows that belong to someone never move.
- After a save the form keeps the document it sent. The server stores a trimmed one, so the two
  are the same exactly when the page name and the link captions had no white space at their ends
  (`SavedIsStoredIff`, `SavedMayDiffer`). No edit is lost by it.
- The accepted snapshot is said to be stamped by every writer from the database clock
  (lib/config/accepted-config.ts:21). The activation of the first monitor stamps it from its
  host's clock (lib/onboarding/service.ts:499). The reader returns what the registry runs at all
  times exactly when each commit finds only older stamps, or its own configuration in the rows
  that are not older (`ReaderFollowsRegistryIff`); a host
  behind makes them disagree (`LateHostDisagrees`), a host ahead makes later writers decide from a
  stale configuration (`EarlyHostMisleads`, `NextRowInOrderIff`).
- The comment in the configuration lock assumes that a commit spans more than a millisecond. For
  the writers that do stamp from the database clock one full millisecond is exactly what is
  needed (`StampsIncreaseIff`, `QuickCommitsTie`).
- The bounded limiter is the unbounded one on all traces over a set of keys exactly when it has an
  entry for each key (`AnsweredAlikeIff`). A single trace is also answered alike while fewer than
  `maxEntries` other windows are open whenever a window opens (`UncrowdedAnswers`).
- With creation times on only some updates, lists in the server's order and removals are sorted
  reliably, but an edit can make the comparator run in a circle (`EditIsReliableIff` says exactly
  when, `MixedPayloadsCycle` shows one). It takes a missing creation time between two known ones
  (`GaplessHasNoTrap`); the present server sends all of them (lib/api/status-reports.ts:714).
- After a second arming, Back and then Discard stays on the guarded page and silences the guard,
  so that the page can then be left without a dialog (`BackThenConfirm`, `DeparturesAskedIff`).

## Model

| member | source | states |
|---|---|---|
| CredentialRevocation.TokenTree | lib/api/credential-revocation.ts:12-36 | The recursive query, joining only the rows found in the last round, finds the same tokens as taking all children every round |
| CredentialRevocation.TreeIsLeast | lib/api/credential-revocation.ts:12-36 | The tree is the least set around its roots that is closed under creation |
| CredentialRevocation.TreeIsDescendants | lib/api/credential-revocation.ts:12-36 | A token is in the tree exactly when a chain of creations leads to it from a root, whatever cycles or dead ends there are |
| CredentialRevocation.TokenRevocationIsExact | lib/api/credential-revocation.ts:12-36 | A live token is revoked, now, exactly when a chain of creations leads to it from one issued to the user, by the user, or by a CLI session on an installation linked to the user by id or under the email; every other token is as it was |
| CredentialRevocation.CliSessionRevocationIsExact | lib/api/credential-revocation.ts:38-58 | A live CLI session is revoked, now, exactly when its installation is linked to the user by id or carries the email; every other one is as it was |
| CredentialRevocation.InstallationRevocationIsExact | lib/api/credential-revocation.ts:59-70 | A live installation is revoked, now, exactly when it is linked to the user by id or carries the email; every other one is as it was |
| CredentialRevocation.RevocationIsIdempotent | lib/api/credential-revocation.ts:8-71 | A time of revocation is final, and revoking the same user again changes nothing |
| AccountDatabase.EmailChangeKeepsResolution | lib/api/account.ts:730-774 | An email change keeps emails unique and every CLI row with the user it belonged to |
| AccountDatabase.EmailChangeResolvesAsBefore | lib/api/account.ts:765-772 | A row resolves exactly as before if and only if its copied email was not already the new address |
| AccountDatabase.DanglingRowIsCaptured | lib/api/account.ts:765-772 | A concrete row left under an address nobody held is given an owner by the change |
| AccountDatabase.EmailChangeTouchesOnlyEmails | lib/api/account.ts:357-364 | Applies exactly when the user still holds the old address and nobody else the new one; revokes no machine credential and changes nothing but emails and sessions |
| AccountDatabase.StaleEmailChangeConflicts | lib/api/account.ts:745-754 | A change that remembers an address now held by another user conflicts and writes nothing |
| AccountDatabase.ChangesRevokeExactly | lib/api/account.ts:614-619 | The two changes stamp exactly the user's live sessions (but for the current one on an email change) and no other row |
| AccountDatabase.RevocationsRevokeExactly | lib/api/account.ts:687-716 | The two revocations stamp exactly the live sessions they select, and report exactly what they did |
| AccountDatabase.RevokesExactlyCounts | lib/api/account.ts:687-716 | The revoked sessions grow by exactly the stamped ones, none of which was revoked before |
| AccountDatabase.LiveSessionsAfterChange | lib/api/account.ts:614-619 | After a password change no session of the user is live; after an email change only the current one can be |
| AccountDatabase.PasswordChangeTouches | lib/api/account.ts:595-613 | Applies exactly when the user still has the expected digest; writes digest, both times and the next epoch to that row and no other, and moves no CLI email |
| AccountDatabase.PasswordChangeRevokesTokens | lib/api/account.ts:502-510 | A password change revokes exactly the live API tokens that belong to the user, however they were created, and changes no other token |
| AccountDatabase.PasswordChangeKillsInstallations | lib/api/account.ts:620-624 | A password change revokes every installation that resolves to the user and every CLI session on it |
| AccountDatabase.AccountStore.FindUser | lib/api/account.ts:719-729 | Finds the user's row, or nothing |
| AccountDatabase.AccountStore.ApplyEmailChange | lib/api/account.ts:730-774 | The updates, one table after the other, are the email-change transaction, all of it or none |
| AccountDatabase.AccountStore.ApplyPasswordChange | lib/api/account.ts:589-626 | The updates, one table after the other, are the password-change transaction, the epoch trigger included |
| AccountDatabase.AccountStore.RevokeSession | lib/api/account.ts:688-701 | The single revocation transaction and whether it found a row |
| AccountDatabase.AccountStore.RevokeOtherSessions | lib/api/account.ts:702-715 | The revocation of the others and the number of rows |
| AccountService.LongestWait | lib/api/account.ts:405-411 | Refused exactly when some limit blocks, and then with the longest wait among those that do |
| AccountService.ChangeAccountEmail | lib/api/account.ts:365-438 | Alone: each failing check gives its own error, in the order of the source; success exactly when every check passes and the address is free; never a conflict; a failure leaves the database untouched |
| AccountService.ChangeAccountPassword | lib/api/account.ts:511-575 | Alone: each failing check gives its own error, in the order of the source; success exactly when every check passes, with the new digest and no live session; never a conflict; a failure leaves the database untouched |
| AccountService.RevokeAccountSession | lib/api/account.ts:649-671 | Refuses the current session; otherwise succeeds exactly when the session was live and the caller's, and revokes exactly it |
| AccountService.RevokeOtherAccountSessions | lib/api/account.ts:674-685 | Revokes exactly the other live sessions and returns by how many the revoked ones grew |
| AccountRuns.RunKeepsEmails | lib/api/account.ts:422-436 | Over every interleaving, emails stay unique and every CLI row that resolves to a user goes on resolving to that user and no other |
| AccountRuns.StepRevokes | lib/api/account.ts:614-619 | Every step but a sign-in revokes exactly the sessions its log entry holds |
| AccountRuns.RunKeepsSessions | lib/api/account.ts:687-716 | Over every run of all four writers a time of revocation is never changed and no session changes hands |
| AccountRuns.RunKeepsLedger | lib/api/account.ts:687-716 | The sessions signed out by different transactions are disjoint, belong to the transaction's user, and are reported truly |
| AccountRuns.SessionsRevokedOnce | lib/api/account.ts:679-684 | Over every run the reported sessions add up to the sessions that became revoked |
| AccountHistory.StepKeepsFollows | lib/api/account.ts:595-613 | Emails, digests and credential epochs stay what the log makes of the first database |
| AccountHistory.StepKeepsCallsTrue | lib/api/account.ts:388-420 | What a call remembers was stored when it read it, and a verified call verified against that |
| AccountHistory.StepKeepsFresh | lib/api/account.ts:559-561 | A digest that is hashed and not committed is nobody's, and no digest is ever written twice |
| AccountHistory.StepKeepsEntriesTrue | lib/api/account.ts:595-613 | Every logged change replaced what its call had seen, and each call changes at most once |
| AccountHistory.StepKeepsOutcomesTrue | lib/api/account.ts:562-574 | A call that reports a change is in the log |
| AccountHistory.RunKeepsHistory | lib/api/account.ts:511-575 | All of these hold in every reachable state |
| AccountGuarantees.FailedCallsChangeNothing | lib/api/account.ts:430-435 | A call that ends in an error has committed nothing, however it was interleaved |
| AccountGuarantees.BlockedCallsEnd | lib/api/account.ts:399-412 | A call blocked by a limit is told the longest wait, never verifies a password and commits nothing |
| AccountGuarantees.DigestsFormAChain | lib/api/account.ts:595-613 | A user's digests form a chain without repeats, each change consumes its predecessor, and the epoch counts the changes |
| AccountGuarantees.OnePasswordWinner | lib/api/account.ts:502-510 | Of callers who read the same digest at most one changes the password |
| AccountGuarantees.PasswordChangeIsAuthorised | lib/api/account.ts:551-573 | The presented password verifies against the digest stored at the instant of commit, with no change by anyone since the read |
| AccountGuarantees.EmailsFormAChain | lib/api/account.ts:745-754 | Every email change replaces the address the change before it wrote |
| AccountGuarantees.EmailCommitAppliesIff | lib/api/account.ts:422-436 | At its commit in any run an email change applies exactly when nobody else holds the new address and, since the call read, the email was not changed or the last change set it back |
| AccountGuarantees.SecondEmailWinnerIff | lib/api/account.ts:357-364 | Of two concurrent callers that read the same address, the second one to commit also succeeds exactly when a later change was the last and brought the address back, and its own address is free |
| AccountGuarantees.TwoEmailWinners | lib/api/account.ts:357-364 | From any start a run leads two callers that read the same address at the same time both to success |
| AccountGuarantees.EmailAuthorisationIff | lib/api/account.ts:414-436 | At an email commit in any run the stored digest is the one the call verified against exactly when nobody changed the password since its read |
| AccountGuarantees.EmailChangeOutlivesPassword | lib/api/account.ts:745-754 | From any start a run applies an email change whose password no longer verifies, because the password was changed between its check and its commit |
| AccountGuarantees.DanglingUntilTaken | lib/api/account.ts:765-772 | Over every run a row under an address of nobody stays so exactly until some user moves to that address |
| AccountGuarantees.PasswordChangeReachesEarlierInstallations | lib/api/account.ts:620-624 | An installation that ever resolved to a user is dead after that user's password change, whatever email changes came before, and stays dead over every run of these operations |
| AccountGuarantees.TokenGoesOnBelonging | lib/api/account.ts:765-772 | Over every run a token that belongs to a user goes on belonging to that user, whatever emails change |
| AccountGuarantees.PasswordChangeEndsTokens | lib/api/account.ts:502-510 | Every token that ever belonged to a user is revoked by that user's password change and stays revoked over every run |
| AccountGuarantees.PasswordChangeEndsSessions | lib/api/account.ts:614-619 | A session that existed at a password change is revoked ever after |
| AccountGuarantees.StepsAnswer | lib/api/account.ts:388-436 | What each step of a call answers: which refusal for a missing user, a wrong password, a changed row or a taken address, and otherwise success |
| StatusPageDocument.ToDocument | components/settings/status-page-settings.tsx:73-81 | The loop copies every document field and nothing else |
| StatusPageDocument.MergeStatusPageDrafts | components/settings/status-page-settings.tsx:88-103 | The loop keeps locally edited fields and takes the server's value of all others |
| StatusPageDocument.FieldEqualIff | components/settings/status-page-settings.tsx:59-61 | Two values are equal exactly when they are the same, or both missing or null |
| StatusPageDocument.PayloadFitsSchema | lib/status-page/schema.ts:56-94 | The payload has exactly the keys of the server's strict schema, with the draft's values |
| StatusPageDocument.MergeLaws | components/settings/status-page-settings.tsx:83-103 | merge(b,b,s) = s, merge(b,l,b) = l, and merging again changes nothing |
| StatusPageDocument.EditedAfterMerge | components/settings/status-page-settings.tsx:83-103 | After a recovery the edited fields are the earlier edits that the server does not already carry |
| StatusPageDocument.EditSurvivesRecoveries | components/settings/status-page-settings.tsx:752-767 | An edited value survives any number of recoveries exactly until a fetched document carries it itself |
| StatusPageDocument.RowsKeptInOrder | components/settings/status-page-settings.tsx:699-702 | The link rows that are sent stand in the draft's order and as often as there |
| StatusPageDocument.OneRow | components/settings/status-page-settings.tsx:699-702 | A row is dropped exactly when caption and address are white space only |
| StatusPageDocument.StoredValues | lib/status-page/schema.ts:51-57 | The server stores the name and the captions trimmed and every other value as it was sent |
| StatusPageDocument.NormalizeIdempotent | lib/status-page/schema.ts:51-57 | Parsing a stored document again changes nothing |
| StatusPageDocument.OutgoingKeepsUnedited | components/settings/status-page-settings.tsx:699-710 | Of a field the draft left alone, a save sends the base's value, dropped link rows included |
| StatusPageProtocol.SettingsForm.BeginSave | components/settings/status-page-settings.tsx:695-721 | The click sends the exact payload, or nothing when busy or invalid, and changes no form value |
| StatusPageProtocol.SaveSettings | components/settings/status-page-settings.tsx:695-750 | A save with nothing in between: accepted exactly when valid and current, and then stored with nothing left unsaved; refused as stale, it keeps exactly the edits the current document does not carry; otherwise form and server are as before |
| StatusPageProtocol.SettingsForm.RecoverFromConflict | components/settings/status-page-settings.tsx:752-781 | The three-way merge of the documents captured at the click becomes the draft |
| StatusPageProtocol.CanSaveIff | components/settings/status-page-settings.tsx:686-706 | A form can be saved exactly when its name is not all white space and no row is half filled |
| StatusPageProtocol.SettingsForm.Revalidate | components/settings/status-page-settings.tsx:641-673 | A form with an edited field is left alone; a pristine one takes saved document, draft and etag from the fetched version |
| StatusPageProtocol.EditsStand | components/settings/status-page-settings.tsx:658-660 | In every run the edited values of a draft stay until the client itself edits, discards, has saved, recovers or mounts anew |
| StatusPageProtocol.PristineFormAdopts | components/settings/status-page-settings.tsx:661-664 | In every run a late revalidation that a pristine form adopts brings a version the server once had |
| StatusPageProtocol.OwnEventsMean | components/settings/status-page-settings.tsx:675-789 | What an edit, a discard, a save click and its success do to the form, value by value |
| StatusPageProtocol.RecoveryMeans | components/settings/status-page-settings.tsx:752-767 | A recovery takes the fetched version as base and etag and keeps the values edited at the click |
| StatusPageProtocol.PutMeans | lib/api/status-page-config.ts:157-233 | An unacceptable body or a stale version stores nothing, and only the latter leads to a recovery |
| StatusPageProtocol.FetchesMean | components/settings/status-page-settings.tsx:645-654 | Fetches bring the version current when the server answers; a late PUT is judged like any other |
| StatusPageProtocol.SettingsForm.Discard | components/settings/status-page-settings.tsx:783-789 | The draft is the saved document, and nothing is unsaved |
| StatusPageProtocol.RunKeepsInvariant | lib/api/status-page-config.ts:152-257 | In every run each version was written by a sound save and each form, request and response refers to a version the server had |
| StatusPageProtocol.SavesChangeOnlyEdits | lib/api/status-page-config.ts:174-233 | In every run an accepted save differs from the version before it only in fields its writer had edited |
| StatusPageProtocol.NoLostUpdate | components/settings/status-page-settings.tsx:695-781 | In every run a field keeps its value between two versions unless a save in between edited that very field |
| StatusPageProtocol.FormsHoldVersions | components/settings/status-page-settings.tsx:634-673 | However late responses arrive, a form's saved document and etag are a version the server once had |
| StatusPageDocument.StoredAsSentIff | lib/status-page/schema.ts:51-57 | The server stores a save as it was sent exactly when the page name and the captions that are sent have no white space at their ends |
| StatusPageProtocol.SavedIsStoredIff | components/settings/status-page-settings.tsx:730-735 | In every run what the form calls saved is what the server stored exactly when the draft at the click had nothing to trim |
| StatusPageProtocol.SavedMayDiffer | components/settings/status-page-settings.tsx:730-735 | From every document a run leads to a form whose saved document the server never had |
| LocalAdmission.AdmissionControl.Check | lib/api/local-admission.ts:29-60 | The map operations are one step of the control's table, with its verdict |
| LocalAdmission.AdmissionControl.Reset | lib/api/local-admission.ts:61-63 | The table is empty |
| LocalAdmission.ReachableSound | lib/api/local-admission.ts:26-60 | On a nondecreasing clock map order is expiry order and the size is at most max(1, maxEntries) |
| LocalAdmission.EvictsLiveIff | lib/api/local-admission.ts:45-50 | An open window is evicted exactly when the table is full and every other window is open |
| LocalAdmission.UndisturbedAnswers | lib/api/local-admission.ts:29-60 | A key whose open windows are never evicted gets the unbounded limiter's answers |
| LocalAdmission.UncrowdedAnswers | lib/api/local-admission.ts:29-60 | A trace with fewer than maxEntries other open windows at each opening is answered exactly as by the unbounded limiter |
| LocalAdmission.AnsweredAlikeIff | lib/api/local-admission.ts:45-50 | All traces over a set of keys are answered as by the unbounded limiter exactly when there are at most max(1, maxEntries) keys |
| LocalAdmission.ForgottenKey | lib/api/local-admission.ts:45-50 | With one key more, the first key uses up its limit, the others push it out, and it is admitted again |
| LocalAdmission.TwiceTheLimit | lib/api/local-admission.ts:30-41 | No half-open interval of one window's length admits as many as twice the limit: at most 2 * limit - 1, and limit if a window is one millisecond |
| LocalAdmission.TwiceTheLimitIsReached | lib/api/local-admission.ts:30-41 | For every policy a trace admits exactly that many |
| LocalAdmission.RetryIsAdmitted | lib/api/local-admission.ts:35-38 | A refused caller who waits the announced seconds, alone on its key, is admitted whatever other keys do |
| LocalAdmission.RetryIsLeast | lib/api/local-admission.ts:35-38 | A second less is refused while the window is kept |
| ReportStatus.CompareTransitive | components/incidents/report-status.ts:118-132 | The comparator is transitive when creation times are all known or all missing |
| ReportStatus.UneditedIsReliable | components/incidents/report-status.ts:112-132 | An unedited list in the server's order is sorted by a consistent order, however many creation times are missing |
| ReportStatus.RemovalIsReliable | components/incidents/report-status.ts:204-211 | So is the list that a removal leaves |
| ReportStatus.EditIsReliableIff | components/incidents/report-status.ts:118-155 | After an edit the order is consistent exactly when the edited update does not land in a trap: a tie with two others of which it passes one by creation time but not the other |
| ReportStatus.GaplessHasNoTrap | components/incidents/report-status.ts:112-132 | No edit lands in a trap unless an update without a creation time stands between two with one |
| ReportStatus.MixedPayloadsCycle | components/incidents/report-status.ts:118-155 | A list in the server's order and an edit after which the candidates compare in a circle |
| ReportStatus.HeadIsNewest | components/incidents/report-status.ts:163-171 | The head of the sort is the one candidate that comes before all others |
| ReportStatus.OrderOfInputDoesNotMatter | components/incidents/report-status.ts:163-171 | With creation times known, the current status is the same for every order of the same updates |
| ReportStatus.EditDecidedByTopTwo | components/incidents/report-status.ts:163-171 | On a timeline in the server's order, for every edit that lands in no trap, the status after it depends on the two newest updates and the edited one only |
| ReportStatus.NoOpEditNeverFlips | components/incidents/report-status.ts:179-191 | An edit that changes nothing never warns |
| ReportStatus.FlipMeaning | components/incidents/report-status.ts:179-191 | The verdict is Resolved exactly when no Resolved or Completed update is at the head and one is current after the edit, and Ongoing exactly in the converse case |
| ReportStatus.ComparatorMeaning | components/incidents/report-status.ts:118-132 | One update comes before another exactly when it was published later, or then created later, or then has the greater id; with a creation time missing, when it stands earlier |
| ReportStatus.CurrentIsGreatest | components/incidents/report-status.ts:134-171 | The current status after an edit is that of the update whose (publishedAt, createdAt, id) is the greatest, the edit counted in |
| ReportStatus.RemovalDecidedByTopTwo | components/incidents/report-status.ts:198-217 | A removal flips exactly when it takes the head away from a second update of the other kind; the verdict names the direction |
| ReportStatus.LoadedPartDecides | components/incidents/report-status.ts:179-217 | Any loaded part that starts with the two newest updates gives the whole timeline's verdict on every removal, and on every edit that lands in no trap |
| ReportStatus.PrefixDecides | components/incidents/report-status.ts:179-217 | So does any loaded prefix of two updates or more, however many creation times are missing |
| ReportStatus.OneLoadedUpdateIsNotEnough | components/incidents/report-status.ts:179-191 | Of every timeline of two updates or more, one loaded update misjudges some edit of it |
| ReportStatus.PrefixDecidesIff | components/incidents/report-status.ts:179-191 | A loaded prefix judges all edits that land in no trap as the whole timeline does exactly when it has two updates or is the whole |
| ReportEditor.AssemblyIsPrefix | components/incidents/report-editor.tsx:155-167 | Older pages that continue or overlap the first one assemble to a prefix of the timeline, nothing twice |
| ReportEditor.PatchEditSameEffect | components/incidents/report-editor.tsx:477-485 | Sending only the changed fields has the effect the flip check looked at |
| ReportEditor.SaveIsConfirmed | components/incidents/report-editor.tsx:452-518 | A request leaves the form only if the user was shown exactly the flip it causes on the timeline that the editor loads from, or it causes none |
| ReportEditor.ConfirmedFlipStillHolds | components/incidents/report-editor.tsx:473-508 | If others change the timeline before the request arrives, the confirmed flip is still the one it causes while the two newest updates and the edited one are as they were |
| ReportEditor.Editor.LoadOlderUpdates | components/incidents/report-editor.tsx:404-426 | The timeline grows to the next prefix of the server's and the open form stays true |
| ReportEditor.Editor.StartEditUpdate | components/incidents/report-editor.tsx:428-442 | The form opens on the loaded update without a warning |
| ReportEditor.Editor.SetEditingField | components/incidents/report-editor.tsx:444-450 | Any change withdraws the warning |
| ReportEditor.SaveOutcomeMeaning | components/incidents/report-editor.tsx:452-518 | A blank text or unusable time is refused and a flip is shown first; otherwise the form closes exactly when it shows the update as it is, or a request leaves with exactly the fields that differ, which turns the update into what the form shows |
| ReportEditor.Editor.SaveEditedUpdate | components/incidents/report-editor.tsx:452-518 | The handler does exactly that to form and request, for the loaded update, and never sends an unconfirmed flip |
| ReportEditor.Editor.UpdateSaved | components/incidents/report-editor.tsx:509-510 | The form closes and the timeline is the first page again |
| NavigationGuard.GuardHook.ArmEffect | components/navigation/use-navigation-guard.ts:107-125 | Each arming puts one more sentinel of the same page on top, with nothing ahead |
| NavigationGuard.GuardHook.Visit | components/navigation/use-navigation-guard.ts:107-193 | The event handlers, called one after the other, run the machine; a user who stays leaves one sentinel per arming |
| NavigationGuard.GuardHook.PopState | components/navigation/use-navigation-guard.ts:112-120 | A pop is undone and opens the dialog, unless leaving |
| NavigationGuard.GuardHook.ConfirmDialog | components/navigation/use-navigation-guard.ts:161-189 | Closes the dialog; from k sentinels a history dialog goes two entries back and silences the guard, a link dialog opens the link on top of the page |
| NavigationGuard.ClickThenAnswer | components/navigation/use-navigation-guard.ts:155-189 | From any armed page a clicked link opens after Discard, on top of the page and its sentinels, and is forgotten after Cancel |
| NavigationGuard.BackThenAnswer | components/navigation/use-navigation-guard.ts:112-120 | From any armed page Back is undone and asked about, Cancel leaves everything as it was, and Forward does nothing |
| NavigationGuard.CleanPageIsFree | components/navigation/use-navigation-guard.ts:107-131 | On a clean page links open and Back and Forward move one entry, unasked |
| NavigationGuard.RearmedAsks | components/navigation/use-navigation-guard.ts:111-123 | Arming asks again, even after a departure had silenced the guard |
| NavigationGuard.StayingKeepsHistory | components/navigation/use-navigation-guard.ts:107-125 | Over every run of Back, Forward, clicks, Cancel, arming and disarming the history is the guarded page's with one sentinel per arming, and nothing ahead |
| NavigationGuard.StayingFromPage | components/navigation/use-navigation-guard.ts:107-125 | The guarded page stands on the top two entries, and nothing at or below it has changed |
| NavigationGuard.BackThenConfirm | components/navigation/use-navigation-guard.ts:161-173 | Back and Discard at depth k stops k - 1 entries short of the entry before the guarded page, and reaches it exactly at depth one |
| NavigationGuard.SilentDeparture | components/navigation/use-navigation-guard.ts:112-116 | At depth two or more, after Back and Discard, further presses of Back leave the armed page without a dialog |
| NavigationGuard.DeparturesAskedIff | components/navigation/use-navigation-guard.ts:107-173 | Every departure from an armed page, in every run, is confirmed in a dialog exactly when there is one sentinel or nothing before the page |
| NavigationGuard.SentinelsOutliveTheGuard | components/navigation/use-navigation-guard.ts:121-124 | After disarming, each sentinel costs one press of Back that stays on the page |
| ConfigurationLock.ConfigurationStore.LockedNow | lib/api/configuration-lock.ts:53-62 | The stamp is the millisecond that the database clock is in |
| ConfigurationLock.ConfigurationStore.FindAcceptedSnapshot | lib/config/accepted-config.ts:31-47 | The scan returns a row with the greatest (acceptedAt, seenAt) among the accepted ones, or none |
| ConfigurationLock.ConfigurationStore.CommitTransaction | lib/scheduler/configuration-acceptance.ts:206-220 | From agreement the commit keeps reader and registry in agreement exactly when its stamp is past the accepted ones |
| ConfigurationLock.ConfigurationStore.ApplyConfigChange | lib/api/config-mutation.ts:86-135 | Once settled, an API change decides from what the registry runs, and reader and registry agree on its result if the commit takes a millisecond |
| ConfigurationLock.ConfigurationStore.ActivateFirstMonitor | lib/onboarding/service.ts:468-523 | An activation that changes the configuration leaves reader and registry in agreement exactly when its host's clock is past every stamp the reader may return |
| ConfigurationLock.ReaderReturnsLast | lib/config/accepted-config.ts:31-47 | With increasing stamps the reader returns the configuration accepted last |
| ConfigurationLock.CommitAgreesIff | lib/config/accepted-config.ts:21-47 | A commit keeps agreement exactly when its stamp is past the accepted ones, or the readable rows hold its configuration already |
| ConfigurationLock.ReaderFollowsRegistryIff | lib/config/accepted-config.ts:21-47 | Over every run of every writer the reader returns what the registry runs at all times exactly when each commit finds only older stamps, or its own configuration already readable under those that are not older |
| ConfigurationLock.PastStampsAreSerial | lib/api/configuration-lock.ts:17-29 | In such a run the reader returns the last accepted configuration, the registry runs it, and each row was decided from its immediate predecessor |
| ConfigurationLock.DatabaseStampsArePast | lib/api/configuration-lock.ts:40-47 | Without host-stamped writers, and with commits of a millisecond, every commit finds only older stamps |
| ConfigurationLock.AcceptanceIsSerial | lib/scheduler/configuration-acceptance.ts:110-222 | In every run of API mutations and scheduler acceptances the reader returns what the registry runs, the last accepted configuration, and each snapshot was decided from its immediate predecessor |
| ConfigurationLock.QuickCommitsTie | lib/api/configuration-lock.ts:40-47 | With quicker commits a run exists where stamps tie and the reader may return the older configuration |
| ConfigurationLock.RunStampsTrue | lib/api/configuration-lock.ts:53-62 | In every run each stamp taken from the database clock is the millisecond in which the clock was read |
| ConfigurationLock.RunClocksRows | lib/scheduler/configuration-acceptance.ts:119-126 | Without an activation every row of a run is stamped from the database clock |
| ConfigurationLock.FallbackRuns | lib/scheduler/configuration-acceptance.ts:206-220 | A rejection, or an activation that changes nothing, leaves the configuration that was read in the registry and accepts no row |
| ConfigurationLock.OnlyTheHolderActs | lib/api/configuration-lock.ts:31-38 | Only the holder of the lock acts, and the lock is taken only when free |
| ConfigurationLock.StampsIncreaseIff | lib/api/configuration-lock.ts:40-47 | Stamps of database-stamped writers strictly increase in every run exactly when a commit comes at least 1 ms after its clock read |
| ConfigurationLock.ActivationAgreesIff | lib/onboarding/service.ts:493-508 | From agreement an activation keeps it exactly when its host's clock is past every stamp the reader may return |
| ConfigurationLock.LateHostDisagrees | lib/onboarding/service.ts:499-508 | A run with a host one second behind, after which the reader returns another configuration than the registry runs |
| ConfigurationLock.EarlyHostMisleads | lib/onboarding/service.ts:499-508 | A run with a host ahead, after which a writer decides from a configuration that was replaced before |
| ConfigurationLock.NextRowInOrderIff | lib/config/accepted-config.ts:31-47 | In any reachable database with the lock free, every continuation decides its next row from its immediate predecessor exactly when the rows of the greatest accepted stamp hold it |
| DocsHighlight.MatchAt | marketing/docs.js:178-189 | The rule loop finds the first rule that applies at the cursor |
| DocsHighlight.Highlight | marketing/docs.js:174-199 | The cursor loop terminates and writes the HTML of the token sequence |
| DocsHighlight.TokenIsFirstMatch | marketing/docs.js:172-196 | Each token is, at its own position, what the first rule matches that does not have to start a word right behind a word character, or one plain character where no rule matches |
| DocsHighlight.TokenIsStyled | marketing/docs.js:190-195 | Each matched token is displayed in a span of class tok- and its rule's class, each plain character outside any element |
| DocsHighlight.HighlightFaithful | marketing/docs.js:174-199 | For every rule set and source the displayed text is the source, styled by token |
| Html.RenderEscaped | marketing/docs.js:7-18 | Escaped text is displayed as itself, whatever follows it and whatever element it stands in |
| Html.EscapedIsInert | marketing/docs.js:7-18 | Escaped text holds no angle bracket and no quote |
| Html.EscapeRoundTrip | marketing/docs.js:7-18 | Displaying the escaped text gives back every string |
| EscapePasses.PassesAreOnePass | marketing/script.js:1249-1256 | Five whole-string passes, ampersand first, equal the one-pass substitution |
| EscapePasses.EscapeHtmlRoundTrip | marketing/script.js:1249-1256 | Displaying the escaped text gives back every string |
| EscapePasses.AmpersandLastIsWrong | marketing/script.js:1249-1256 | Replacing the ampersand later displays the wrong text |
| PaletteLabels.CollectHits | marketing/script.js:1716-1726 | The collected ranges cover exactly the first occurrences of the tokens |
| PaletteLabels.MergeRanges | marketing/script.js:1728-1736 | The merged ranges are ordered, disjoint and not touching, and cover exactly what the sorted ones covered |
| PaletteLabels.RenderLabel | marketing/script.js:1737-1747 | The written label is displayed whole, with exactly the ranges in bold |
| PaletteLabels.HighlightLabel | marketing/script.js:1715-1748 | The displayed text is the label, and a character is bold exactly when some token's first occurrence covers it |
| RecentCommands.Palette.RememberCommand | marketing/script.js:1690-1697 | After every command the list is the latest three of all commands ever run |
| RecentCommands.HistoryIsMostRecentFirst | marketing/script.js:1690-1697 | The unbounded history is ordered by last use |
| RecentCommands.RecentsAreHistory | marketing/script.js:1690-1697 | After any commands the kept entries are the first ones of the unbounded history |
| RecentCommands.RecentsAreLatest | marketing/script.js:1690-1697 | At most three commands are kept, never the empty one or the terminal, the latest first, and any other command that was run was last run before all three |
| SettingsIds.BaseIsSlug | components/settings/settings-api.ts:74-80 | Collapse, strip, slice and strip leave single inner hyphens between alphanumerics, at most 55 characters |
| SettingsIds.GeneratedMonitorIdIsSlug | components/settings/settings-api.ts:73-83 | Every name gives a well-formed id of at most 64 characters that ends in the whole suffix |
| SettingsIds.GeneratedGroupIdIsSlug | components/settings/settings-api.ts:85-95 | The same for groups |
| SettingsIds.BaseIsWords | components/settings/settings-api.ts:74-80 | The base is the name's alphanumeric words in order, joined by single hyphens and cut at 55 characters |
| SettingsIds.IdsAreWords | components/settings/settings-api.ts:81-94 | The id is the base, or monitor or group where the name has no words, a hyphen, and eight characters of the UUID |
| SettingsIds.BaseFixedPoints | components/settings/settings-api.ts:74-80 | The pipeline leaves alone exactly the short slugs, and a second application changes nothing |
| Sorting.SortSorts | components/incidents/report-status.ts:167-169 | With a comparator that is consistent on the elements, the sort puts them in order |
| Text.TrimDropsEnds | components/settings/status-page-settings.tsx:699-706 | Trimming takes all white space off both ends and nothing else |

## Left out

- Account input validators, the email pattern, the password policy, Argon2 and rate-limit storage: parameters or choices of the environment; a fresh digest is any digest not issued before, and a call in `AccountRuns` starts after its input was validated.
- Other writers of users and CLI rows (invitations, team removal, device linking, which may revive an installation); the set of users and of CLI rows is fixed during a run, human sessions may be added.
- Session and token expiry, last-used times, names, scopes and avatars; API token subtrees revoked on their own.
- The normalised-email check constraint; the trigger that revokes rotated credentials, which writes the same rows with the same time as the transaction does.
- SQL isolation: a transaction is one atomic step, and a violated unique constraint undoes it.
- React rendering, the DOM, dialogs, focus, toasts, `localStorage` and `fetch`; a failed or lost request is a call that gives up, and its PUT may still arrive.
- The parser behind the custom head field (a flag of the save click), the idempotency store, the existence of referenced images and their clean-up; refusals for such reasons are the `valid` flag of a PUT.
- Responses without an ETag: the route sends one with every success.
- JSON text: two field values are taken to be equal exactly when `JSON.stringify` gives the same text, so a different key order inside one field counts as a difference there too.
- Changes of a report by others while an edit is open: the editor's timeline is the server's as loaded, and its request carries no version; `ConfirmedFlipStillHolds` says what then still holds.
- Date parsing, invalid dates and time zones: times are integers, and the minute conversion of the edit form uses one fixed offset, so daylight-saving shifts are not captured.
- Regular-expression internals: a rule is any function from source and cursor to a match length; rule classes must not contain `>`, as none of the page's do.
- UTF-16: strings are sequences of Dafny characters, so a lone surrogate and the order of characters beyond the basic plane are not captured; `toLowerCase` and NFKD are applied before the model starts.
- Click-target filtering of the navigation guard, `beforeunload`, entries of other documents, and two traversals before a handler runs.
- The configuration evaluation and its approvals (any decision may be taken), hashes, the Edge Config write and its failure (an abort), onboarding progress, the missing clock row and the range of `Date`.
- Doubles: `Date.now`, counts and stamps are unbounded integers.
- In-place mutation of the last merged range and of the `Map` entry in the admission control: updated in a sequence and a map that the methods reassign, so aliasing is not captured.
