# Verified models of the aimee consoles and tooling

A Dafny model of the stateful protocols and algorithms in aimee's two Go web consoles
(`control-web`, `runtime-web`) and three of its Python tools, with proofs of what they promise over
whole runs. Check everything with `dafny verify dfyconfig.toml`.

| file | what it models |
|---|---|
| `Basics.dfy` | bytes, instants, sequences and statement outcomes shared by all |
| `SessionTable.dfy` | the control-web `sessions` table, one function per SQL statement |
| `FleetLatch.dfy` | the fleet-mutation latch as a transition system over interleaved requests, acknowledgements, deletions, failing statements and crashes; the specification is an automaton that reads the event log of one session |
| `SessionStore.dfy` | the session store and the proxy handler as they run, and the proof that a handler pass is a path of that transition system |
| `CredentialVault.dfy` | the bounded credential vault: a value-level specification and the heap objects whose buffers are zeroed |
| `SessionCredential.dfy` | session rows and vault entries together, every half-step of login, logout, expiry and invalidation |
| `LoginLimiter.dfy` | the login failure limiter with overlapping attempts |
| `ChannelStream.dfy`, `ChannelBroker.dfy`, `ChannelMigration.dfy` | the durable channel stream, its lossy broker, and the import of the retired archive |
| `MessageCodec.dfy` | a text printed as a canonical message, and read back |
| `AccountReplacement.dfy` | replacing or retiring the generated login: a compensating transaction with a failure possible at every call |
| `ChatSessions.dfy` | chat sessions, the once-only legacy snapshot and the alias transfer |
| `PercentEncoding.dfy`, `EditorMount.dfy` | the editor's mount point on percent-encoded paths |
| `IdentityRecord.dfy` | the printer and parser of the managed-account record |
| `RetrievalMetrics.dfy` | nDCG and recall of the BEIR gate |
| `WilsonBound.dfy`, `Calibration.dfy` | the Wilson bound, conformal floor and bucket loop of the calibration sidecar |
| `LintReachability.dfy` | the prerequisite worklist of the lint-target check |
| `Text.dfy`, `Sorting.dfy` | white-space trimming and sorting shared by the above |

## How the environment enters

* Each SQL statement is one atomic step. It reports success, is refused without effect, or takes
  effect although the caller sees an error (`SqlOutcome`). A transaction is all-or-nothing.
* Random session ids and acknowledgement tokens are fresh: the environment draws any value never drawn before.
* Time is an integer the environment supplies; the Unix second is its truncation.
* Replies of the KB, failures of system calls and the table a query sees are arbitrary.
* Floats are exact reals. The discount `1/log2(i+2)` is any positive, non-increasing function, the
  square root any function that squares back, the normal quantile any real.

## Where the code falls short of a promise

Each of these is proved in both directions or shown for a whole family of inputs.

* **Refused logout.** `del` and the expiry in `get` ignore an error of their DELETE and erase the vault entry all
  the same, so a refused DELETE leaves a session that is accepted without its credential
  (`SessionCredential.RefusedLogoutLosesCredential`, from every state with such a session). The vault half is safe
  exactly when no answered, unexpired row of that id is left (`SessionCredential.DeletionIsSafeExactlyWhen`).
* **Vault half of an invalidation.** `invalidateSub` deletes rows and vault entries in two steps. A login of the
  same principal in between is left accepted without a credential (`SessionCredential.OverlapLosesCredential`).
  The second step is safe exactly when it meets no answered session of the principal whose row has not run out,
  idle ones included (`SessionCredential.SweepIsSafeExactlyWhen`), and where it fails one refresh breaks the
  promise (`SessionCredential.ExposedSessionIsLost`). The function has no caller yet. Runs in which every vault
  half, of a deletion or an invalidation, is safe in this sense are aligned throughout, whatever statements fail
  (`SessionCredential.SafeRunsAreAligned`).
* **Stranded marker.** When the commit of an account replacement fails half way, the marker cannot be
  restored and deleting the new account succeeds, the marker names an account that is gone.
  `AccountReplacement.Appliance.HandleSetupAccount` proves that this is the only way to break a step boundary, and
  `AccountReplacement.StrandedRun` runs the handler into it for every ordinary pair of names.
* **Respelled paths.** Stripping undoes prefixing exactly for spellings made of bytes a path may contain; an
  unescaped space, which the parser lets through, comes back escaped (`EditorMount.StripUndoesPrefixExactlyWhen`).
  A reference that starts with an encoded slash is taken for rooted, and its prefixed spelling is then not
  literally under `/vscode/` (`EditorMount.EncodedSlashLeavesMount`); `EditorMount.PrintedStaysMountedExactlyWhen`
  gives the exact condition on what is printed.
* **Outer white space.** The account record reads back exactly when no name starts and no verifier ends with
  white space (`IdentityRecord.RecordRoundTripExactlyWhen`).
* **Small samples.** A rejection raises the Wilson bound exactly when it lifts a sample with some
  acceptance weight across the fallback threshold of 2 (`WilsonBound.RejectionRaisesExactlyWhen`). The
  docstring of that function names the Wilson-Hilferty approximation; the code computes the Wilson score bound.
* **Silent posts.** A post whose insert succeeds but whose id cannot be read is stored without a wake-up. A step
  leaves a reader asleep on undelivered rows with nothing queued or coming exactly when it is such a silent end, of
  the last post under way, with the queue empty (`ChannelBroker.ForgottenExactlyWhen`); it happens from every
  state in which a drained reader waits (`ChannelBroker.SilentPostForgetsReader`), and the next tick repairs it.
* **Answers after the commit.** The chat-session upsert reads the session back after its change has been
  committed and then may answer 409 or 500 although the change is there. An error answer means that nothing
  changed exactly when the failing statement comes before the commit
  (`ChatSessions.RefusalWithoutEffectExactlyWhen`).

## Model

| member | source | states |
|---|---|---|
| `FleetLatch.DispatchesAreSeparated` | control-web/proxy.go:65-132 | in every interleaved run, two fleet POSTs dispatched under one session id have between them, in this order, a reply to the first with a status other than 401, 409 and 502, and an acknowledgement carrying the first's own token |
| `FleetLatch.IndeterminateIsFinal` | control-web/proxy.go:107-132 | after a transport failure, an unusable reply, 401, 409 or 502 no event of that session id ever follows, and its row stays latched under that token for as long as it exists |
| `FleetLatch.ReplayedTokenIsInert` | control-web/session.go:193-205 | once a later mutation was dispatched, acknowledging with an earlier token changes nothing, in every reachable state |
| `FleetLatch.FreeSessionDispatches` | control-web/proxy.go:65-107 | from any state with a free row there is a run that dispatches: the latch does not shut by itself |
| `FleetLatch.AnsweredMutationIsFreed` | control-web/proxy.go:121-132 | any reply other than 401, 409 and 502, resolved and acknowledged under its own token, frees the row again |
| `FleetLatch.StepKeepsInv` | control-web/session.go:165-205 | every atomic step keeps: row and log agree on the phase, an active request owns the latch under its own token, no two active requests share a session |
| `FleetLatch.StepKeepsTokens` | control-web/session.go:80-86 | every step keeps tokens unique among requests and dispatched at most once |
| `FleetLatch.RunInv` | control-web/proxy.go:65-147 | both invariants hold in every state of every run, across crashes |
| `FleetLatch.OpenToIdle` | control-web/server.go:234-264 | the automaton can return from dispatched to idle only through such a reply and then a matching acknowledgement |
| `SessionStore.Store.Create` | control-web/session.go:90-129 | the new session is unlatched, belongs to the principal, outlives neither its credential nor the absolute limit, and get accepts it at once; on a taken id or a refused insert nothing changes, and other rows never do |
| `SessionStore.Store.Get` | control-web/session.go:133-163 | accepts exactly the present rows before their absolute expiry and at most 1800 seconds after they were last seen, and marks them seen now; a stale row's vault entry always goes, the row itself if the DELETE takes effect |
| `SessionStore.Store.ClaimFleetMutation` | control-web/session.go:165-177 | a won claim found the row free and now holds it under this token; a lost one changed nothing; after an error no other token can have got in; only this row's latch and token ever move |
| `SessionStore.Store.TransitionFleetMutation` | control-web/session.go:179-191 | success means the caller held the row in the old latch value and it is now in the new one, the token dropped with the latch; without the token nothing moves and the caller is told; only this row's latch and token ever move |
| `SessionStore.Store.AcknowledgeFleetMutation` | control-web/session.go:193-205 | an acknowledgement counts only for an answered mutation under its own token and frees the row; any other token leaves the table alone; only this row's latch and token ever move |
| `SessionTable.ClaimIsExclusive` | control-web/session.go:165-205 | of two claims the second loses, and no token but the winner's moves or frees the row |
| `SessionTable.LatchRoundTrip` | control-web/session.go:165-205 | claim, answer and acknowledgement under one token, or claim and withdrawal, restore the table |
| `SessionStore.Store.Del` | control-web/session.go:207-212 | the vault entry of that id goes, and its row if the DELETE takes effect; nothing else |
| `SessionStore.Store.InvalidateSub` | control-web/session.go:216-221 | all vault entries of the principal go, and all its rows if the DELETE takes effect; nothing else |
| `SessionStore.ShiftOrDelete` | control-web/proxy.go:140-147 | the transition, or the deletion of a row whose transition was not confirmed |
| `SessionStore.ProxyFleetMutation` | control-web/proxy.go:65-132 | table and response of one handler pass for every choice of the environment |
| `SessionStore.ProxiedIsHonest` | control-web/proxy.go:65-132 | a POST leaves only under a claim this request won; the browser gets a token exactly when the row waits for it; an inconclusive dispatch never frees the row; no other session is touched |
| `SessionStore.ProxiedAnswers` | control-web/proxy.go:65-132 | status, token and row of every branch: 409 and 502 keep the latch and withhold the token, 401 deletes the session, every other reply hands the token out and leaves the row answered |
| `SessionStore.HandlerIsAPath` | control-web/proxy.go:65-147 | the handler refines the transition system: same table, same events, no request left behind |
| `CredentialVault.RunIsBounded` | control-web/credential_vault.go:48-62 | in every run of operations the number of entries stays within the maximum |
| `CredentialVault.HeldWasPut` | control-web/credential_vault.go:48-103 | whatever is held was stored by one accepted put under that id, and nothing erased it since |
| `CredentialVault.LookupIsFaithful` | control-web/credential_vault.go:64-77 | get returns only bytes stored for that id, issuer, subject and expiry second, never at or after expiry, never after an erasure |
| `CredentialVault.StoredIsReturned` | control-web/credential_vault.go:64-77 | what was stored and neither erased nor expired since is returned to the byte, for that id, issuer, subject and any instant of the expiry second |
| `CredentialVault.Cleanse` | control-web/credential_vault.go:33-37 | every byte of the array is zero afterwards, in place |
| `CredentialVault.Vault.Put` | control-web/credential_vault.go:48-62 | stores a copy exactly when admissible, not already held and below the maximum; every buffer ever allocated is either held or zeroed |
| `CredentialVault.Vault.Get` | control-web/credential_vault.go:64-77 | returns the stored bytes exactly for this id, issuer, subject and expiry second until expiry; buffers stay held or zeroed |
| `CredentialVault.Vault.Del` | control-web/credential_vault.go:79-89 | one entry goes and its buffer is zeroed |
| `CredentialVault.Vault.DelPrincipal` | control-web/credential_vault.go:91-103 | exactly the principal's entries go, buffers zeroed |
| `CredentialVault.Vault.Clear` | control-web/credential_vault.go:105-115 | nothing is held and every buffer ever allocated is zeroed |
| `CredentialVault.Vault.PurgeExpired` | control-web/credential_vault.go:39-46 | exactly the entries at or past their expiry go |
| `SessionCredential.SessionNeverOutlivesCredential` | control-web/server.go:124-134 | in every run in which all DELETEs take effect and no login starts inside an invalidation of its principal, each answered OIDC session that get accepts has a matching, unexpired vault entry at that instant, despite truncation to seconds |
| `SessionCredential.AlignedSessionHasItsToken` | control-web/session.go:133-163 | such a session gets its own bytes from the vault with the expiry that get hands out for its row |
| `SessionCredential.SafeRunsAreAligned` | control-web/session.go:99-221 | the same for every run, whatever statements are refused, whose vault halves of deletions and invalidations meet no answered, unexpired session of theirs |
| `SessionCredential.ExposedSessionIsLost` | control-web/session.go:145-161 | conversely, from any state with such a session the vault half and one refresh leave it accepted without its credential |
| `SessionCredential.RefusedLogoutLosesCredential` | control-web/session.go:207-212 | from every state with an answered, unexpired session, a logout whose DELETE is refused leaves it accepted without its credential |
| `SessionCredential.DeletionIsSafeExactlyWhen` | control-web/session.go:145-152 | the vault half of a deletion meets no such row of its id if and only if no refresh afterwards breaks the promise |
| `SessionCredential.StepKeepsInv` | control-web/session.go:99-163 | every half-step, refused statements included, but such a vault half keeps rows covered by entries |
| `SessionCredential.SweepIsSafeExactlyWhen` | control-web/session.go:216-221 | the vault half of an invalidation meets no answered, unexpired session of its principal if and only if no refresh afterwards breaks the promise; then it keeps the invariant that carries all later steps |
| `SessionCredential.OverlapLosesCredential` | control-web/session.go:216-221 | from every state inside an invalidation, a login of that principal answered before the vault half ends up accepted without its credential |
| `LoginLimiter.WindowIsBounded` | control-web/ratelimit.go:28-57 | with at most c overlapping attempts no counter records more than maxFailures + c - 1 failures, across restarts and resets |
| `LoginLimiter.TimeWindowIsBounded` | control-web/ratelimit.go:28-51 | so no more failures than that are recorded within the window after any counter's stamp unless a login succeeds |
| `LoginLimiter.CounterIsTheWindow` | control-web/ratelimit.go:42-51 | under a clock that never goes back, two failures go to one counter exactly when no login succeeded between them and the later one comes at most the window after the counter's stamp |
| `LoginLimiter.FullCounterDenies` | control-web/ratelimit.go:28-40 | a counter with maxFailures failures denies every attempt until the window has passed since its stamp, and none after |
| `LoginLimiter.BoundIsAttained` | control-web/server.go:143-201 | a run exists that reaches this bound |
| `LoginLimiter.StepKeepsInv` | control-web/ratelimit.go:28-57 | failures recorded plus attempts in flight never exceed the bound |
| `LoginLimiter.RateLimiter.Allow` | control-web/ratelimit.go:28-40 | denies exactly while a counter at most the window old has reached the maximum; drops only older counters; other keys unchanged |
| `LoginLimiter.RateLimiter.Fail` | control-web/ratelimit.go:42-51 | counts in the counter that is at most the window old, or starts a new one; other keys unchanged |
| `LoginLimiter.RateLimiter.Reset` | control-web/ratelimit.go:53-57 | forgets this key only |
| `ChannelStream.HandleEvents` | runtime-web/channels.go:298-366 | for every sequence of growing tables, faults and wake-ups: what was sent is exactly the channel above the given cursor, or without one what was inserted after the connection, in order, no gap, no repetition; every turn without failure sends 200 rows or all there is, so what any turn had to show is sent after enough turns, also when the last turn fails, and a quiet channel drains; the loop ends only for a failure, an invalid message or a client leaving a drained stream; requests are refused exactly for a bad cursor or an unreadable greatest id |
| `ChannelStream.Reconnect` | runtime-web/channels.go:298-366 | two connections, the second with the last id received on the first: what the client got is the one uninterrupted stream above its first cursor |
| `ChannelStream.SendPage` | runtime-web/channels.go:325-349 | one page advances the exact stream row by row, sends a full page or all there is, and stops only at a fault or an invalid message |
| `ChannelStream.TakeTurn` | runtime-web/channels.go:325-365 | one turn of the loop keeps what was sent and the stream exact, and serves every earlier turn one more page or ends the stream for a cause |
| `ChannelStream.ResumedStreamsConcatenate` | runtime-web/channels.go:298-309 | whatever prefix the client received, resuming from its last id continues the one uninterrupted stream |
| `ChannelStream.StreamIsIncreasing` | runtime-web/channels.go:326-341 | an exact stream has strictly increasing ids, all of this channel and above the cursor |
| `ChannelStream.FreshStreamStartsNow` | runtime-web/channels.go:306-309 | without a cursor the client gets exactly the rows inserted after it connected |
| `ChannelBroker.SleepingReaderIsWoken` | runtime-web/channels.go:59-69 | however many notifications a full queue drops, a reader that waits with undelivered rows has a wake-up queued or coming, unless a post ended without publishing |
| `ChannelBroker.StepOnPending` | runtime-web/channels.go:325-343 | a query takes the rows it sends off the front of the undelivered ones, an insert adds one at the end, nothing else touches them |
| `ChannelBroker.ForgottenExactlyWhen` | runtime-web/channels.go:269-287 | a step makes a reader sleep on undelivered rows with nothing queued or coming if and only if it is the silent end of the last post under way while the reader waits on such rows with an empty queue |
| `ChannelBroker.SilentPostForgetsReader` | runtime-web/channels.go:279-283 | from every state with a drained, waiting reader, an empty queue and no post under way, one silent post does it |
| `ChannelBroker.ForgottenBySilentPost` | runtime-web/channels.go:279-283 | in every run such a reader owes it to a silent post since which it has neither queried nor been woken |
| `ChannelBroker.Broker.Subscribe` | runtime-web/channels.go:39-45 | adds one empty queue to this channel only |
| `ChannelBroker.Broker.Unsubscribe` | runtime-web/channels.go:47-57 | removes this subscriber and keeps the others in order |
| `ChannelBroker.Broker.Publish` | runtime-web/channels.go:59-69 | every subscriber's queue of fewer than 16 messages gets this one at its end, a full one is left alone, and none is empty afterwards |
| `ChannelMigration.ChannelDb.ApplyChannelMigrations` | runtime-web/channels.go:71-157 | a legacy table is imported whole or the database is unchanged; a canonical one is left alone, so a rerun does nothing; it fails exactly for a failing statement it gets to, a leftover temporary table, or a text that is not valid UTF-8 or holds a NUL |
| `ChannelMigration.ChannelDb.Import` | runtime-web/channels.go:99-156 | the rows in order with the high-water mark kept, temporary table and its sequence row gone |
| `ChannelMigration.ChannelDb.Post` | runtime-web/channels.go:269-282 | succeeds exactly when the insert does and ids are left; the id is positive and exceeds every id ever assigned, deleted ones included; the table only grows, and failure changes nothing |
| `ChannelMigration.ArchiveIsRecoverable` | runtime-web/channels.go:133-144 | every row the import lets through can be read back from the live table whole, its text decoded from the printed message |
| `MessageCodec.MessageRoundTrip` | runtime-web/channels.go:137-137 | reading the printed user message with one text block gives back the text, for every text |
| `MessageCodec.EscapesAreStandard` | runtime-web/channels.go:137-137 | the escapes of section 7 of RFC 8259, and the hexadecimal ones for HTML and line-separator characters |
| `MessageCodec.QuotedIsPrintable` | runtime-web/channels.go:137-137 | exactly the characters that need no escape are printed as they are, and no escape contains one that does |
| `ChannelMigration.CopyRows` | runtime-web/channels.go:133-144 | prints and inserts all rows in order with their ids, or fails exactly at an uncanonical text or a failing insert |
| `ChannelMigration.CursorSurvivesMigration` | runtime-web/channels.go:103-157 | after a migration as the previous member promises it and any number of posts, a cursor from before selects exactly the archived rows it had not seen and then every row posted since, whose ids exceed all ids assigned before |
| `AccountReplacement.Appliance.HandleSetupAccount` | runtime-web/setup_account.go:357-523 | for every combination of failing calls every step boundary keeps the marker sound, someone able to log in and a working administrator working, unless the marker is stranded; refusals change nothing; an admitted request succeeds exactly when the calls it needs do; failed runs with working compensations restore everything but bootstrap sessions; success leaves a working administrator and a closed bootstrap login, adds the new account and its session, removes the plaintext, and changes nothing else |
| `AccountReplacement.CarriedOutExactlyWhen` | runtime-web/setup_account.go:357-523 | the full condition, on request, state and calls, under which a request is carried out |
| `AccountReplacement.Appliance.ReplaceBootstrap` | runtime-web/setup_account.go:415-474 | the replacement after its checks: completes exactly when seven calls succeed, ends stranded exactly under the stated condition |
| `AccountReplacement.Appliance.ReplaceWithUser` | runtime-web/setup_account.go:426-472 | session and marker with the deferred session clean-up |
| `AccountReplacement.Appliance.CommitMarker` | runtime-web/setup_account.go:501-519 | marker, sessions and lock in order, the marker rolled back when a later call fails; shared with the retirement flow |
| `AccountReplacement.Appliance.CloseBootstrap` | runtime-web/setup_account.go:449-458 | the bootstrap login is locked if managed and its plaintext removed, every boundary good |
| `AccountReplacement.Appliance.CreateManagedUser` | runtime-web/pam_identity.go:185-210 | a usable account, or none, or a passwordless one exactly when the compensating delete fails |
| `AccountReplacement.Appliance.DeleteAccount` | runtime-web/setup_account.go:419-424 | the deferred deletion restores the accounts; the boundary is good exactly when the marker was restored |
| `AccountReplacement.StrandedRun` | runtime-web/setup_account.go:419-453 | the handler itself, run with lock and marker restore failing, ends with a marker naming a deleted account, for every ordinary pair of names |
| `AccountReplacement.WrittenMarkerNames` | runtime-web/setup_account.go:216-219 | reading a written marker gives back the name |
| `ChatSessions.ProvidersComeFromSnapshot` | runtime-web/chat_sessions.go:81-103 | over all histories every non-empty provider id was a session id in the version-1 snapshot |
| `ChatSessions.SnapshotIsTakenOnce` | runtime-web/chat_sessions.go:88-101 | once version 1 is applied no later history changes the snapshot |
| `ChatSessions.AdoptionIsComplete` | runtime-web/chat_sessions.go:92-100 | the first migration makes every session without a runtime row its own provider under its own username, keeps every other runtime row and adds nothing else |
| `ChatSessions.LegacySessionsBecomeAvailable` | runtime-web/chat_sessions.go:92-100 | so every session of a fresh legacy store can be transferred |
| `ChatSessions.TransferBinds` | runtime-web/chat_sessions.go:184-217 | an alias that is its own provider gives the target its id unless the target has one; no other session or provider changes; any other alias gives nothing |
| `ChatSessions.TransferCopies` | runtime-web/chat_sessions.go:227-237 | the target without an archive gets the alias's whole one; no other archive changes |
| `ChatSessions.DeletionIsExact` | runtime-web/chat_sessions.go:481-487 | a deletion takes the session's row, provider and archive and nothing of any other session |
| `ChatSessions.ProviderIsWriteOnce` | runtime-web/chat_sessions.go:208-216 | a non-empty provider id survives every history that does not delete the session |
| `ChatSessions.SessionFieldsAreKept` | runtime-web/chat_sessions.go:141-156 | creation time and owner are never rewritten; a title survives all touches and is never emptied |
| `ChatSessions.ArchivesAreNeverMerged` | runtime-web/chat_sessions.go:227-237 | over all histories each archive is empty or exactly one archive of the start |
| `ChatSessions.RepeatedTransferIsIdle` | runtime-web/chat_sessions.go:176-243 | repeating a transfer changes nothing but the activity time |
| `ChatSessions.StepOnArchive` | runtime-web/chat_sessions.go:227-237 | an operation leaves an archive alone, empties it by deletion, or fills an empty one with a whole copy |
| `ChatSessions.ChatStore.MigrateLegacyRuntime` | runtime-web/chat_sessions.go:81-103 | fails exactly when a statement it gets to does, and is then without effect |
| `ChatSessions.ChatStore.TouchSession` | runtime-web/chat_sessions.go:141-156 | the send-path upsert; nothing on error or without user or id |
| `ChatSessions.ChatStore.UpsertWithLegacyRuntime` | runtime-web/chat_sessions.go:176-243 | fails exactly when a statement it gets to does, and is then without effect; transfers exactly when the alias is still its own provider |
| `ChatSessions.ChatStore.HandleUpsert` | runtime-web/chat_sessions.go:420-465 | the change is in the database exactly when its commit was reached; the answer for every combination of failing statements, including the reads after the commit; 500 only for a failing statement |
| `ChatSessions.RefusalWithoutEffectExactlyWhen` | runtime-web/chat_sessions.go:454-464 | an answer other than 200 comes with the change committed exactly when only the reads after it failed |
| `ChatSessions.ChatStore.HandleDelete` | runtime-web/chat_sessions.go:468-492 | session, runtime row and archive go together exactly when the id is given and no statement fails, otherwise nothing changes |
| `EditorMount.Url.StripEditorMount` | runtime-web/vscode.go:244-263 | a path under `/vscode/` loses exactly the mount and its spelling still decodes to it; any other is left alone; every index in bounds |
| `EditorMount.CutMount` | runtime-web/vscode.go:250-260 | the loop stops exactly behind the spelling of the mount |
| `EditorMount.StrippedSpellingDecodes` | runtime-web/vscode.go:244-263 | for any spelling of the mount the stripped spelling is a suffix that still decodes to the stripped path |
| `EditorMount.StripAfterPrefix` | runtime-web/vscode.go:244-281 | what stripping makes of any prefixed rooted link |
| `EditorMount.StripUndoesPrefixExactlyWhen` | runtime-web/vscode.go:244-281 | stripping undoes prefixing if and only if the spelling contains only bytes a path spelling may; the path always comes back and its spelling always decodes to it |
| `EditorMount.UnescapedSpaceIsRespelled` | runtime-web/vscode.go:249-260 | a concrete link that comes back respelled |
| `EditorMount.Url.PrefixEditorMount` | runtime-web/vscode.go:267-281 | accepts exactly the rooted paths that dot-segment removal leaves alone, backslash read as slash, and prefixes path and spelling; otherwise changes nothing |
| `EditorMount.AcceptedPathIsNormal` | runtime-web/vscode.go:267-281 | an accepted path is a fixed point of dot-segment removal (section 5.2.4 of RFC 3986) under `/vscode/`, with backslashes read as slashes or not |
| `EditorMount.NormalExactlyWhenFixed` | runtime-web/vscode.go:271-275 | a rooted path has no dot segments exactly when the removal of section 5.2.4 of RFC 3986 changes nothing |
| `EditorMount.AcceptedSpellingIsNormal` | runtime-web/vscode.go:267-281 | so is its spelling, and no segment of it even decodes to a dot segment |
| `EditorMount.EncodedSlashLeavesMount` | runtime-web/vscode.go:267-281 | every accepted path has a valid spelling, rooted by an encoded slash, that is not literally under the mount |
| `EditorMount.PrintedStaysMountedExactlyWhen` | runtime-web/vscode.go:267-281 | what is printed for an accepted link has no dot segment, encoded ones included, and is under the mount if and only if its spelling is standard, rooted by a literal slash, or invalid and therefore respelled |
| `EditorMount.RewriteLocation` | runtime-web/vscode.go:169-187 | external and relative locations are untouched; the editor's own rooted ones become exactly the prefixed local link, under the mount, that strips back to the same path, or an error |
| `EditorMount.RewriteWorkerScope` | runtime-web/vscode.go:188-198 | kept, under the mount, exactly for plain rooted scopes; removed otherwise |
| `PercentEncoding.UnescapeEscape` | runtime-web/vscode.go:250-252 | decoding the standard spelling gives the path |
| `PercentEncoding.EscapedPathDecodes` | runtime-web/vscode.go:250-252 | whatever raw form is stored, the escaped path decodes to the path |
| `PercentEncoding.DecodedSegment` | runtime-web/vscode.go:271-275 | a raw segment that decodes to slash-free text is a segment of the decoded path |
| `PercentEncoding.SpellableIsPathCharacter` | runtime-web/vscode.go:250-252 | a spelling may contain exactly the path characters of section 3.3 of RFC 3986 and square brackets |
| `PercentEncoding.SegmentsJoin` | runtime-web/vscode.go:271-271 | segments are slash-free and join to the path |
| `IdentityRecord.RenderIdentityRecord` | runtime-web/identity_persist.go:72-87 | sorts its slice in place and prints exactly the restorable accounts |
| `IdentityRecord.ParseIdentityRecord` | runtime-web/identity_persist.go:90-101 | the accounts of the record's lines, in order |
| `IdentityRecord.RestoredAccounts` | runtime-web/identity_persist.go:72-101 | parsing what was rendered yields exactly the sorted, restorable accounts |
| `IdentityRecord.RecordRoundTripExactlyWhen` | runtime-web/identity_persist.go:72-101 | a record reads back exactly if and only if no name starts and no verifier ends with white space |
| `IdentityRecord.TruncationKeepsPrefix` | runtime-web/identity_persist.go:89-101 | any truncation, at any byte, parses to a prefix of the accounts plus at most one with the right name and a prefix of its verifier |
| `IdentityRecord.SortIsDetermined` | runtime-web/identity_persist.go:73-73 | with distinct names every sort by name gives the same record |
| `IdentityRecord.KeptIsExact` | runtime-web/identity_persist.go:75-84 | kept are exactly the accounts with a name and a verifier that is neither empty, locked nor disabled, and without a colon or line break |
| `IdentityRecord.TextRoundTrip` | runtime-web/identity_persist.go:94-97 | a trimmed line is an account exactly when it has a name, a colon, and a verifier that is neither empty, locked nor disabled |
| `IdentityRecord.BeforeIsLexicographic` | runtime-web/identity_persist.go:73-73 | names are ordered by their first difference, and a name comes before its extensions |
| `Text.SpacesAreUnicode` | runtime-web/identity_persist.go:94-94 | the white space trimmed is the one of Unicode, through its UTF-8 encoding |
| `RetrievalMetrics.NdcgInUnitInterval` | benchmarks/beir_gate.py:83-91 | nDCG@k lies in [0, 1] for every k, non-negative judgements and ranking of distinct ids |
| `RetrievalMetrics.DominanceOrdersDcg` | benchmarks/beir_gate.py:83-84 | prefix-wise greater gains give a greater discounted sum under every non-increasing discount |
| `RetrievalMetrics.TopIsBest` | benchmarks/beir_gate.py:87-90 | no selection of judgements gains more than the sorted top of the same size |
| `RetrievalMetrics.JudgedFits` | benchmarks/beir_gate.py:88-88 | distinct documents spend each judgement at most once |
| `RetrievalMetrics.PerfectRankingScoresOne` | benchmarks/beir_gate.py:87-91 | ranking the judged documents by score reaches exactly 1 |
| `RetrievalMetrics.NdcgIsQuotient` | benchmarks/beir_gate.py:87-91 | nDCG times the ideal sum is the ranking's sum, and 0 without an ideal gain |
| `RetrievalMetrics.DcgAppend` | benchmarks/beir_gate.py:83-84 | each document adds its gain times the discount of its own rank |
| `RetrievalMetrics.RecallBoundedAndMonotone` | benchmarks/beir_gate.py:94-98 | recall lies in [0, 1] and never falls with k |
| `RetrievalMetrics.RecallExtremes` | benchmarks/beir_gate.py:94-98 | recall is 1 exactly when every document judged above 0 is among the first k, and 0 exactly when none is |
| `RetrievalMetrics.GateScoresAreSound` | benchmarks/beir_gate.py:162-180 | both scores of every ranking the gate builds lie in [0, 1] |
| `WilsonBound.BoundBelowMean` | scripts/calibration-sidecar.py:65-81 | the bound lies in [0, alpha/(alpha+beta)] and the clamp never acts |
| `WilsonBound.BoundIsWilsonRoot` | scripts/calibration-sidecar.py:65-81 | the bound is the smaller root of n (p - x)^2 = z^2 x (1 - x), and 0 below a weight of 2 |
| `WilsonBound.AcceptanceNeverLowers` | scripts/calibration-sidecar.py:65-81 | one more acceptance never lowers the bound |
| `WilsonBound.RejectionNeverRaises` | scripts/calibration-sidecar.py:65-81 | from alpha+beta >= 2 on, one more rejection never raises it |
| `WilsonBound.RejectionRaisesExactlyWhen` | scripts/calibration-sidecar.py:71-73 | below that, the exact condition under which it does |
| `WilsonBound.BoundPositive` | scripts/calibration-sidecar.py:65-81 | the bound is positive exactly when alpha is |
| `Calibration.FloorIsQuantile` | scripts/calibration-sidecar.py:104-122 | the floor is the least rejected confidence that at least (1-epsilon) of the rejected confidences do not exceed |
| `Calibration.RejectedAppend` | scripts/calibration-sidecar.py:112-116 | the confidences considered are those of the rows with verdict rejected and a confidence, each once |
| `Calibration.NoRejectionNoFloor` | scripts/calibration-sidecar.py:117-118 | without any the floor is 0 |
| `Calibration.ClampIsIdle` | scripts/calibration-sidecar.py:119-121 | for 0 <= epsilon < 1 the index clamp never acts |
| `Calibration.FloorFallsWithEpsilon` | scripts/calibration-sidecar.py:104-122 | a larger epsilon never raises the floor |
| `Calibration.FitBuckets` | scripts/calibration-sidecar.py:139-171 | for any counts and priors: succeeds exactly when no bucket's square root raises; then the buckets tile [0, 1], each with the posterior of the first raw bucket on its range and, where that is one, a bound in [0, mean], and totals are what the posteriors gained over the priors |
| `Calibration.ProperCountsNeverRaise` | scripts/calibration-sidecar.py:76-79 | non-negative counts and priors never make the square root raise |
| `Calibration.FindCounts` | scripts/calibration-sidecar.py:149-156 | the counts of the first raw bucket on the range, or zero when none is |
| `Calibration.EdgesTile` | scripts/calibration-sidecar.py:146-147 | the ranges are the n equal parts of [0, 1] |
| `LintReachability.ReachableFrom` | scripts/check-lint-targets-reachable.py:55-64 | terminates on every finite graph and returns exactly the targets some chain of prerequisites reaches |
| `LintReachability.ClosedHoldsChains` | scripts/check-lint-targets-reachable.py:55-64 | a closed set that holds the roots holds everything reachable |
| `LintReachability.SeenIsReachable` | scripts/check-lint-targets-reachable.py:55-64 | an empty worklist means exactly the reachable targets were seen |

## Left out

- HTTP plumbing, relays and `/v1` proxies: forwarding without state of its own.
- Cryptography, token verification, TLS, PAM and the account commands: only their success or failure enters.
- The route policy of the proxy and its CSRF and credential gates: a request of the model starts behind them.
- SQLite internals: journal modes, busy timeouts, connection pools, foreign keys (a violated one is a failing statement).
- Concurrent account replacements: one request at a time, with failures at every call; a stop is covered because every step boundary is.
- Failed system calls with a partial effect: a failing account, session or file call changes nothing; recording the identities after an account change is not part of the account model.
- Account creation without a managed group: it delegates to code that is not part of this repository.
- `nil` databases and vaults: the guards that skip them.
- JSON decoding and canonical message validity: abstract, except for the printed text message of the channel import.
- Derived titles, message timestamps of copied archives and the 2000-message read limit of the chat archive: easy members.
- Channel and chat texts are sequences of code points; names, markers, account records and editor paths are byte strings.
- `url.URL.String` and URL parsing: the header rewrites work on parsed references.
- Floating-point rounding, the normal quantile and the values of log2.
- Ordering by similarity in the BEIR gate: any order of distinct indices into the distinct corpus ids is covered.
- Regex gates, benchmark runners, pages, cookie and JWKS handling: text matching, I/O or easy members.
- AccountReplacement.Appliance.HandleSetupAccount: starts from a marker that names an existing account or nobody and from a caller who can log in and whose name has no outer white space; an authenticated caller whose password stopped working meanwhile is not covered.
- SessionStore.ProxyFleetMutation: the in-memory copy of the latch in the handler's session struct, which only that handler reads, is not modelled.
- IdentityRecord.RenderIdentityRecord: sorts stably, while the library sort leaves the order of equal names open; distinct names make the two agree.
