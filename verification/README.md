# MagicHandy verification models

Dafny models of the stateful and algorithmic cores of MagicHandy, with proofs of
what each promises over every input, every run or every interleaving. `dafny verify
dfyconfig.toml` checks the whole project.

- **Conversation recovery** (`Chat*.dfy`, `MessageLog.dfy`, `Utf8Prefix.dfy`).
  Messages have a display sequence and, once committed, a revision; the log is
  capped and pruned by sequence, and a stateless reader recovers by echoing the
  position and snapshot it was given. `ChatTables` holds the writer
  transactions, `ChatPage` the page decision, `ChatRecovery` the reader and the
  runs, `ChatGap` what a reported gap means, `MessageLog` the class that changes
  its tables in place. `ChatWrites` and `ChatPages` say when each transaction
  succeeds and what it leaves, without its body. The reader is
  the browser's: it clears on a reset, merges by sequence and drops rows below
  the first retained one; its final cut to 200 display entries is left out.
  Conversations migrated from before revisions existed are covered. One row's
  JSON preview is assumed to fit the bound its truncated columns imply.
- **Audit recorder** (`Audit*.dfy`). Producers, the batching writer with its
  retry and gap records, an append that may commit although it reports failure,
  shutdown; then the table with its row limit, retention and descending pages.
- **Accounts** (`Account*.dfy`, `ControlAdmission.dfy`). Logins, passwords proved
  outside the writer and rechecked inside it, recovery codes, a live idle
  policy, grants. `AccountOutcomes` says exactly who may do what, and what every
  transaction leaves. Hashes, keys and codes are unique tokens.
- **Continuous score edits** (`Layered*.dfy`, `HostedLayered.dfy`,
  `Creative*.dfy`). Several grammars become one transactional edit; map visits
  happen in any order. `LayeredMeanings` and `CreativeMeanings` give the limits,
  widths and anchors as numbers.
- **Clip repair** (`ClipRepair.dfy`, `ClipLoop.dfy`) and **catalogue
  apportionment** (`StableSort.dfy`, `CatalogueQuotas.dfy`, `Catalogue.dfy`).
- **Bounded discovery** (`Discovery.dfy`).

## Where the code and its comments part

- `scripts/curated-pattern-labeller.js:146-149` says the acceleration bound binds
  on large amplitudes. It never does: the floor-velocity duration is always at
  least as long (`ClipRepair.AccelerationBoundNeverBinds`).
- `scripts/curated-pattern-labeller.js:184-185` says shortening guarantees the
  velocity floor. It does exactly when the floor duration does not round up;
  a 22% stroke rounds to 524 ms and is then rejected
  (`ClipRepair.ShorteningReachesTheFloorExactly`, `ClipRepair.SmallestStrokeStaysSlow`).
- `internal/chat/layered.go:175-176` drops the decoding error, so a wrongly typed
  absolute control sets nothing in an accepted transaction. It is not harmless:
  `internal/chat/layered_phrase.go:66-79` asks only whether a control is present,
  so a mistyped band, anchor or mode drops a stored phrase
  (`LayeredLaws.MistypedControlIsSkippedExactly`, `LayeredLaws.MistypedControlMeans`).
- `scripts/curated-pattern-labeller.js:192` takes a stroke of no duration for an
  infinitely fast one, so a clip with such a stroke can be kept with two points
  at one time (`ClipLoop.KeptTimesIncreaseExactly`, `ClipLoop.InstantaneousClipIsKept`).
- `internal/chat/creative_v2.go:85-90` says items have one reading however they are
  grouped. They do, up to the cap of eight, which counts empty items too
  (`CreativeV2.RegroupingIsInvisibleExactly`, `CreativeV2.EmptyItemsCount`).
- `cmd/bluetooth-worker/ble_discovery.go:35-40` uses the empty string for "none
  yet". A blank address that is strictly the weakest can be forgotten
  (`Discovery.SearchFindsWeakestExactly`, `Discovery.HeardKeepsTrueTopExactly`).
  The text is what the Bluetooth library prints for an address, trimmed and
  upper-cased (`cmd/bluetooth-worker/ble.go:326-328`); it is blank only if the
  library prints an empty address, and that library is not part of this model.
- `scripts/import_funscripts.py:621-630` reads the list while sorting it; the list
  then appears empty, so only the bucket weight decides the trim. The model
  sorts by weight.
- The two control checks differ on rows the transactions never store
  (`ControlAdmission.ChecksAgreeExactly`).
- Late activity stamps the time read before the writer was reached, so a last-seen
  time can move backwards. That can shorten a login but never revive it
  (`AccountRuns.NeverValidAgain`).

## Model

| member | source | states |
|---|---|---|
| ChatInvariant.PruneIsExact | internal/chat/log.go:664-687 | One prune leaves exactly the newest 1000 committed rows by sequence, unchanged, raises the marker to the highest revision it removed, and touches no other conversation |
| ChatInvariant.EveryWriteIsAStep | internal/chat/log.go:562-706 | Append, stage, commit, delete and discard each look, from any conversation, like nothing, one publication (with the rows pruned in the same transaction) or one deletion |
| ChatInvariant.WriteKeepsValid | internal/chat/log.go:562-706 | Every writer transaction keeps: revisions of committed rows distinct and within 1..revision, markers within revision, sequences below the counter |
| ChatInvariant.RunKeepsValid | internal/chat/log.go:562-706 | The same over any sequence of transactions |
| ChatInvariant.StepKeepsComplete | internal/chat/log.go:562-706 | One transaction keeps the cap and leaves every revision issued since the start of the run to a retained row or under a marker |
| ChatInvariant.RunKeepsComplete | internal/chat/log.go:562-706 | Over any run, every revision issued since its start is a retained row's or lies under a marker, and the cap holds |
| ChatInvariant.PublicationRestoresTheCap | internal/chat/log.go:664-687 | A conversation migrated above the cap is back within it after its next publication |
| ChatInvariant.EmptyIsValid | internal/chat/log.go:316-356 | Empty conversations meet the invariant |
| ChatInvariant.MigratedIsValid | internal/store/schema_chat_recovery.go:19-45 | A conversation migrated with revision = seq meets the invariant, so every recovery result covers it; its rows are otherwise unchanged |
| ChatInvariant.MigrationLeavesGaps | internal/store/schema_chat_recovery.go:36-45 | Rows 1 and 3 migrate to revision 3 with revision 2 carried by no row and under no marker |
| ChatEvolution.EvolvedStep | internal/chat/log.go:562-706 | Relative to any earlier state, one more transaction adds only rows with higher revisions and accounts for every row that left by a deletion mark or by pruning that outgrew it |
| ChatEvolution.PrunedBefore | internal/chat/log.go:664-687 | Once a full tail has outgrown a row, later commits cannot bring the first retained sequence back to it |
| ChatPage.FittingIsLongest | internal/chat/log_page_bounds.go:34-72 | The scan keeps the longest row prefix within the row limit and the byte budget |
| ChatPage.OrderedHasAll | internal/chat/log_page.go:99-119 | The ordered query returns every selected row |
| ChatDelivery.CutIsClean | internal/chat/log_page.go:99-119 | A selected row is either delivered or comes after the position the page hands back |
| ChatDelivery.PageCarriesSlice | internal/chat/log_page.go:74-119 | A page carries exactly the conversation rows between the position it continued from and the position it hands back |
| ChatDelivery.LastRow | internal/chat/log_page.go:111-119 | When rows are left over, the position handed back is strictly inside the range, so a page that promises more makes progress |
| ChatRecovery.AcceptedMeansNothingLost | internal/chat/log_page.go:133-138 | An accepted snapshot continuation implies that no row present at its anchor was deleted, pruned or changed since |
| ChatRecovery.FirstSeqMoved | internal/chat/log_page.go:133-138 | Losing any anchored row to pruning moves the first retained sequence, even when the pruning marker stays |
| ChatRecovery.RunKeepsInv | internal/chat/log_page.go:50-146 | The reader invariant holds over every interleaving of writers and pages |
| ChatRecovery.MirrorAfterEveryPage | internal/chat/log_page.go:50-146 | After any run, the page just received leaves the reader holding exactly the retained committed rows up to NextRevision (for a display-window reader, those at or above its window): nothing missing, nothing deleted or pruned kept |
| ChatRecovery.RecentResetIsNewestWindow | internal/chat/log_page.go:74-88 | When a display-window reset ends, the union of its pages is exactly the newest 200 rows committed at its anchor, whatever was committed meanwhile |
| ChatRecovery.LossBlocksContinuation | internal/chat/log_page.go:132-138 | A row pruned undelivered past the reader's position always blocks the pending continuation |
| ChatRecovery.LossIsAnnounced | internal/chat/log_page.go:132-146 | A row committed past a nonzero position and pruned before delivery forces HistoryGap and Reset on the next page |
| ChatGap.GapIsReportedExactly | internal/chat/log_page.go:126-146 | Over every run, a page reports a gap if and only if a row past the reader's nonzero position was pruned since its last page, or the page abandons a pending reset anchored when such rows were already pruned |
| ChatDrain.EveryPageIsWellFormed | web/src/components/useChatHistory.ts:236-256 | Every page answering a revision request the reader can issue passes the browser's page check |
| ChatDrain.EveryPageAdvances | web/src/components/useChatHistory.ts:125-145 | A reader that echoes its position never sees it move backwards except on a reset |
| ChatDrain.ReadNeverFails | internal/chat/log_page_bounds.go:34-72 | Given the assumed bound on one row's JSON preview, the limits leave room for at least one row, so a read of an existing conversation never fails on the byte budget |
| ChatDrain.DrainStep | internal/chat/log_page.go:99-119 | Without writers a continued read never resets; a page with more to come that is not a snapshot hand-off carries a row and moves NextRevision; the last page reaches the head |
| ChatDrain.Drain | internal/chat/log_page.go:99-119 | Repeated reads without writers end, reset at most once, and leave the reader at the head holding the whole retained window |
| ChatWrites.AppendSucceedsExactly | internal/chat/log.go:562-587 | A message is accepted if and only if it is not empty, its role is user or assistant and the conversation exists; which refusal is given when |
| ChatWrites.AppendedIsAsGiven | internal/chat/log.go:588-624 | An accepted message is the row at the returned sequence with the session, role, content, size and committed flag given; a committed one is visible under the next revision and what pruning removed is the only other change, a staged one changes nothing visible |
| ChatWrites.CommitSucceedsExactly | internal/chat/log.go:634-662 | A commit succeeds if and only if the sequence is positive and names a staged row of an existing conversation |
| ChatWrites.CommittedIsAsStaged | internal/chat/log.go:634-662 | The committed row becomes visible otherwise unchanged under the next revision, unless a thousand newer rows already are |
| ChatWrites.SurvivesExactly | internal/chat/log.go:664-687 | A visible row survives a prune exactly if fewer than 1000 visible rows are newer |
| ChatWrites.DeleteIsExact | internal/chat/log.go:690-706 | Deleting removes that row alone; if it was visible, the revision moves by one and becomes the reset marker, the pruning marker stays |
| ChatWrites.ReopenIsExact | internal/chat/log.go:154-162 | Reopening removes exactly the staged rows |
| ChatPages.ResetsExactly | internal/chat/log_page.go:126-146 | A revision page starts over if and only if it can serve neither a delta nor a continuation, and which range and snapshot each of the three answers has |
| ChatPages.PageIsTheLongestThatFits | internal/chat/log_page.go:100-110 | A page is a prefix of the queried rows within the row limit and the literal byte budget, and one row more would not fit or does not exist |
| ChatPages.BoundsMean | internal/chat/log_page.go:60-64 | The bounds reported are the oldest and newest retained sequence, or zero |
| ChatPages.SequencePageShows | internal/chat/log_page.go:99-119 | A page of the older protocol shows the oldest visible rows after a sequence, in order, none left out in between |
| MessageLog.Conversations.PublishRevision | internal/chat/log_revisions.go:10-16 | The counter increments by one and the row is stamped with it; nothing else changes |
| MessageLog.Conversations.PruneCommittedMessages | internal/chat/log.go:664-687 | In-place pruning equals the specification that keeps the newest rows and raises the marker |
| MessageLog.Conversations.AppendTo | internal/chat/log.go:562-624 | In-place append or staging equals its specification, refusals included, and keeps the invariant |
| MessageLog.Conversations.CommitPendingReply | internal/chat/log.go:634-662 | Committing a staged reply stamps and prunes in one transaction, possibly pruning itself, or refuses and changes nothing |
| MessageLog.Conversations.DeleteRow | internal/chat/log.go:690-706 | Deleting a committed row raises the reset marker in the same transaction; a missing row changes nothing |
| MessageLog.Conversations.DiscardPendingReplies | internal/chat/log.go:154-162 | Reopening drops staged rows only |
| MessageLog.Conversations.ReadMessagePage | internal/chat/log_page.go:50-124 | The step-by-step page equals the page specification the protocol results are about |
| MessageLog.MessagePageRange | internal/chat/log_page.go:126-146 | The decision between delta, anchored continuation and reset, branch by branch |
| MessageLog.ScanBoundedMessagePage | internal/chat/log_page_bounds.go:34-72 | The scan loop returns the longest fitting prefix and fails only when the first row alone exceeds the budget |
| Utf8Prefix.CompleteUtf8Prefix | internal/chat/log_page_bounds.go:74-84 | The backward walk equals the prefix specification |
| Utf8Prefix.CompletedIsLongestPrefix | internal/chat/log_page_bounds.go:74-84 | For every well-formed text (section 4 of RFC 3629) and byte cut: the longest well-formed prefix, at most three bytes shorter, unchanged exactly if the cut was whole |
| Utf8Prefix.FragmentIsIllFormed | internal/chat/log_page_bounds.go:74-84 | Text ending in part of a character is never well-formed |
| Utf8Prefix.CharacterIsEncoded | internal/chat/log_page_bounds.go:74-84 | The byte sequences taken for one character are exactly the encodings of the scalar values 0..D7FF and E000..10FFFF, computed by division (section 3 of RFC 3629) |
| Utf8Prefix.NotFullExactly | internal/chat/log_page_bounds.go:74-84 | The library's test for a full character fails exactly on a proper beginning of some character |
| AuditRecorder.StepKeepsInv | internal/audit/recorder.go:54-174 | Every step of every producer and of the writer keeps the accounting, drops landing between reading the counter and finishing the append included |
| AuditRecorder.RunKeepsInv | internal/audit/recorder.go:54-174 | The accounting over every interleaving |
| AuditRecorder.Conservation | internal/audit/recorder.go:54-174 | Over all runs an accepted event is queued, in hand or settled, and once settled persisted or counted; the table keeps acceptance order; durable gap counts cover the acknowledged loss, which never exceeds dropped; loss is never under-reported |
| AuditRecorder.ConservationIsExact | internal/audit/recorder.go:146-174 | With atomic appends each settled event is exactly one of persisted and counted, and the gap counts equal the acknowledged loss |
| AuditRecorder.CleanStopExplainsEverything | internal/audit/recorder.go:82-127 | A shutdown that commits its last write settles every accepted event and makes every loss it read durable |
| AuditRecorder.RecordTakesExactly | internal/audit/recorder.go:54-72 | An event joins the end of the queue if and only if it is valid, the recorder open and fewer than 256 wait; a refused one is counted unless valid and closed out |
| AuditRecorder.WriterTakesExactly | internal/audit/recorder.go:129-144 | The writer takes the oldest waiting event, one at a time, up to 64 |
| AuditRecorder.NeverMoreThanFits | internal/audit/recorder.go:129-144 | Over every run at most 256 events wait and at most 64 are in hand |
| AuditRecorder.WriteOpensExactly | internal/audit/recorder.go:146-160 | A write opens with the loss known then and reports exactly the part not yet acknowledged, if any |
| AuditRecorder.GapAloneIsWritten | internal/audit/recorder.go:109-112 | Between writes a loss alone is written, and nothing otherwise |
| AuditRecorder.AttemptEndsExactly | internal/audit/recorder.go:160-174 | A batch is tried at most twice, kept after the first failure, let go after a commit, which acknowledges the loss it opened with, or after a second failure, which counts its events as dropped |
| AuditRecorder.PruningOnlyCounts | internal/audit/recorder.go:113-120 | Housekeeping only counts its failures, and only between writes |
| AuditRecorder.ShutdownStepsExactly | internal/audit/recorder.go:82-127 | Closing is for good, only a closed recorder is canceled, a canceled idle writer drops and counts what waits, and an emptied one writes a last time |
| AuditWriter.Recorder.constructor | internal/audit/recorder.go:46-51 | A new recorder starts with empty books |
| AuditWriter.Recorder.Record | internal/audit/recorder.go:54-72 | An event is taken exactly if valid, the recorder open and the queue not full; a refused one is counted unless the recorder is closed |
| AuditWriter.Recorder.CollectBatch | internal/audit/recorder.go:129-144 | The batch fills from the queue in order until it is full or the queue empty |
| AuditWriter.Recorder.PrepareBatch | internal/audit/recorder.go:146-160 | The gap record counts exactly the losses not yet acknowledged; an empty batch is not written |
| AuditWriter.Recorder.TryAppend | internal/audit/recorder.go:160-174 | One append attempt: success acknowledges the loss read before it, the second failure counts the batch as dropped |
| AuditWriter.Recorder.AppendBatch | internal/audit/recorder.go:160-174 | Append with one retry equals two specification steps at most |
| AuditWriter.Recorder.WriteBatch | internal/audit/recorder.go:146-174 | A whole write equals the specification's attempts and keeps the accounting |
| AuditStore.AppendValid | internal/audit/store.go:44-54 | Every append keeps one row per event identity, numbered above all earlier rows |
| AuditStore.RowLimitHolds | internal/store/schema_audit.go:14-16 | The table never exceeds 10000 rows |
| AuditStore.RetryChangesNothingExactly | internal/audit/store.go:22-54 | Appending a batch of new events again, as after a misreported commit, leaves what one append at that later time leaves, if and only if none of them had expired at the first |
| AuditStore.ReinsertsNothingExactly | internal/audit/store.go:22-32 | Whatever other writers did in between, inserting a batch again changes nothing if and only if each of its events is still in the table |
| AuditStore.PageIsContiguous | internal/audit/store.go:75-108 | A page holds every live row between its last row and the cursor it was read with |
| AuditStore.PagingSkipsNothing | internal/audit/store.go:75-108 | A reader following NextBefore while others append and prune gets strictly descending rows and, at the end, every row of its starting snapshot that is still retained |
| AuditStore.NewEventIsKeptExactly | internal/audit/store.go:44-68 | A new event takes the next number and is in the table afterwards if and only if it is at most 2592000000 ms (thirty days) old, for every batch within the row limit |
| AuditStore.EarlierRowStaysExactly | internal/audit/store.go:44-68 | An earlier row stays, unchanged, if and only if it is at most 2592000000 ms old and among the last 10000 numbers |
| AuditStore.PageShowsExactly | internal/audit/store.go:75-108 | A page shows, in descending order, the newest hundred rows below its start that are at most thirty days old, and says there is more exactly if it left one out |
| AuditStore.PageReportsBounds | internal/audit/store.go:75-108 | The newest and oldest row reported are the newest and oldest at most thirty days old |
| AuditTable.Store.AppendTx | internal/audit/store.go:22-32 | In-place idempotent insert with the row-limit trigger equals its specification |
| AuditTable.Store.Append | internal/audit/store.go:44-54 | The batch loop and the retention delete equal the append specification |
| AuditTable.Store.ReadBefore | internal/audit/store.go:75-108 | The page filled field by field equals the page specification; a negative cursor is refused |
| AccountTables.NewestOf | internal/accounts/store.go:367-376 | The newest login under the eviction order: created time, then key |
| AccountTables.KeptOf | internal/accounts/store.go:367-376 | Exactly the n newest logins, each newer than every one left out |
| AccountInvariant.EvictionKeepsNewest | internal/accounts/store.go:362-379 | The new login is never evicted, the others kept are the newest, the account ends with at most twenty, other accounts are untouched |
| AccountInvariant.IssuedLoginIsOk | internal/accounts/store.go:309-379 | A login is issued only to an enabled account, for an interface it may use, under its current password; with a proof, only if that password is still current |
| AccountOutcomes.LiveExactly | internal/accounts/sessions.go:132-162 | A login is live exactly if its account exists and is enabled, its expiry has not come and the policy is 0 or one of 30, 60, 120, 240, 480 minutes that have not passed since it was last seen |
| AccountOutcomes.AdministratorExactly | internal/accounts/administrator.go:14-31 | A live administrator is a live full-interface login of a full-access account with the administrator role |
| AccountOutcomes.LoginSucceedsExactly | internal/accounts/store.go:309-387 | Who may log in to which interface, and every field of the login stored; no other login is changed or added |
| AccountOutcomes.IssuedLoginLives | internal/accounts/store.go:328-360 | From its issue on, a login is live at a later instant if and only if less than twelve hours passed and the policy is 0 or not more than its minutes passed, both as literal nanoseconds |
| AccountOutcomes.LoginKeepsTwenty | internal/accounts/store.go:362-379 | Afterwards the account has one login more, or twenty; of its earlier logins the newest by creation, then key, are kept, and other accounts keep theirs |
| AccountInvariant.NewSessionKeepsValid | internal/accounts/store.go:309-387 | Issuing a login keeps every account invariant and only evicts |
| AccountInvariant.ReplacePasswordKeepsValid | internal/accounts/change_password.go:53-76 | A password change fails only for a missing account, never on the session limit, and leaves the account no login and no recovery code |
| AccountInvariant.SetDisabledKeepsValid | internal/accounts/store.go:543-604 | Disabling leaves no login and no recovery code; the session-limit error is unreachable; invariants kept |
| AccountInvariant.SetAccessKeepsValid | internal/accounts/interface_access.go:65-104 | Changing access ends every login and grant of the account; no remote-only account keeps a full login |
| AccountInvariant.CreateKeepsValid | internal/accounts/store.go:172-233 | Creation keeps names unique, roles and access explicit, administrators full-access |
| AccountOutcomes.CreationSucceedsExactly | internal/accounts/store.go:172-233 | An account is created exactly with a known role, an interface that role may have and a name nobody has, for the first account or by a live administrator, and is the one given |
| AccountOutcomes.EnabledAdministrators | internal/accounts/store.go:560-569 | Which accounts count as enabled administrators |
| AccountOutcomes.DisablingSucceedsExactly | internal/accounts/store.go:543-604 | Disabling is refused only for a missing account and the one enabled administrator left; which logins and codes go with it |
| AccountOutcomes.AccessChangesExactly | internal/accounts/interface_access.go:65-104 | Access changes exactly for a live administrator, to remote only for operators; an actual change ends the logins and the grant, another changes nothing |
| AccountOutcomes.GrantSucceedsExactly | internal/accounts/grants.go:89-133 | Control is granted exactly to an enabled operator in the name of an enabled administrator, and the grant stored |
| AccountOutcomes.RevocationSucceedsExactly | internal/accounts/grants.go:148-175 | Control is revoked exactly in the name of an enabled administrator, whether or not there was a grant |
| AccountOutcomes.PasswordChangesExactly | internal/accounts/change_password.go:14-76 | A password is replaced exactly by its confirmed owner, a live administrator or the holder of one of the account's codes; the account's logins and codes end, everything else stays |
| AccountOutcomes.CodesChangeExactly | internal/accounts/recovery.go:64-134 | Codes are replaced or removed exactly by the confirmed owner, and nobody else's change |
| AccountOutcomes.PolicyChangesExactly | internal/accounts/session_policy.go:77-108 | The policy changes exactly for a live administrator, to one of six limits |
| AccountOutcomes.TouchSucceedsExactly | internal/accounts/store.go:456-481 | Activity is recorded exactly for a login still live, and changes its last-seen time only |
| AccountOutcomes.RevokeIsExact | internal/accounts/store.go:493-511 | Logging out ends that login and nothing else |
| AccountOutcomes.ValidStoreIsCapped | internal/accounts/store.go:362-379 | A valid store holds at most twenty logins and eight codes of an account |
| AccountInvariant.GrantControlKeepsValid | internal/accounts/grants.go:89-133 | A grant always joins an operator with an administrator |
| AccountInvariant.TouchKeepsValid | internal/accounts/store.go:456-481 | Recording activity on a live login changes its last-seen time and nothing else |
| AccountInvariant.ReplaceCodesKeepsValid | internal/accounts/recovery.go:64-98 | Afterwards the account's codes are exactly the new eight |
| AccountInvariant.SetPolicyKeepsValid | internal/accounts/session_policy.go:77-136 | After a policy change exactly the logins valid under both the old and the new policy remain |
| AccountInvariant.RevokeOthersLeavesTheCaller | internal/accounts/sessions.go:225-264 | Succeeds exactly for a live caller, leaves the account only the caller's login, and never meets its retention error |
| AccountInvariant.RevokeOwnReachesOnlyItsOwn | internal/accounts/sessions.go:194-221 | A caller ends exactly its own account's login with the given identity; another account's identity is refused |
| AccountInvariant.DisablingLeavesAnAdministrator | internal/accounts/store.go:560-569 | Disabling never removes the last enabled administrator |
| AccountInvariant.UpgradeRevivesNothing | internal/accounts/session_policy.go:50-66 | The first start under a stored policy keeps exactly the logins valid under the old thirty minutes; none revives |
| AccountInvariant.UpgradeEstablishesValid | internal/accounts/session_policy.go:50-66 | The first start of an upgraded store establishes every invariant if and only if the rows it leaves are sound, hence whenever the rows it found were |
| AccountInvariant.InterfacesMigrateSound | internal/store/schema_interface_access.go:10-26 | Giving every account and login of an older store the full interface makes otherwise sound rows sound |
| AccountRuns.EmptyIsInv | internal/accounts/store.go:172-233 | The empty store a run starts from meets the invariants |
| AccountRuns.UpgradedIsInv | internal/accounts/session_policy.go:50-66 | A sound store just upgraded meets the invariants, so runs may begin there too |
| AccountRuns.StepKeepsInv | internal/accounts/password_auth.go:55-85 | Every request, with password proofs taken any number of steps earlier, keeps the invariants |
| AccountRuns.StepRevivesNothing | internal/accounts/sessions.go:132-162 | No single request or passage of time makes an invalid login valid |
| AccountRuns.RunKeepsInv | internal/accounts/store.go:172-604 | Every account invariant over every interleaving of requests |
| AccountRuns.NeverValidAgain | internal/accounts/session_policy.go:50-136 | A login that became invalid is never valid again: policy changes both ways, idle expiry off, late activity, re-enabling |
| AccountRuns.LoginsMatchTheCurrentPassword | internal/accounts/password_auth.go:55-85 | In every reachable state a stored password login was opened with its account's current password |
| AccountRuns.RedeemedOnce | internal/accounts/recovery_password.go:22-70 | Of any number of redemptions of one recovery code at most one succeeds |
| AccountRuns.SessionLimitErrorIsUnreachable | internal/accounts/recovery_password.go:86-104 | No request in any reachable state returns a session-limit error |
| AccountRuns.AnAdministratorRemains | internal/accounts/store.go:560-569 | Once there is an enabled administrator there always is one |
| ControlAdmission.ChecksAgreeExactly | internal/accounts/control_admission.go:15-51 | Over arbitrary rows the writer's check and CanControl disagree exactly on a live, permitted, full-interface login with a blank interface value or an unknown role but not both |
| ControlAdmission.ChecksAgree | internal/accounts/interface_access.go:32-40 | In every valid state the two checks give one answer at one instant |
| ControlAdmission.LivenessAgrees | internal/accounts/control_admission.go:15-30 | The writer's joined query and the session lookup, written out separately, find the same logins live |
| ControlAdmission.GrantsAgree | internal/accounts/control_admission.go:34-51 | The writer's grant query and the grant lookup find the same permission in force |
| ControlAdmission.AdmissionMeans | internal/accounts/grants.go:26-60 | Admission means a live full-interface login of an administrator, or of an operator with an unexpired grant from an enabled administrator |
| ControlAdmission.HeldValueLasts | internal/accounts/interface_access.go:32-40 | A session value read once and consulted later gives control exactly to a full-interface login of an administrator, or of an operator until the grant read with it expires |
| ControlAdmission.DisablingEndsControl | internal/accounts/store.go:543-604 | Disabling an account, or the administrator who issued its grant, ends its control |
| ControlAdmission.GrantAdmitsUntilExpiry | internal/accounts/grants.go:89-133 | After a grant, its operator's live full-interface login is admitted exactly until the expiry, or always without one |
| ControlAdmission.RevokingEndsControl | internal/accounts/grants.go:148-175 | After a revocation no login of that operator is admitted |
| AccountStore.Store.PruneExpiredSessions | internal/accounts/session_policy.go:110-136 | The scan and the deletes remove exactly the expired logins and return them |
| AccountStore.Store.SetSessionPolicy | internal/accounts/session_policy.go:77-108 | The in-place change equals its specification; the returned keys are exactly the logins it ended |
| AccountStore.Store.RecoverySessionKeys | internal/accounts/recovery_password.go:86-104 | The bounded scan returns all keys, or an error exactly above twenty |
| AccountStore.Store.ReplacePasswordTx | internal/accounts/change_password.go:53-76 | Hash, logins and codes change together; returned keys are exactly the logins ended |
| AccountStore.Store.RecoverPassword | internal/accounts/recovery_password.go:42-70 | The redemption transaction equals its specification, refusals leaving every table as it was |
| AccountStore.Store.ChangeOwnPassword | internal/accounts/change_password.go:14-33 | The transaction of a confirmed change equals its specification |
| AccountStore.Store.ReplaceRecoveryCodes | internal/accounts/recovery.go:64-98 | The delete and the insert loop equal the specification |
| AccountStore.Store.SetDisabledTx | internal/accounts/store.go:543-604 | The in-place change equals its specification, last administrator refused |
| AccountStore.Store.CreateAccount | internal/accounts/store.go:172-233 | The in-place creation equals its specification, emptiness and name checks included, and keeps the invariant for a fresh identity |
| AccountStore.Store.RemoveRecoveryCodes | internal/accounts/recovery.go:120-134 | The in-place removal equals its specification and keeps the invariant |
| AccountStore.Store.NewSessionWithClient | internal/accounts/store.go:309-387 | Insert and eviction equal the specification, refusals leaving the table as it was |
| AccountStore.Store.RecordActivity | internal/accounts/store.go:456-481 | A late activity update is refused unless the login is still live, and stamps only its last-seen time |
| AccountStore.Store.RevokeOwnSession | internal/accounts/sessions.go:194-221 | The in-place revocation equals its specification |
| AccountStore.Store.RevokeOtherSessions | internal/accounts/sessions.go:225-264 | The in-place revocation equals its specification; the returned keys are exactly the logins it ended |
| AccountStore.Store.SetInterfaceAccess | internal/accounts/interface_access.go:65-104 | The in-place change equals its specification; an unchanged interface ends nothing |
| AccountStore.Store.GrantControlTx | internal/accounts/grants.go:89-133 | The in-place upsert equals its specification |
| AccountStore.Store.RevokeControlTx | internal/accounts/grants.go:148-175 | The in-place delete equals its specification; a missing grant is not an error |
| AccountStore.Store.InitializeSessionPolicy | internal/accounts/session_policy.go:53-66 | The first start prunes under thirty minutes, then stores eight hours; later starts change nothing; over sound rows the invariant holds afterwards |
| Discovery.BestIsTheMaximum | cmd/bluetooth-worker/ble_discovery.go:25-54 | The reference map holds exactly the addresses heard, each with its maximum RSSI |
| Discovery.WeakestIsLeast | cmd/bluetooth-worker/ble_discovery.go:35-40 | Without a blank address the search finds a weakest entry in every visiting order |
| Discovery.SearchFindsWeakestExactly | cmd/bluetooth-worker/ble_discovery.go:35-40 | The search is right in every visiting order if and only if no blank address is the strictly weakest of several |
| Discovery.BlankFirstMisleads | cmd/bluetooth-worker/ble_discovery.go:35-40 | A blank strictly weakest address met first is forgotten and a stronger entry would be evicted |
| Discovery.HeardKeepsTrueTopExactly | cmd/bluetooth-worker/ble_discovery.go:25-54 | One advertisement keeps the true top 64 in every visiting order if and only if it is not a new address, stronger than a blank one that is strictly the weakest of a full map |
| Discovery.MisleadingStep | cmd/bluetooth-worker/ble_discovery.go:35-51 | In that one case some visiting order loses a stronger entry or turns a stronger newcomer away |
| Discovery.UnmisledIsTrueTop | cmd/bluetooth-worker/ble_discovery.go:25-54 | For every stream no step of which is misled, blank addresses included, the map is the true top 64 |
| Discovery.Evicting | cmd/bluetooth-worker/ble_discovery.go:34-51 | Eviction and readmission keep maxima exact, although the map forgot the address |
| Discovery.DiscoveryIsTrueTop | cmd/bluetooth-worker/ble_discovery.go:25-54 | A stream without a blank address misleads no step, so its map is the true top 64 in every visiting order |
| Discovery.OrdersDifferOnlyInTies | cmd/bluetooth-worker/ble_discovery.go:25-54 | Two runs over one stream differ only among equally strong addresses |
| Discovery.ShownExactly | cmd/bluetooth-worker/ble_discovery.go:25-54 | For a stream no step of which is misled: at most 64 devices, each with the strongest signal heeded from it; one heeded and not shown gave way to 64 at least as strong |
| Discovery.NameIsKept | cmd/bluetooth-worker/ble_discovery.go:46-51 | A device shown keeps its last name heard since it was admitted; an advertisement without a name does not erase it |
| Discovery.Scanner.FindWeakest | cmd/bluetooth-worker/ble_discovery.go:35-40 | The loop over the map, in any order, equals the search specification |
| Discovery.Scanner.Advertised | cmd/bluetooth-worker/ble_discovery.go:25-54 | The callback equals its specification for some visiting order |
| ClipRepair.FindShortStroke | scripts/curated-pattern-labeller.js:128-131 | The first stroke under the least amplitude, or -1 |
| ClipRepair.MergeShortStrokes | scripts/curated-pattern-labeller.js:125-139 | The loop equals the merge specification, so its guard never ends it |
| ClipRepair.MergeAtKeepsTimes | scripts/curated-pattern-labeller.js:133-136 | One merge conserves the total time and removes one turning point without moving another in position or time |
| ClipRepair.MergingKeepsTimes | scripts/curated-pattern-labeller.js:122-139 | Merging conserves time, keeps a subsequence of turning points at their moments, and ends with every stroke at least 22 or at most five points; it changes nothing exactly if that held already |
| ClipRepair.MergedByLosing | scripts/curated-pattern-labeller.js:122-139 | Merging follows a chain of cycles; in each link stroke k is under 22 and every earlier one is not, and the next cycle lacks exactly the point at (k + 1) mod n, its time carried to stroke k; the chain ends with at most five points or no stroke under 22 |
| ClipRepair.LosesOneWay | scripts/curated-pattern-labeller.js:128-136 | From one cycle at most one link is possible, so the chain is the only one |
| ClipRepair.OneMergeIsEnough | scripts/curated-pattern-labeller.js:122-139 | A clip whose first such link leaves every stroke felt loses only that point |
| ClipRepair.ShortenedMeans | scripts/curated-pattern-labeller.js:150-161 | A stroke within the aim set by its travel, 42% a second but 450 ms at least, keeps its time; a longer one gets the nearest millisecond, up from halfway |
| ClipRepair.ShortenedWithBound | scripts/curated-pattern-labeller.js:150-161 | The same for every root of 6A/2600, which never exceeds the aim |
| ClipRepair.FastExactly | scripts/curated-pattern-labeller.js:190-195 | A felt stroke passes the velocity check exactly if it takes no time or travels 42% for each of its seconds |
| ClipRepair.AccelerationBoundNeverBinds | scripts/curated-pattern-labeller.js:141-161 | The square-root bound never decides a duration, for any amplitude |
| ClipRepair.ShorteningOnlyShrinks | scripts/curated-pattern-labeller.js:150-161 | A duration never grows and never vanishes; one within the target is untouched |
| ClipRepair.ShorteningReachesTheFloorExactly | scripts/curated-pattern-labeller.js:150-161 | A felt stroke ends at or above the floor velocity if and only if it was there already or its floor duration does not round up |
| ClipRepair.SmallestStrokeStaysSlow | scripts/curated-pattern-labeller.js:190-195 | A slow stroke of 22% becomes 524 ms, under the floor, so its clip is rejected |
| ClipLoop.AcceptedTakesTime | scripts/curated-pattern-labeller.js:190-195 | An accepted clip has no negative duration and a positive phrase |
| ClipLoop.Repeats | scripts/curated-pattern-labeller.js:200-201 | The least number of whole phrases reaching 6600 ms |
| ClipLoop.BuildPoints | scripts/curated-pattern-labeller.js:199-212 | The nested loops equal the loop specification |
| ClipLoop.LoopIsClosed | scripts/curated-pattern-labeller.js:199-212 | A built loop returns to its start, and its times increase if every duration is positive |
| ClipLoop.LoopIncreasesExactly | scripts/curated-pattern-labeller.js:199-212 | A built loop's times strictly increase if and only if every duration of its phrase is positive |
| ClipLoop.KeptTimesIncreaseExactly | scripts/curated-pattern-labeller.js:122-212 | A kept clip's times strictly increase if and only if every merged stroke takes time, before or after shortening |
| ClipLoop.IncreasingClipsStayIncreasing | scripts/curated-pattern-labeller.js:111-212 | A clip with increasing times is kept, if at all, with increasing times |
| ClipLoop.InstantaneousClipIsKept | scripts/curated-pattern-labeller.js:190-195 | A clip whose last stroke takes no time is kept, and its kept times stand still |
| ClipLoop.LoopLasts | scripts/curated-pattern-labeller.js:199-212 | A loop of r phrases lasts r times the phrase |
| ClipLoop.ShorteningIsIdempotent | scripts/curated-pattern-labeller.js:150-161 | Shortening a shortened stroke changes nothing, rounding included |
| ClipLoop.ReadingBackALoop | scripts/curated-pattern-labeller.js:111-117 | Reading a built loop back gives the phrase written out |
| ClipLoop.RepairIsIdempotent | scripts/curated-pattern-labeller.js:111-212 | Repairing a kept clip again gives the same points |
| ClipLoop.KeptLoopIsPlayable | scripts/curated-pattern-labeller.js:190-212 | A kept clip is closed, within 6600..12000 ms, passes the rejection test as rendered, and is the least number of whole phrases reaching 6600 ms |
| ClipLoop.AcceptedExactly | scripts/curated-pattern-labeller.js:190-195 | A cycle is accepted exactly with five turning points or more, every stroke felt and fast enough, in literal numbers |
| ClipLoop.KeptExactly | scripts/curated-pattern-labeller.js:111-212 | A clip is kept if and only if its merged and shortened strokes are accepted and the fewest repeats of at least 6600 ms stay within 12000 ms |
| ClipLoop.BuiltLasts | scripts/curated-pattern-labeller.js:199-212 | A built loop lasts its repeats times the phrase |
| ClipLoop.OneFewest | scripts/curated-pattern-labeller.js:200-201 | There is one fewest number of repeats of at least 6600 ms |
| StableSort.SortOrders | scripts/import_funscripts.py:529-536 | The library sort orders by the comparison and keeps every element |
| StableSort.SortIsStable | scripts/import_funscripts.py:621-644 | Elements the comparison cannot tell apart keep the order they came in |
| CatalogueQuotas.Share | scripts/import_funscripts.py:592-595 | The rounded proportional share lies between its minimum and the bucket's size |
| CatalogueQuotas.ShareIsProportional | scripts/import_funscripts.py:592-595 | A share raised above its minimum exceeds the exact proportion by at most a half; one short of its bucket falls behind it by at most a half |
| CatalogueQuotas.RoundsToNearest | scripts/import_funscripts.py:594-594 | Rounding goes to the nearest whole number, and from halfway to the even one |
| CatalogueQuotas.WeightsAddUp | scripts/import_funscripts.py:589-589 | The total weight is the sum of the bucket weights |
| CatalogueQuotas.Reduce | scripts/import_funscripts.py:597-604 | Terminates; meets the target exactly if there are no more buckets than that, else leaves one each; a reduced quota ends within one of every other |
| CatalogueQuotas.Expand | scripts/import_funscripts.py:606-612 | Terminates; meets the target when there are enough candidates; room goes to the heaviest bucket first |
| CatalogueQuotas.Apportion | scripts/import_funscripts.py:590-612 | Quotas lie in 1..size and sum to exactly the target, or one each when there are more buckets; they come from the rounded shares by levelling the largest down, then filling the heaviest, and are the shares when those already add up |
| Catalogue.FindBest | scripts/import_funscripts.py:542-553 | The pass returns the first candidate with the highest score |
| Catalogue.SelectDiverseGroup | scripts/import_funscripts.py:525-564 | Exactly the quota, drawn from the group, each pick the first best against those already picked |
| Catalogue.PickedOneByOne | scripts/import_funscripts.py:541-557 | The picks grow one at a time by the first best-scored of what is left, the rest staying in order, until the quota is met or nothing is left |
| Catalogue.GroupStartsFirst | scripts/import_funscripts.py:525-538 | A group within its quota stays as it is, in order; a larger one starts from its first candidate in rank |
| Catalogue.ScoreMeans | scripts/import_funscripts.py:545-549 | A score is the distance to the nearest pick plus 4, 2 and 1 for a family, a segment and a speed not picked yet |
| Catalogue.NearestMeans | scripts/import_funscripts.py:545-545 | The distance to those picked is the least of the distances to each |
| Catalogue.SignatureDistanceMeans | scripts/import_funscripts.py:519-522 | Signatures of one length are as far apart as their furthest readings; others are not compared |
| Catalogue.WeightedMeans | scripts/import_funscripts.py:576-587 | Each candidate of a bucket adds the bucket's factor to its weight |
| Catalogue.Bucketed | scripts/import_funscripts.py:572-574 | Buckets hold the candidates of their key in order; keys in the order first met |
| Catalogue.SizesAddUp | scripts/import_funscripts.py:572-574 | The buckets partition the candidates |
| Catalogue.SelectGroups | scripts/import_funscripts.py:614-618 | Each bucket's picks are the varied group of its candidates at its quota, and nothing else is picked |
| Catalogue.TrimToTarget | scripts/import_funscripts.py:620-633 | Trimming keeps exactly the target and nothing it drops is heavier than anything it keeps |
| Catalogue.CurateCatalog | scripts/import_funscripts.py:567-645 | Exactly min(target, n) candidates drawn from the input, in the catalogue's order; quotas apportioned from the bucket weights; every bucket's picks are its varied group when the target has room; else at most one of each group and no bucket left out heavier than one kept |
| LayeredGeometry.ShapedLayers | internal/chat/layered_geometry.go:14-78 | The layer each geometry leaves on each axis; every other axis is untouched |
| LayeredGeometry.GeometryConforms | internal/chat/layered_geometry.go:14-144 | A geometry that applies is accepted by its own validator, keeps 10 <= floor <= effective ceiling <= width, and leaves speed, pace variation and the pace layer alone |
| LayeredGeometry.GeometryIsIdempotent | internal/chat/layered_geometry.go:14-78 | Applying a geometry twice is applying it once |
| LayeredMeanings.GeometryAppliesExactly | internal/chat/layered_geometry.go:14-78 | Nine geometries are known and three need a band of twenty; every other name is refused |
| LayeredMeanings.GeometryBand | internal/chat/layered_geometry.go:14-78 | The band, variation mode and anchor each geometry leaves |
| LayeredMeanings.GeometryEnvelope | internal/chat/layered_geometry.go:14-78 | The least and greatest stroke width each geometry leaves, as numbers of the band's width |
| LayeredMeanings.ConformsExactly | internal/chat/layered_geometry.go:80-144 | What each geometry's own validator asks, axis by axis |
| LayeredMeanings.ScoreIsValidExactly | internal/motion/flow.go:76-176 | A score is accepted exactly within the literal limits of its fields, layers and phrase |
| LayeredGeometry.PhraseBounds | internal/chat/layered_phrase.go:95-112 | The first pass finds the band and the shortest stroke |
| LayeredGeometry.ApplyPhraseGeometry | internal/chat/layered_phrase.go:95-122 | The two passes equal the phrase specification |
| LayeredGeometry.PhraseIsEnveloped | internal/chat/layered_phrase.go:95-122 | A counted phrase gives the tightest band around its turns and the same order of widths |
| LayeredMeanings.PhraseAnchor | internal/chat/layered_phrase.go:113-122 | When all tops are equal and not all bottoms, the anchor is 100; when all bottoms are equal and not all tops, 0; otherwise the score's own |
| LayeredMeanings.PhraseEditMeans | internal/chat/layered_phrase.go:66-122 | After an accepted edit with a phrase the phrase is stored, only the pace layer stays, the band is the tightest around the groups, the floor their shortest stroke, the ceiling its width, and the anchor as above |
| LayeredLayers.EditLayers | internal/chat/layered.go:223-240 | The edit loop equals the sequential specification |
| LayeredLayers.FollowLayers | internal/chat/layered_follow.go:12-37 | The link loop equals the sequential specification |
| LayeredLayers.ApplyLayeredLayers | internal/chat/layered.go:211-242 | Removals, edits and links in order, refusals included |
| LayeredLayers.EditAllIs | internal/chat/layered.go:223-240 | Editing in sequence succeeds exactly when every edit is fine on its own, leaves on each axis what its edit says, and keeps axes distinct |
| LayeredLayers.FollowAllIs | internal/chat/layered_follow.go:12-37 | Linking in sequence succeeds exactly when every link resolves and changes only pace |
| LayeredLayers.ApplyLayersIs | internal/chat/layered.go:211-242 | The outcome of a layer edit, per axis, without reference to order |
| LayeredLayers.LayerEditsAreConfluent | internal/chat/layered.go:211-242 | Layer edits and removals in any order succeed alike and leave every axis the same |
| LayeredMeanings.EditedLayerMeans | internal/chat/layered.go:211-242 | After an accepted edit each edited axis holds the layer told, its unnamed values kept or given their defaults, but for the timing a link gives it; a removed axis holds none |
| LayeredEdit.OnlyLayeredControls | internal/chat/layered.go:158-164 | The loop over the names, in any order, accepts exactly the seven Layered controls |
| LayeredEdit.MergeControls | internal/chat/llm_lab.go:243-252 | Writing the named controls, in any visiting order, writes exactly those, or refuses a name outside the eleven the merge accepts |
| LayeredEdit.MergeAdjustments | internal/chat/llm_lab_edits.go:81-112 | Shifting the named controls, in any visiting order, shifts each once or refuses |
| LayeredEdit.ApplyControls | internal/chat/layered.go:163-174 | Set, shift and decode equal one formula per control |
| LayeredEdit.ApplyLayeredPhrase | internal/chat/layered_phrase.go:66-93 | A phrase replaces the field; a spatial edit drops a stored phrase; both together are refused |
| LayeredEdit.ApplyLayeredEdit | internal/chat/layered.go:151-209 | The transaction equals its specification; a rejected edit returns the original score |
| LayeredEdit.ParseLayeredReply | internal/chat/layered.go:71-146 | The parser refuses a layer edit that names nothing beside its axis, then applies; a refused reply returns the original score |
| LayeredLaws.AcceptedIsValid | internal/chat/layered.go:189-208 | An accepted score is valid, with distinct axes, ordered widths, and its named geometry |
| LayeredLaws.TimingIsExactlyAsNamed | internal/chat/layered.go:163-182 | Named timing values are set or shifted, a relative speed clamped to the limits, everything unnamed kept |
| LayeredLaws.SpaceIsExactlyAsNamed | internal/chat/layered.go:163-194 | Without a geometry or phrase, band, anchor, mode and envelope move only where named |
| LayeredLaws.NamedSpaceSurvivesGeometry | internal/chat/layered_geometry.go:146-163 | A geometry never moves what the same edit names |
| LayeredLaws.UnnamedAxesAreKept | internal/chat/layered.go:211-242 | An axis no layer edit names keeps its layer |
| LayeredLaws.FollowSeesTheFinalSource | internal/chat/layered_follow.go:10-37 | A linked pace layer ends with the timing its source ends with, edits of the same transaction included |
| LayeredLaws.EditsAreConfluent | internal/chat/layered.go:149-209 | Permuting layer edits and removals changes neither acceptance nor the score, up to stored layer order |
| LayeredLaws.MistypedControlStillReshapes | internal/chat/layered_phrase.go:66-93 | An edit of one wrongly typed absolute control is accepted, sets nothing, and still drops a stored phrase when the control reshapes the field |
| LayeredLaws.MistypedControlIsSkippedExactly | internal/chat/layered.go:166-176 | Such an edit leaves the score alone if and only if the control is not one of band, anchor and mode, or there is no phrase |
| LayeredLaws.MistypedControlMeans | internal/chat/layered.go:163-194 | Any edit with a wrongly typed absolute control against the same edit without it: refused if it is shifted too; the same if it does not reshape the field; else refused beside a phrase or a geometry that moves it, and otherwise the edit without it on the score without its phrase |
| LayeredLaws.MistypedModeDropsThePhrase | internal/chat/layered_phrase.go:66-79 | A numeric variation mode drops the phrase of every score that has one |
| LayeredLaws.SetSpeedIsTakenOrKept | internal/chat/layered.go:166-176 | An accepted absolute speed is taken if it is an integer, and ignored otherwise |
| HostedLayered.SplitControls | internal/chat/hosted_layered.go:56-76 | Controls are partitioned by operation, in any visiting order, or refused |
| HostedLayered.CheckLayers | internal/chat/hosted_layered_layers.go:28-66 | Accepts exactly the well-formed layer operations |
| HostedLayered.SplitLayers | internal/chat/hosted_layered_layers.go:25-70 | The loop builds one edit or removal per axis, in order |
| HostedLayered.NormalizeOperations | internal/chat/hosted_layered.go:27-86 | The translation equals its specification; anything malformed refuses it |
| HostedLayered.TranslationNeverOverlaps | internal/chat/hosted_layered.go:27-86 | Layers written as an object cannot express an overlap, so from them the set-and-adjust and duplicate-axis errors are unreachable |
| HostedLayered.HostedControlsMeanWhatTheySay | internal/chat/hosted_layered.go:27-86 | Translating and applying sets or shifts each of the seven controls directly, relative speed held to the limits; the phrase goes exactly if the edit reshapes, and everything else stays |
| HostedLayered.LayersAcceptedExactly | internal/chat/hosted_layered_layers.go:13-88 | Past the parser, the layer operations go through if and only if each one can be carried out on its own axis |
| HostedLayered.ParseHostedLayeredReply | internal/chat/hosted_layered.go:18-26 | Translating, parsing and applying equals the specification; a refusal returns the original score |
| HostedLayered.HostedMeansDirect | internal/chat/hosted_layered.go:14-116 | A control-and-layer reply is accepted if and only if every edited axis names something to change, each operation can be carried out and the directly edited score is valid, and then the result is that score up to stored layer order |
| HostedLayered.EmptyLayerEditIsRefused | internal/chat/layered.go:129-143 | An edit operation with an empty value could be carried out on any score, and the parser refuses it on every one |
| HostedLayered.HostedLayersMeanWhatTheySay | internal/chat/hosted_layered_layers.go:13-88 | Each axis ends as its operation says; a followed pace takes its source's final timing |
| CreativeV2.GatherControls | internal/chat/creative_v2.go:117-130 | An item's controls are added unless one is already there |
| CreativeV2.CollectEdits | internal/chat/creative_v2.go:91-130 | Items are gathered into one set of edits, refused exactly when a control is written twice |
| CreativeV2.GroupingDoesNotMatter | internal/chat/creative_v2.go:85-130 | Grouping and order of items cannot be seen in what is gathered |
| CreativeV2.CopyFields | internal/chat/creative_v2.go:198-218 | A group's fields are written in any visiting order with one result |
| CreativeV2.ApplyEntries | internal/chat/creative_v2.go:131-160 | Edits applied in any visiting order write exactly the fields each owns, or are refused |
| CreativeV2.ApplyCreativeV2 | internal/chat/creative_v2.go:117-175 | The merge equals its specification; a refused edit returns the original score |
| CreativeV2.FieldsEndAsWritten | internal/chat/creative_v2.go:117-175 | Every field ends as its control writes it or as it was; only a local width is fitted to the band |
| CreativeMeanings.CreativeEditMeans | internal/chat/creative_v2.go:117-218 | An edit is accepted if and only if every control is given in full and the score with each field written directly, a local width fitted to the band, is within literal limits; and that is the new score |
| CreativeV2.UnnamedControlsAreKept | internal/chat/creative_v2.go:161-170 | A field whose control is not named keeps its value, but for a local width the new band cannot hold |
| CreativeV2.RegroupingIsInvisibleExactly | internal/chat/creative_v2.go:91-115 | Two groupings have one outcome if and only if the item cap treats them alike, or the edits are refused anyway |
| CreativeV2.EmptyItemsCount | internal/chat/creative_v2.go:105-107 | Nine empty items are refused where none is accepted, though both write nothing |

## Left out

- Titles, diagnostics, previews' text, personas, the session workspace (create, activate, save, delete, startup reconciliation) and clearing a conversation.
- MessageLog.Conversations.AppendTo: text arrives trimmed; white space is cut before the model begins.
- Read cursors: one clamped monotone marker per client, easy beside the recovery protocol.
- Sequence-mode pages of the older protocol: their range is modelled, their reader is not.
- The browser's cut to the last 200 display entries after merging (`web/src/components/useChatHistory.ts:285`), which counts entries that are not messages of the log.
- ChatDrain.ReadNeverFails: the bound on one row's JSON preview is an assumption of the row type, not derived from the truncating query and the JSON writer.
- ChatInvariant.MigratedIsValid: the read cursors the same migration bounds are not modelled.
- ChatDrain.EveryPageIsWellFormed: for requests a reader can issue (a snapshot the server gave out); content lengths, roles and the server epoch are not modelled.
- AuditStore.RetryChangesNothingExactly: for batches of new events within the row limit (a recorder batch has at most 65) with no other append between the attempts; account transactions append too, and AuditStore.ReinsertsNothingExactly says what their evictions change.
- AuditRecorder.CleanStopExplainsEverything: wall-clock timers are arbitrary tick, cancel and failure steps; whether a shutdown commits in time is not modelled.
- Audit event documents, page byte limits and the actor context.
- Cryptography, random bytes and the password slot: hashes, keys and codes are fresh unique tokens, equal only to themselves.
- AccountRuns.UpgradedIsInv: the rows an older version stored are taken as sound; that version is not modelled.
- AccountRuns.StepKeepsInv: each transaction reads the clock once; several readings inside one transaction are one instant.
- A stored idle policy outside the supported values, which stops startup.
- The audit row an account transaction writes beside its change.
- Linked accounts, control profiles, profile images, session names and public listings.
- User names are compared as stored; trimming and case folding happen before.
- AccountStore.Store.ReplaceRecoveryCodes: keeps the invariant for a fresh batch of eight, which the random source provides.
- ClipRepair.MergingKeepsTimes: positions are exact reals where the script uses binary floating point.
- ClipRepair.AccelerationBoundNeverBinds: the square root is any nonnegative number with that square.
- Clip names, tags, statistics and the stalling list.
- CatalogueQuotas.Share: exact reals where the script divides binary floats; bucket factors are any positive numbers.
- Catalogue.SelectDiverseGroup: the ranking key is any comparison; the messages about skipped candidates are not modelled.
- Deduplication, action splitting and naming in the importer.
- Discovery.Scanner.Advertised: whether an advertisement matches the profile is given, and the final sort by strength is the library's.
- LayeredEdit.ApplyLayeredEdit: scores of other stroke grammars (gestures, sections, strokes, freestyle windows) and the refusal to edit them; whether a regional phrase's connecting travel reverses only at real turns is given; limits are the normalised ones; which of several errors is reported is not distinguished.
- HostedLayered.TranslationNeverOverlaps: a reply may also write its layers as an array beside `remove_layers`, which the translation passes on and which can repeat an axis; that form is the local grammar's and is refused by `LayeredEdit.ApplyLayeredEdit`.
- LayeredEdit.ParseLayeredReply: its checks of the reply text, the mood and explicit nulls are not modelled.
- HostedLayered.NormalizeOperations: edits with control operations and layers by axis only; composition, stroke lengths and recall are not translated.
- CreativeV2.ApplyCreativeV2: score fields the edit cannot reach, other than the stroke-width floor, are not modelled.
- JSON lexing: maps, lists and typed values are the starting point.
- The motion engine, devices, providers, HTTP and the browser beyond its page checks and merge.
