# uPaste: a model of its stores, limits and codecs

uPaste keeps each File share in two stores that cannot commit together: rows in SQLite and files in
an object directory. Around them sit an expiry and retention state machine, a maintenance pass that
purges and reconciles, bounded rate limiters, an admin listing with cursors, and one wire format
implemented twice. This project models that logic and proves what the code is for.

| file | what it holds |
|---|---|
| `Lifecycle.dfy`, `LifecycleProofs.dfy`, `LifecycleLeftovers.dfy` | the two stores under interleaving: uploads, deletions, maintenance passes and process stops, one step at a time |
| `Faults.dfy`, `ObjectStore.dfy`, `ShareService.dfy`, `Uploads.dfy` | the same code as classes that update their state, with an arbitrary set of failing calls |
| `Shares.dfy`, `ShareProperties.dfy` | the tables, what each operation does to them, and what whole runs keep |
| `Creation.dfy`, `Ownership.dfy` | when a creation succeeds and what it stores; who may change a share, and what leaves it alone |
| `Reconciling.dfy`, `Maintenance.dfy` | the reconciliation of the directory, the purge, and the pass that does both |
| `Recovery.dfy`, `Refinement.dfy` | what a pass makes of any history, and the classes as steps of the interleaved model |
| `RateLimits.dfy`, `RateLimitRuns.dfy`, `RegistryRoom.dfy`, `AbuseControl.dfy`, `AdminSessions.dfy` | token buckets in bounded registries, when these have room, and the two places that use them |
| `Ordering.dfy`, `AdminListing.dfy`, `Pagination.dfy` | the keyset-paginated admin listing, its cursor, and the traversal of its pages |
| `Base64Url.dfy`, `EncryptedText.dfy`, `WireFormat.dfy` | the canonical base64url of RFC 4648 and the encrypted-text envelope, Go and TypeScript side by side, and the format byte for byte |
| `Migrations.dfy`, `ClientAddress.dfy` | the migration runner and the trusted-proxy address resolution |

Times are integers in nanoseconds, except where the tables store whole milliseconds. Random values,
clock readings and the contents of requests are arguments. An operation is also given the calls that
fail; a failed call reports an error and changes nothing. Methods that the source writes as loops over
mutable state are methods with loops here, each tied to a function of the state before it, and the
properties are lemmas about those functions. The tests that decide what a caller gets (the owner token,
the expiry, the filter of a listing, the room in a registry, the prefix of a proxy) are each proved equal
to a condition in plain numbers and bytes.

Assumed throughout: storage keys and identifiers are fresh; a transaction whose commit reports failure
did not commit; a stop is a stop of the process, not a loss of power. Where a property needs
non-decreasing clock readings, its `requires` says so.

What the proofs found:

- The safety of the object directory rests on commits coming less than the grace period (30 minutes)
  after the last staged write, and no larger limit would do (`GraceIsTheLimit`). The upload deadline of
  10 minutes and the busy timeout of 5 seconds keep ordinary requests far inside it
  (`UploadLimitsAreSafe`, `PassSparesUploads`); a suspended process is not bounded.
- A registry has no room for an unknown client exactly when, after the sweep that is due, `max` clients
  are left; the upload and read limits sweep once more before they refuse, the admin login does not
  (`NoRoomIff`). So the limits forget nothing that matters while fewer than `max` other clients come in
  ten minutes, and fewer than 4096 other addresses in twenty for the login (`ControlIsTransparent`,
  `LoginHasRoom`).
- The create response carries an expiry that a later read does not show exactly when the default
  lifetime is not a whole number of milliseconds (`CreateThenGet`): the tables truncate it.
- An expired share can come back, because an update reads the clock before its transaction begins.
  `RevivedIff` says exactly when; with readings taken in order it cannot (`NoRevival`).
- The source takes its readings before it takes the lock, so they can arrive out of order. What the
  limiters guarantee then is `StretchBound`; the familiar bound on a window follows for readings in
  order and fails otherwise (`BackwardReadingsBreakTheWindow`, `LoginWindowNeedsOrder`). For admin
  sessions `LookupFollowsHistory` is exact in any order, and `EarlierReadingMissesASession` shows that
  its extra condition bites.
- The Go and TypeScript decoders disagree on one text only, the empty one under a minimum of zero
  (`DecodersAgree`); no caller passes that minimum.
- Text beginning with U+FEFF, or holding a lone surrogate, does not come back unchanged from the
  browser's encryption; all other text does (`EncryptDecrypt`).
- Behind a chain in which every entry is trusted, what a client puts in front of the header decides the
  address (`PrependedEntries`); behind any other chain it cannot.

## Model

| member | source | states |
|---|---|---|
| LifecycleProofs.NextKeepsInv | internal/share/service.go:144-200 | every step of every upload, deletion, maintenance pass or stop keeps the invariant that ties rows, stage files, objects, reference snapshots and the clock together |
| LifecycleProofs.RunKeepsInv | internal/maintenance/maintenance.go:42-89 | so does every run, however the steps interleave |
| LifecycleProofs.EveryRowHasItsObject | internal/objectstore/local.go:215-219 | in every reachable state a committed file row has its object, unless it was committed the grace period or more after its last staged write |
| LifecycleProofs.TimelyRunsAreNeverLate | internal/share/service.go:25 | when every commit comes less than the grace period after the last staged write, the exception is empty |
| LifecycleLeftovers.RunKeepsAccounted | internal/share/service.go:166-173 | every object without a row and every stage file stays in the hands of a process, or on record as left by a failed removal or a stop; clean runs record nothing |
| LifecycleLeftovers.NothingElseIsLeftBehind | internal/share/service.go:148-199 | in every reachable state only failed removals and stops leave anything behind |
| LifecycleLeftovers.QuietStoresAgree | internal/share/service.go:144-373 | after a timely run without failed removals or stops, and with nothing under way, the objects are exactly those of the rows and there is no stage file |
| LifecycleLeftovers.GraceIsTheLimit | internal/maintenance/maintenance.go:13-18 | all runs whose commits come less than w after the last staged write have an object for every committed row if and only if w is at most the grace period |
| LifecycleLeftovers.LateCommitCanLoseItsObject | internal/maintenance/maintenance.go:65-82 | for every larger w, a run that keeps to w, commits once, exactly the grace period after the last write, and ends with a committed row without its object |
| LifecycleLeftovers.UploadLimitsAreSafe | internal/database/database.go:74-84 | in every run whose commits come no later after the last staged write than the transfer deadline and the busy timeout together, every committed row has its object |
| ObjectStore.Local.Stage | internal/objectstore/local.go:77-126 | under the first of eight drawn names that is free, a stage file with the time of its writing exactly when 1 to limit bytes arrive and nothing fails; otherwise exactly which error, and no stage file unless its removal failed |
| ObjectStore.FirstFreeIsFirst | internal/objectstore/local.go:88-103 | the stage file takes the first drawn name that nothing in the directory has |
| ObjectStore.StageNamesInPlainTerms | internal/objectstore/local.go:173-187 | a name is a stage name exactly when it begins with ".stage-" |
| ObjectStore.Local.Delete | internal/objectstore/local.go:150-166 | the object is gone exactly when it was absent or a removable regular file; no other file is touched |
| ObjectStore.Staged.Commit | internal/objectstore/local.go:272-308 | exactly when publishing succeeds, a repeated call included; the object keeps the stage file's time and the stage name goes; after any failure no other file is touched and an object that was there before is as it was |
| ObjectStore.Staged.Abort | internal/objectstore/local.go:309-319 | the stage file goes unless its removal fails, objects stay, and a second call does nothing |
| ObjectStore.TouchChild | internal/objectstore/local.go:247-252 | writing or removing the final name of one key changes no other key's object and no stage file |
| ShareService.Service.CreateText | internal/share/service.go:217-240 | succeeds exactly when the payload is within its limits, the identifier unused, the digest of 32 bytes, a requested expiry in time and no call fails; row and answer then carry the requested expiry to the millisecond, the default one under a public policy, and none otherwise; on failure the tables are unchanged |
| ShareProperties.ActiveShareIsStored | internal/share/service.go:554-636 | on well-shaped tables a read succeeds exactly for a row that has not expired, and yields the row with its one payload |
| ShareService.Service.Get | internal/share/service.go:242-244 | not found without a row, expired by the test of the purge query, and otherwise, on well-shaped tables, the row with the one payload of its kind |
| ShareService.Service.Update | internal/share/service.go:257-332 | exactly when it succeeds, whatever calls fail; then the tables of the update, by the holder of a token with the digest of the row, of a live share, within the limits of its kind and policy; on every error the old tables, also when text was written before the expiration was refused, and everybody else gets not found, expired or unauthorized |
| ShareService.Service.WritePayload | internal/share/service.go:274-304 | the payload part of an update, inside its transaction: of the kind and privacy of the row, within the limits, or exactly which error |
| ShareService.Service.Delete | internal/share/service.go:334-373 | for a live share and a token with the digest of its row, the row is gone and then the object, a cleanup failure only when the object could not be removed; everybody else is refused as not found, expired or unauthorized, and nothing has changed |
| ShareService.Service.AdminDelete | internal/share/admin.go:193-229 | the same for the administrator, expired shares included |
| ShareService.Service.OpenFile | internal/share/service.go:202-215 | opens an object exactly when a read shows a file share whose object is present, and the object of that share |
| ShareService.Service.CreateFile | internal/share/service.go:144-200 | exactly when it succeeds, in terms of sizes, names, times and failing calls, and with which error it fails; then row and object are there, with the expiry that was asked for or that the policy gives, and the stage file is not; otherwise the tables are unchanged and, removals succeeding, neither object nor stage file is left |
| ShareService.Service.InsertFile | internal/share/service.go:178-199 | the transaction alone: committed exactly when rows and publication succeed, with the object published between the two inserts |
| Uploads.AnswerIffUnacceptable | internal/httpapi/httpapi.go:431-490 | the parts are answered early exactly when they are not one good metadata part and one good file part, in either order, and nothing else |
| Uploads.HeadsInPlainTerms | internal/httpapi/httpapi.go:395-422 | the parts are read exactly when a slot is free, both deadlines are set, at most 66 MiB are announced and the body is multipart; otherwise the first of these that is wrong is answered |
| Uploads.PartsInPlainTerms | internal/httpapi/httpapi.go:431-490 | which single part is taken: JSON metadata of at most 64 KiB without a file name, or a named file of 1 byte to 64 MiB that can be staged |
| Uploads.PartAnswersInPlainTerms | internal/httpapi/httpapi.go:431-490 | what a part that is not taken is answered: too large, a bad request, or a failure of the server |
| Uploads.Handler.ReceiveParts | internal/httpapi/httpapi.go:423-490 | the first part that is refused decides the answer; otherwise it goes on with what the two parts carry; the stage file is owned or removed on every way out |
| Uploads.Handler.CheckMetadata | internal/httpapi/httpapi.go:491-513 | goes on exactly with FILE, STANDARD and a given expiration; FILE with ENCRYPTED is the unsupported type; anything else is a bad request |
| Uploads.Handler.CreateFile | internal/httpapi/httpapi.go:395-522 | all or nothing for every request, every sequence of parts and every failure point: exactly which inputs are created, what row they leave and when it expires, and which answer the others get, from the upload slot to the commit |
| Shares.ExpiryTestsAgree | internal/domain/domain.go:67-69 | the purge query, the truncated service clock and the exact clock agree for all nanosecond times |
| ShareProperties.CreateKeepsShape | internal/share/service.go:375-406 | a creation keeps every row with exactly one payload of its kind and privacy |
| ShareProperties.UpdateKeepsShape | internal/share/service.go:257-332 | so does an update |
| ShareProperties.RunKeepsShape | internal/share/service.go:375-406 | so does every run of creations, updates, deletions and purges |
| ShareProperties.ReadsNeverMismatch | internal/share/service.go:600-634 | so in no run from the empty tables does a read report a payload that does not match its row |
| Creation.CreateSucceedsIff | internal/share/service.go:144-240 | a creation succeeds exactly when its payload is within the limits in bytes, identifier and storage key are unused, the digest has 32 bytes, and a requested expiry, cut to the millisecond, is after now and under a public policy within the maximum |
| Creation.CreateStores | internal/share/service.go:464-480 | the whole new row with its payload, and the answer: both expire at the requested time cut to the millisecond, at now plus the default for none under a public policy, and never for none otherwise |
| Creation.CreateRefusals | internal/share/service.go:464-499 | which error a refused creation gets: the payload, then an expiry that is past, then one beyond the maximum, then the storage |
| Creation.LimitsInPlainTerms | internal/share/service.go:447-462 | the payload checks in bytes: 1 to 1 MiB of text, 19 to 1 MiB and 18 bytes of ciphertext under a 12 byte nonce, 1 byte to 64 MiB of file under 32 lower-case hexadecimal digits |
| Creation.ExpiryInPlainTerms | internal/share/service.go:464-499 | the normalized expiry, when it is refused, and that the row stores the answered one cut to the millisecond |
| Ownership.OnlyTheCreatorMayChange | internal/share/service.go:257-373 | ownership over runs: after a creation and any operations by anyone, while the row is there and unexpired, a deletion goes through exactly for the token of the creation, an allowed update exactly for that token, and every other candidate is unauthorized |
| Ownership.RunsSpareOthers | internal/share/service.go:257-373 | in any run whose updates and deletions of a share come with candidates that its row does not know, without a deletion of it by the administrator or a purge past its expiry, row and payload stay exactly as they were |
| Ownership.OperationsSpareOthers | internal/share/service.go:257-373 | the same for one operation, a creation under the same identifier included |
| Ownership.DeletionsInPlainTerms | internal/share/service.go:334-373 | a deletion leaves nothing of its share in any table and everything of every other share, the administrator's likewise |
| Ownership.RunsKeepOrigins | internal/share/service.go:275-332 | no run changes the verifier, kind, privacy or creation time of a row |
| Ownership.AuthorizedInPlainTerms | internal/share/service.go:519-552 | a caller is let through exactly for a live share and a token with the digest that its row holds; the others get not found, expired or unauthorized |
| Ownership.OwnerTokensInPlainTerms | internal/capability/capability.go:53-62 | an owner token is "up_o1_" and the encoding of 32 bytes, and nothing else |
| Ownership.ShareIdsInPlainTerms | internal/capability/capability.go:32-37 | a share identifier is the encoding of 16 bytes, and nothing else |
| ShareProperties.RunKeepsRetention | internal/share/service.go:464-500 | under a fixed public policy every row of every run expires by its creation time plus the maximum, whatever order the clock readings come in |
| ShareProperties.NoReadPastTheHorizon | internal/share/service.go:482-499 | at or past that horizon reads, owner checks, updates and deletions are all refused |
| ShareProperties.CreateThenGet | internal/share/service.go:464-480 | a read finds the share that the creation returned exactly when no default lifetime with a fraction of a millisecond was applied |
| ShareProperties.UpdateSucceedsIff | internal/share/service.go:257-332 | the exact conditions under which an update succeeds, in the terms of the service's own checks |
| Ownership.UpdateSucceedsInPlainTerms | internal/share/service.go:257-332 | the same without those checks: a live share, a token with the digest of its row, and a patch of the right kind, within the limits in bytes and within the retention of the share |
| Ownership.PatchesInPlainTerms | internal/share/service.go:275-316 | what a patch may do to a row, in bytes and nanoseconds |
| ShareProperties.UpdateChangesOnlyThePatch | internal/share/service.go:418-432 | a successful update changes the patched parts of one share and its update time and nothing else |
| ShareProperties.RevivedIff | internal/share/service.go:257-332 | exactly when an operation makes a share that is dead at some time live again, under either policy: an update with everything in order, whose reading precedes the expiry, that moves the expiry past that time or takes it away; its reading is then older than that time |
| ShareProperties.RevivalHasACause | internal/share/service.go:257-332 | over whole runs, a share that was dead at some time and is live at it afterwards was revived by one such operation |
| ShareProperties.NoRevival | internal/share/service.go:519-552 | so a share dead at some time stays dead for every later operation whose reading is not older |
| ShareProperties.StaleUpdateRevives | internal/share/service.go:258-267 | under either policy an update acting on an older reading brings an expired share back and makes it readable |
| ShareProperties.PurgeIsInvisible | internal/maintenance/maintenance.go:97-117 | a purge changes the answer of no later read except from expired to not found |
| Reconciling.ReconciledFiles | internal/objectstore/local.go:184-221 | file by file: what goes is exactly the stale stage files and the stale unreferenced objects |
| Reconciling.ClearedFiles | internal/objectstore/local.go:184-221 | file by file, what a pass leaves when it has removed these stage files and objects and no others |
| Reconciling.AllWorkReconciles | internal/objectstore/local.go:168-222 | with everything removed that there is to remove, that is the reconciled directory |
| Reconciling.ReconcileChildren | internal/objectstore/local.go:200-222 | the loop over one shard removes and counts its orphans and counts its anomalies, all of them exactly when no call fails, and some of them otherwise |
| Reconciling.ReconcileEntry | internal/objectstore/local.go:173-199 | one entry of the directory: a stage file, a shard, or an anomaly; done in full exactly when no call fails there |
| Reconciling.Reconcile | internal/objectstore/local.go:168-238 | exactly when a pass goes through; then the reconciled directory and the four counters as the sizes of the sets they count; otherwise part of that work and its counts, and nothing else |
| Reconciling.CountMissing | internal/objectstore/local.go:224-236 | the number of references without an object |
| Reconciling.AnomaliesInPlainTerms | internal/objectstore/local.go:173-221 | exactly which entries and children are anomalies: what is neither a regular stage file, nor a shard of two hexadecimal digits, nor in one a regular file whose joined name is a key |
| Maintenance.ExpiredInOrder | internal/maintenance/maintenance.go:97 | the expired identifiers, each once, in bytewise order |
| Maintenance.ExpiredInPlainTerms | internal/maintenance/maintenance.go:97 | the expired rows are those with an expiry at or before now, to the nanosecond |
| Maintenance.BatchIsTheFirst | internal/maintenance/maintenance.go:97-113 | a batch is the first 256 of them, or all when there are fewer |
| Maintenance.DeleteSelected | internal/maintenance/maintenance.go:115-130 | the delete loop: exactly the selected batch goes, with the keys of its file rows |
| Maintenance.PurgeBatch | internal/maintenance/maintenance.go:91-133 | one purge transaction: the first expired rows in order, at most a batch, or nothing when a call fails |
| Maintenance.DeleteObjects | internal/maintenance/maintenance.go:49-55 | the objects of the keys go where they can, and the two counters add up to the keys |
| Maintenance.NextBatch | internal/maintenance/maintenance.go:43-60 | each batch continues the listing of the expired rows as it stood at the start |
| Maintenance.Service.PurgeExpired | internal/maintenance/maintenance.go:43-60 | whatever fails, a first part of the expired rows is gone with their objects; without a failure min(E, 2048) of them |
| Maintenance.Service.RunOnce | internal/maintenance/maintenance.go:42-89 | the whole pass on both stores and every field of its result, and what a pass has done that an error ended anywhere |
| Maintenance.BrokenPassIsSafe | internal/maintenance/maintenance.go:42-89 | wherever a pass breaks off, every row that is left keeps its object, and young objects without a row and young stage files stay |
| Maintenance.SweptAtThirtyMinutes | internal/maintenance/maintenance.go:65-82 | after a completed pass the stage files and the objects that had no row are exactly those younger than 1,800,000,000,000 ns, and every older object that is left belongs to a row |
| Maintenance.PassSparesUploads | internal/maintenance/maintenance.go:13-18 | a pass, completed or broken off, leaves every stage file and every object without a row that is no older than the transfer deadline and the busy timeout together |
| Maintenance.DeletedThenReconciled | internal/objectstore/local.go:168-238 | deletion and reconciliation compose file by file, and the counters refer to the directory as it was at the start |
| Maintenance.PurgeAccounting | internal/maintenance/maintenance.go:43-64 | exactly min(E, 2048) of E expired rows go, the first in order, and no other row; the backlog is reported exactly when E exceeds 2048 |
| Maintenance.RepeatedPassesDrain | internal/maintenance/maintenance.go:43-64 | each further pass takes its share, and all rows are drained after exactly ceil(E / 2048) passes |
| Maintenance.Convergence | internal/maintenance/maintenance.go:42-89 | from any leftover state with quiet files, one pass leaves exactly the objects of the unexpired file rows, no stage file and no backlog, even when deletions fail during it |
| Recovery.RecoveryFromAnyHistory | internal/maintenance/maintenance.go:42-89 | the two models together: after any timely interleaved history, cut off anywhere and with any failed removals, one pass over the quiet stores leaves exactly one object for every unexpired file row, no stage file and no backlog |
| Refinement.UploadIsARun | internal/httpapi/httpapi.go:395-522 | every outcome of an upload request on the two stores is the outcome of steps of one process of the interleaved model |
| Refinement.DeletionIsARun | internal/share/service.go:334-373 | and so is every outcome of a deletion that has deleted the row |
| RateLimits.IdleIsFull | internal/abuse/control.go:97-104 | a client idle long enough to be dropped has only full buckets |
| RateLimits.EnterKeepsLevels | internal/abuse/control.go:72-94 | finding or making a client, with the sweeps that go with it, moves no bucket level |
| RateLimits.ServeLevels | internal/abuse/control.go:67-95 | one request: every level is what the passing of time gives, less one token where the request was admitted |
| RateLimitRuns.EvictionIsTransparent | internal/abuse/control.go:67-104 | on ordered requests that find room, a registry that drops idle clients answers as one that never forgets |
| RegistryRoom.NoRoomIff | internal/abuse/control.go:71-83 | a request finds no room exactly when the sweep that is due leaves no entry of its client, and max clients were seen within the idle period, or, without a second sweep, max clients are left by the first |
| RegistryRoom.UncrowdedRunsHaveRoom | internal/abuse/control.go:67-104 | from the empty registry, a run in which fewer than max other clients precede each request within the idle period never lacks room, in any order of readings; without the second sweep, within that and the sweep interval, and for readings in order |
| RateLimitRuns.ServeOwes | internal/abuse/control.go:67-95 | one request at any reading: the credit an account can have grows by at most the forward movement of the clock, less what it is admitted |
| RateLimitRuns.StretchBound | internal/abuse/control.go:67-104 | for readings in any order, over any consecutive stretch a client and kind, or everyone together, is admitted at most burst times and once more per interval of forward movement, through evictions and re-creations |
| RateLimitRuns.WindowBound | internal/abuse/control.go:84-95 | so for readings in order, in every window of length W, at most burst + W / interval times |
| RateLimitRuns.BackwardReadingsBreakTheWindow | internal/abuse/control.go:71-74 | under any single limit, a run of readings that go back and forth within one interval is admitted 2 * burst - 1 times, more than the window allows exactly when burst is above 2, and meets the bound for any order exactly |
| AbuseControl.Control.Allow | internal/abuse/control.go:67-95 | one request served by the registry; a disabled control admits everything and records nothing |
| AbuseControl.Control.Enter | internal/abuse/control.go:74-94 | the sweep when it is due, the second sweep when there is no room, and the refusal when there still is none |
| AbuseControl.Control.Sweep | internal/abuse/control.go:97-104 | exactly the clients idle for ten minutes are dropped |
| AbuseControl.ControlStretches | internal/abuse/control.go:53-95 | the limits in numbers for readings in any order, f being their forward movement: 5 + f/6s, 10 + f/2s, 60 + f/0.5s for a client and 200 + f/60ms for all |
| AbuseControl.ControlWindows | internal/abuse/control.go:84-95 | and for readings in order in any window of length W |
| AbuseControl.ControlForgetsNothingThatMatters | internal/abuse/control.go:20-26 | with these limits ten minutes refill every bucket, so dropping clients is invisible |
| AbuseControl.ControlNoRoomIff | internal/abuse/control.go:71-83 | with the numbers of the program: a sweep is due after a minute, drops clients silent for ten minutes, and room is lacking exactly for an unknown client beside max clients of the last ten minutes |
| AbuseControl.ControlHasRoom | internal/abuse/control.go:67-95 | while fewer than max other clients come within ten minutes there is room for every request |
| AbuseControl.ControlIsTransparent | internal/abuse/control.go:67-104 | so such a run in order is answered as by a control that never forgets a client |
| AdminSessions.Manager.constructor | internal/admin/manager.go:75-90 | no sessions and no login limits, and eight hours for a lifetime that is not positive |
| AdminSessions.Manager.Login | internal/admin/manager.go:100-131 | limited, unauthorized exactly for candidates other than the token of the verifier, without randomness, full at 64 unexpired sessions, or granted, and what each leaves behind |
| AdminSessions.OnlyTheTokenLogsIn | internal/admin/token.go:58-66 | with the verifier of a token and no collision with it, a login takes that token and no other candidate |
| AdminSessions.AdminTokensInPlainTerms | internal/admin/token.go:36-44 | an admin token is "up_a1_" and the encoding of 32 bytes, and nothing else |
| AdminSessions.GrantedIff | internal/admin/manager.go:117-131 | a session is granted exactly while fewer than 64 have not expired, lasts for the lifetime, and leaves those as they are |
| AdminSessions.Manager.Lookup | internal/admin/manager.go:134-149 | expired sessions go, and the record of the value is found if one is left |
| AdminSessions.Manager.CsrfMatches | internal/admin/manager.go:152-166 | accepts exactly the value of the session |
| AdminSessions.Manager.Logout | internal/admin/manager.go:169-174 | removes that session only |
| AdminSessions.Manager.ActiveSessions | internal/admin/manager.go:177-183 | the number of unexpired sessions |
| AdminSessions.Manager.SweepLocked | internal/admin/manager.go:208-214 | exactly the expired sessions go |
| AdminSessions.Manager.AllowLogin | internal/admin/manager.go:185-206 | one request served by the login registry, swept only when due |
| AdminSessions.Manager.SweepLimits | internal/admin/manager.go:188-195 | exactly the addresses idle for ten minutes are dropped |
| AdminSessions.RunFollowsHistory | internal/admin/manager.go:100-174 | the sessions hold exactly what history says is standing and no section has outlived |
| AdminSessions.LookupFollowsHistory | internal/admin/manager.go:100-174 | in every run, for readings in any order, a lookup succeeds exactly when a login returned the value, no logout followed, its lifetime is not over, and no section since had a reading past its end; it finds that login's record |
| AdminSessions.LookupInOrder | internal/admin/manager.go:134-149 | with a reading no earlier than those before it the last condition is void |
| AdminSessions.CsrfBelongsToItsSession | internal/admin/manager.go:152-166 | in every run, a CSRF value is accepted exactly when it belongs to the session that the lookup of the cookie finds |
| AdminSessions.SessionsAreBounded | internal/admin/manager.go:125-130 | at most 64 sessions in every run |
| AdminSessions.EarlierReadingMissesASession | internal/admin/manager.go:134-149 | a lookup one nanosecond before the end of a session misses it after a section at its end, and finds it without |
| AdminSessions.LoginStretch | internal/admin/manager.go:185-206 | at most 5 + f/12s attempts of an address over any stretch whose readings move forwards by f |
| AdminSessions.LoginWindow | internal/admin/manager.go:26-28 | so at most 5 + W/12s in any window of readings in order |
| AdminSessions.LoginWindowNeedsOrder | internal/admin/manager.go:100-103 | readings that go back and forth let 9 attempts through in 12 s |
| AdminSessions.LoginForgetsNothingThatMatters | internal/admin/manager.go:185-206 | dropping idle addresses is invisible to logins while there is room |
| AdminSessions.LoginNoRoomIff | internal/admin/manager.go:185-206 | an attempt finds no room exactly when the sweep that is due every ten minutes leaves 4096 addresses and not its own |
| AdminSessions.LoginHasRoom | internal/admin/manager.go:185-206 | in order and with fewer than 4096 other addresses in any twenty minutes there is room for every attempt |
| Ordering.Listing | internal/share/admin.go:107-131 | the rows in the order of the query, each once |
| Ordering.ListingUnique | internal/share/admin.go:107-131 | there is one such listing |
| Ordering.StringLessInPlainTerms | internal/share/admin.go:107-131 | the order of identifiers: by the first character that differs, a beginning before what it begins |
| AdminListing.FormatParses | internal/share/admin.go:279-303 | every integer comes back from its decimal text |
| AdminListing.CursorRoundTrip | internal/share/admin.go:279-303 | every int64 time and valid identifier comes back from its cursor, and no cursor is empty |
| AdminListing.AdminList | internal/share/admin.go:71-160 | one page of the filtered, ordered listing beyond the cursor, and a cursor exactly when more follow: every item is a row as it is, of the kind, privacy, identifier and lifecycle asked for at that nanosecond, in order of creation, within the limit, and on a first and only page every such row; bad filters, sorts and cursors are refused, and so is a query or a row that fails |
| AdminListing.PageAnswers | internal/share/admin.go:71-160 | any page of the ordered selection has these properties |
| AdminListing.MatchesInPlainTerms | internal/share/admin.go:83-105 | the selection row by row: active is no expiry or one after the clock, expired one at or before it |
| AdminListing.FiltersInPlainTerms | internal/share/admin.go:94-118 | which requests are refused and for what: another lifecycle, another order in any spelling, a cursor that does not decode |
| AdminListing.SortsInPlainTerms | internal/share/admin.go:107-114 | newest first for no order or "newest", oldest first for "oldest", in letters of either case |
| AdminListing.ItemsInPlainTerms | internal/share/admin.go:231-277 | an item is the row of its identifier, its times, expiry, size and, for a file, name and type |
| AdminListing.CursorsInPlainTerms | internal/share/admin.go:283-303 | a cursor is taken exactly when it is empty or decodes to a decimal number, a bar and a share identifier |
| Pagination.WalkIsOrdered | internal/share/admin.go:115-131 | walking by positions is strictly ordered whatever happens to the rows in between |
| Pagination.WalkIsComplete | internal/share/admin.go:115-131 | a row present for every page of a finished walk is shown |
| Pagination.StaticWalk | internal/share/admin.go:136-159 | over unchanging rows the pages together are the listing |
| Pagination.PageCountRoundsUp | internal/share/admin.go:136-159 | in max(1, ceil(n / limit)) pages |
| Pagination.FollowIsWalk | internal/share/admin.go:116-123 | following the opaque cursors is walking by positions |
| Pagination.TraversalUnderChange | internal/share/admin.go:71-160 | however tables change between requests, no row is shown twice and every row present and matching throughout a finished traversal is shown, in order |
| Pagination.TraversalOfStaticTables | internal/share/admin.go:71-160 | over unchanging tables, clock and filter the pages are exactly the ordered listing |
| Base64Url.EncodeDecodes | internal/httpapi/httpapi.go:760-774 | decoding undoes encoding |
| Base64Url.CanonicalIffEncoding | internal/capability/capability.go:92-104 | the canonical texts are exactly the encodings, of one byte string each |
| Base64Url.EncodeBase64URL | web/src/crypto/encryptedText.ts:107-114 | the browser's chunk loop computes the RFC 4648 section 5 encoding |
| Base64Url.BtoaIsEncode | web/src/crypto/encryptedText.ts:113 | btoa with its three replacements is that encoding |
| Base64Url.GoDecoderAccepts | internal/httpapi/httpapi.go:760-774 | the Go decoder accepts exactly the canonical encodings within the bounds, and returns those bytes |
| Base64Url.GoValidateAccepts | internal/capability/capability.go:92-104 | the capability check accepts exactly the canonical encodings of the wanted size |
| Base64Url.BrowserDecoderAccepts | web/src/crypto/encryptedText.ts:116-136 | the browser accepts exactly the same, the empty text excepted |
| Base64Url.DecodersAgree | internal/httpapi/httpapi.go:760-774 | the two agree on a text exactly when it is not the empty one under a minimum of zero |
| Base64Url.LineBreakTolerated | internal/httpapi/httpapi.go:764 | the library decoder reads through a line break that its callers then refuse |
| Base64Url.PadBitsTolerated | internal/capability/capability.go:93-103 | and through stray trailing bits, of which one setting is canonical |
| EncryptedText.DecodeAllOfEncoded | web/src/crypto/encryptedText.ts:22-23 | strict UTF-8 decoding undoes encoding, lone surrogates having been replaced |
| EncryptedText.DecodeAllIsEncoded | web/src/crypto/encryptedText.ts:23 | what strict decoding takes is the encoding of what it gives, so no other bytes decode |
| EncryptedText.ScalarInPlainTerms | web/src/crypto/encryptedText.ts:22 | a lone surrogate is sent as U+FFFD and every other code point as itself |
| EncryptedText.FragmentNamesOneKey | web/src/crypto/encryptedText.ts:70-75 | a fragment is accepted exactly when it is the prefix and the encoding of 32 bytes, and yields those |
| EncryptedText.EncryptDecrypt | web/src/crypto/encryptedText.ts:36-101 | decrypting under the same fragment gives the same format, and the same content exactly when it has no lone surrogate and no leading U+FEFF |
| EncryptedText.ServerAcceptsWhatTheBrowserSends | internal/httpapi/httpapi.go:734-758 | every produced payload passes the server's protocol, nonce and ciphertext checks |
| WireFormat.EncryptsTo | web/src/crypto/encryptedText.ts:77-101 | what is produced, byte for byte: version 1, format 1 to 3 and the UTF-8 of 1 byte to 1 MiB, sealed and encoded; anything else is refused |
| WireFormat.ServerTakes | internal/httpapi/httpapi.go:734-758 | the server takes exactly this protocol with the encodings of a 12 byte nonce and 19 to 1,048,594 bytes of ciphertext, and stores those bytes |
| WireFormat.BrowserOpens | web/src/crypto/encryptedText.ts:44-68 | the browser shows a text exactly when the fragment names a 32 byte key, the payload is such a payload, the cipher opens it, and the plaintext is version 1, the format and the UTF-8 of the text |
| WireFormat.Refusals | web/src/crypto/encryptedText.ts:48-63 | so another protocol, a nonce or ciphertext of another size or encoding, and another version are refused |
| WireFormat.DecodersInPlainTerms | web/src/crypto/encryptedText.ts:116-136 | both decoders give exactly the bytes that the text encodes, within the bounds |
| WireFormat.EncodedGroup | web/src/crypto/encryptedText.ts:107-114 | the encoding of one, two and three bytes in sextets, the highest bits first |
| WireFormat.Alphabet | web/src/crypto/encryptedText.ts:113 | the sixty-four characters |
| Migrations.Database.Apply | internal/database/migrate.go:48-63 | script and version become visible together or not at all |
| Migrations.Database.Migrate | internal/database/migrate.go:28-68 | one start of the program, as a function of the list, the failures and the schema |
| Migrations.UpgradeAddsInTurn | internal/database/migrate.go:37-64 | for any list at all, a start adds scripts without gap or repetition and the version counts them |
| Migrations.StartKeepsStep | internal/database/migrate.go:28-68 | the version names the applied prefix, and a start succeeds exactly when no remaining migration is disturbed |
| Migrations.StartOnAnySchema | internal/database/migrate.go:28-47 | on any schema at all: one newer than the program is refused, exactly then as newer, and left as it was; one below zero lacks a migration; and the version never falls |
| Migrations.Resumption | internal/database/migrate.go:28-68 | after any number of failed or cut-off starts, the first that succeeds has each migration applied once and in order |
| Migrations.ResumptionOfTheProgram | internal/database/migrate.go:20-26 | the same for the five migrations of the program, from an empty file |
| ClientAddress.IsTrusted | internal/abuse/control.go:191-198 | trusted exactly when some prefix contains the address |
| ClientAddress.ContainsV4 | internal/abuse/control.go:191-198 | an IPv4 prefix of length n contains exactly the aligned interval of 2^(32-n) addresses that holds its own |
| ClientAddress.ContainsV6 | internal/abuse/control.go:191-198 | an IPv6 prefix of length n contains exactly the aligned interval of 2^(128-n) addresses that holds its own, without a zone |
| ClientAddress.ContainsNoOther | internal/abuse/control.go:191-198 | no prefix contains an address of the other family, or none at all |
| ClientAddress.UnmapInPlainTerms | internal/abuse/control.go:164-189 | the IPv4-mapped form of IPv6 is the IPv4 address, and every other address is itself |
| ClientAddress.KeysCoincide | internal/abuse/control.go:172-181 | two addresses share a key exactly when they are one IPv4 address in either notation or lie in one IPv6 /64 |
| ClientAddress.ClientIP | internal/abuse/control.go:148-170 | the two loops compute the resolved address |
| ClientAddress.PartsInPlainTerms | internal/abuse/control.go:158 | the entries of the header have no comma, and a header without one is its only entry |
| ClientAddress.Resolution | internal/abuse/control.go:148-170 | an untrusted peer is itself, an unparsable entry gives the peer, and otherwise the rightmost untrusted entry or the peer |
| ClientAddress.PrependedEntries | internal/abuse/control.go:157-169 | parsable entries put in front never change an answer that came from the chain, and when none did, exactly what they decide |

## Left out

- Reconcile: a cancelled context during the count of missing references is not modelled; everywhere else it acts as a failing call.
- RunOnce: the pass is proved to be a run of the interleaved model only as far as its effect on the stores goes (`RecoveryFromAnyHistory`), not step by step as uploads and deletions are.
- ClientIP: reading addresses from text, including the splitting of host and port and the trimming of entries, is a parameter.
- Lookup: the second expiry test is dead after the sweep and is left out.
- UploadIsARun: an upload is matched with some steps at one reading of the clock; the times between its steps are the interleaved model's own.
- The upload and download slots: two counting channels that would only add easy members; whether a slot is free is an argument of the upload.
- The admin summary and the single admin read: counts over one snapshot.
- The sniffing of media types and the opening of the object root.
- Symbolic links, permissions and everything else in the directory beyond "regular file or not".
- Power loss: which unsynced writes survive one is not modelled, only a stop of the process.
- The floats of the rate limiter: credit is an exact integer, so a bound that holds with rounding at the last unit is not covered.
- JSON, MIME, RFC 3339 and HTTP routing, headers, deadlines as such, challenge providers, and the user interface.
- SHA-256, AES-GCM and the random generator: a function, an invertible cipher that adds 16 bytes, and arguments. Constant-time comparison is comparison.
- Key and identifier collisions: keys and identifiers are assumed fresh, and the compensation of an upload deletes by key.
- A share service without an object store: the program always gives it one.
