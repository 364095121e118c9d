# Home server: verified models of its stateful core

This project models the parts of the home server that must keep an invariant across many steps, interleavings or
crashes, and proves what they promise. Verify with `dafny verify dfyconfig.toml` (Dafny 4.11).

Each area has a specification on values (state, step function, invariant, theorems over whole runs) and, where the
server changes state in place, a class or loop that is proved equal to that specification. What a transaction decides
and what it leaves of every row is stated a second time, in terms of rows and request fields alone, and proved of the
specification: when it succeeds, which fields it sets, and what stays.

| area | files | what is modelled |
|---|---|---|
| Single-flight read cache | `CacheFlights`, `CacheProgress`, `CacheAnswers`, `CacheClient`, `CacheRead`, `CacheWrites`, `CacheWhole` | callers, supervisors and workers as program counters over the flight registry and the slot channel; `MGet` over an arbitrary environment and over every reachable cache |
| Site configuration | `SiteConfig`, `SiteOutcomes`, `SitePublisher`, `SiteRuntime` | publish, rollback and replay on current rows, append-only history and the global counters; any number of processes that read and install snapshots |
| Manuals | `Manuals`, `ManualSteps`, `ManualEffects`, `ManualStore`, `ManualCovers`, `ManualFiles` | ordered items, cover, status, revision, idempotent append, quotas; the two cover pickers; file bytes when a commit result is unknown |
| Migration | `SplitSql`, `SplitText`, `MigrationSchema`, `MigrationRuns`, `MigrationRunner`, `MigrationImport` | SQL splitter, structure comparison, marked DDL attempts cut off after any statement, the one-time account import |
| Hosted pages | `ProjectPruning`, `Projects`, `ProjectEffects`, `ProjectStore` | upload with pruning, publish, owner and moderator changes, cleanup, release files |
| Statistics | `ProjectStats` | sequenced snapshots of page counters |
| Limiters | `RateLimits` | fixed-window probe limiter; failure counters around a password check |
| Comment anchors | `Anchors`, `AnchorTexts` | page text, capture, quotation search, range |

## Modelling conventions

- A critical section, a channel operation or a database transaction is one atomic step. A rejected transaction returns
  the tables unchanged. Row and mutex locks are what makes this sound; lock acquisition itself is not modelled.
- Clocks, jitter, generated ids, authorisation outcomes, disk checks and database answers are parameters of a step.
  Theorems quantify over all of them.
- JSON texts and SHA-256 digests are symbolic: a codec with a round trip, a digest that determines its text.
- Integers are unbounded except where int64 overflow is the point (`ManualSteps.QuotaNeverOverflows`). The jittered TTL is
  computed in reals with every float64 result rounded by an arbitrary function that is off by at most half a unit in the
  last place (section 4.3 of IEEE 754), with or without a fused multiply-add.
- Characters stand for code points in the SQL splitter and for UTF-16 code units in the anchors.
- SQL queries are set, map and sequence expressions on the tables; window ranking and sorted listings are stated as
  predicates on their results.

## Findings

- Three tests that look defensive never fail in a state the transactions can reach: the affected-row test of a reorder
  (`ManualSteps.OrderNeverConflicts`), the row count of retired releases (`Projects.AllSelectedAreMarked`), and the row
  count and pointer clearing of the cleanup (`Projects.CleanupNeverFails`).
- The overflow guard of the quota check is needed: it makes wrap-around impossible (`ManualSteps.QuotaNeverOverflows`),
  and within the budgets it is silent exactly for sizes that fit int64 on top of both full budgets
  (`ManualSteps.OverflowGuardIsNeeded`).
- Files of a ready release are there exactly as long as the error path of its own upload
  (app/webprojects/projects.go:370-376) has not removed them, and that path removes them only after the
  acknowledgement of that upload's own commit was lost (`Projects.FilesLastUntilDiscard`, `Projects.ServedFilesExist`).
  `Projects.LostAckLosesFiles` is a run in which it does. The manuals upload avoids the problem by a follow-up read
  (`ManualFiles.NoRowLosesItsBytes`).
- The total statistics row does not depend on delivery order. The day rows do, unless the latest snapshot carries every
  date of the others: that is the exact condition (`ProjectStats.OrderMattersExactly`), and `ProjectStats.LateDaysAreLost`
  is a pair of snapshots that breaks it. The only producer (domain/service/webanalytics/snapshot.go:267-312) avoids such
  pairs within the retention window: it sends every day it still holds, and forgets a day only once a snapshot with it has
  been acknowledged (domain/service/webanalytics/redis.go:326-378) or the day has left the window.
- The limiter's bound of twice the limit needs calls in clock order, but the code reads the clock before it takes the lock
  (api/middleware/account.go:255-256). `RateLimits.LateCallsAdmitMore` breaks it with calls two units late;
  `RateLimits.IntervalAdmits` is the bound that holds for any lag shorter than a window.
- The account table check accepts one extra reviewed column; `MigrationSchema.AvatarKeepsBase` shows that this exception
  is what keeps the upgrade's own result acceptable to its planner.

## Model

| member | source | states |
|---|---|---|
| CacheFlights.StepKeepsInv | utils/cache/flight.go:31-151 | every atomic step of a caller, supervisor or worker keeps the registry, ownership, close-count and slot invariants |
| CacheFlights.RunKeepsInv | utils/cache/flight.go:31-151 | every interleaving keeps them, and a completed flight never changes again |
| CacheFlights.OneFlightOneOwner | utils/cache/flight.go:57-78 | at most one flight per key, registered while open, owned by exactly one caller about to spawn or live supervisor; each flight is closed once when done and never before |
| CacheFlights.ClosingDeletesOnlyItsOwn | utils/cache/flight.go:140-150 | a closing supervisor finds its own open flight under each of its keys, completes exactly those, and touches no other generation's flight |
| CacheFlights.SlotConservation | utils/cache/flight.go:46-77 | tokens equal callers holding a slot plus generations whose worker has not exited; running loaders never exceed the capacity; a release finds a token; a quiet client has returned every slot |
| CacheProgress.RankNeverRises | utils/cache/flight.go:31-151 | every open flight has a rank of at most six that no step of any caller, supervisor or worker raises and each step of its owner towards the close lowers |
| CacheProgress.OwnerCanAdvance | utils/cache/flight.go:111-151 | in every state of the invariant some such step of the owner, the expiry of its deadline counted, is enabled |
| CacheProgress.EveryFlightCloses | utils/cache/flight.go:31-151 | in every interleaving from every reachable state a flight is completed once its owner has taken six advancing steps, and until then the next one is enabled |
| CacheFlights.WaitersSeeTheSource | utils/cache/flight.go:81-104 | every flight a finished caller consumed was completed with a value sound for the fixed source; stopping early carries an error |
| CacheAnswers.EveryAnswerHasASource | utils/cache/flight.go:111-198 | in every run a completed flight carries what the loader of some generation answered for its key, value, absence, encoding failure, error or panic, or the deadline error of a generation that expired |
| CacheAnswers.LateResultsAreDiscarded | utils/cache/flight.go:111-150 | in every run, once a load's deadline has passed before its result was taken, each of its flights ends with the deadline error whatever the worker still returns |
| CacheAnswers.EveryReturnHasAReason | utils/cache/flight.go:46-78 | in every run a caller returns without an error of its own exactly after its last flight, with its cancellation otherwise, and with the queue's error when it never got a slot |
| CacheAnswers.JoinersTakeNoSlot | utils/cache/flight.go:33-45 | a caller whose keys all have a flight waits at once and takes no slot; any other one queues |
| CacheFlights.JoinedAll | utils/cache/flight.go:43-45 | the fast path's length test succeeds exactly when every key has a flight |
| CacheClient.Client.JoinExisting | utils/cache/flight.go:35-42 | the first locked loop collects exactly the flights already registered |
| CacheClient.Client.RegisterLeaders | utils/cache/flight.go:57-72 | the second locked loop equals the registration specification; leaders are distinct and are exactly the keys owned |
| CacheClient.Client.CloseFlights | utils/cache/flight.go:140-150 | the closing loop, in any map order, equals the specified closing of the owned flights |
| CacheRead.LookUp | utils/cache/cache.go:163-190 | a negative answer means the key is not in the source, a hit carries the source's value and is fresh, anything malformed is a miss |
| CacheRead.ReadBatch | utils/cache/cache.go:140-193 | exactly the usable hits are served and exactly the keys without a usable reply are handed to the loader, in order; every key is served correctly, known absent, or handed on; whatever was not handed on was fresh when read |
| CacheRead.AwaitFlights | utils/cache/flight.go:81-104 | exactly the flights reached before a cancellation whose data decode are returned, and the error is nil exactly when the caller is not cancelled and every flight is free of errors and decodes; decoded values equal the source, and a nil error means every present key was decoded |
| CacheRead.ReadAndLoad | utils/cache/cache.go:112-130 | one batch adds exactly what the store serves and what is loaded of the rest, and its error is nil exactly when nothing is left to load or the loader, the queue and every flight read are free of errors |
| CacheRead.Unique | utils/cache/cache.go:95-101 | deduplication keeps exactly the keys asked for, each once |
| CacheRead.Merge | utils/cache/cache.go:123-127 | copies exactly the loaded values of the missing keys |
| CacheRead.MGet | utils/cache/cache.go:83-131 | every returned pair equals the source; a nil error means the result is exactly the source restricted to the keys, for any mix of hits, negatives, garbage, store failures, joined flights and cancellations; whatever its store, loader or flights deliver in a batch that is reached is returned, error or not; the error is nil exactly when no batch is cancelled and nothing goes wrong in any |
| CacheWrites.CacheEntry | utils/cache/cache.go:197-220 | whatever the jitter and the rounding, an entry expires by its hard deadline, within 1.1 times the TTL (exactly so below 10^14 ns, above that up to one part in 10^14) and at least a millisecond ahead, and no sooner than 0.9 times the TTL unless its deadline comes first; skipped only when caching is off, life is too short or the entry too large |
| CacheWrites.JitterBounds | utils/cache/cache.go:205-214 | with every float64 operation rounded, the jittered TTL stays within 0.9 and 1.1 of the policy up to the cut to whole nanoseconds and one part in 10^14, and the millisecond cut is met only below 0.9 of it |
| CacheWrites.CallLoader | utils/cache/flight.go:153-198 | one value per key that says exactly what the loader answered; exactly the answers worth caching are written unless caching is off, life is too short or the entry too large; sound write-backs only, each stamped by its own reading of the clock, no negative entry next to an error, a panic fails every key and writes nothing |
| CacheWrites.WriteBacksKeepStoreSound | utils/cache/flight.go:124-133 | any prefix of the write-backs keeps the store truthful about the source |
| CacheWrites.CachedThenFound | utils/cache/cache.go:163-190 | what a worker cached is what a reader finds: until it expires the value is served and an absence is believed |
| CacheWrites.ReachableStoreIsSound | utils/cache/flight.go:124-133 | after any history of write-backs, losses and expiries the store is truthful about the source |
| CacheWrites.HitsAreFresh | utils/cache/cache.go:169-189 | after any such history a positive hit carries the source's value and is served before its deadline and before 1.1 TTL after it was written, up to the rounding of the jitter |
| CacheWhole.ReadersSeeSoundValues | utils/cache/flight.go:81-104 | in every reachable state of the flight protocol what a caller reads of the flights it joined is sound for the source |
| CacheWhole.MGetFromCache | utils/cache/cache.go:83-131 | the refinement of the plain loader with nothing assumed of flights and store but that runs of the protocol and histories of workers produced them, with the same exact account of what is returned and when the error is nil |
| CacheWrites.LoaderServesFlights | utils/cache/flight.go:153-198 | a loader that keeps its contract is an honest worker of the flight protocol over the encoded source, which is a truth the readers agree with, and publishes exactly the values the protocol attributes to it |
| SiteConfig.SeedIsValid | internal/accountsmigrate/apply.go:354-369 | the imported seed satisfies the history and counter invariant |
| SiteConfig.WriteEffect | app/siteconfig/publish.go:84-146 | a transaction that changes anything appends exactly one row with the next revision, a new request id and different values; otherwise nothing changes |
| SiteConfig.PublishKeepsInv | app/siteconfig/publish.go:64-147 | every publish or rollback keeps histories gapless with different neighbours and both counters exact |
| SiteConfig.CountersFollowHistory | app/siteconfig/publish.go:119-146 | from the seed over every run: revisions are exactly 1..current, current is the last history row, generation minus one is the sum of revisions minus one, epoch minus one counts enabled-to-disabled neighbours in the registration history |
| SiteConfig.RunKeepsInv | domain/dal/site_config.go:80-103 | over every run history only grows and generation and registration epoch never fall, rollbacks included |
| SiteConfig.ReplaySettles | app/siteconfig/publish.go:97-118 | after a success, the request id in any later state returns the saved row when actor, expected revision, trimmed reason, resolved values and rollback target are the same and a conflict otherwise, and changes nothing |
| SiteConfig.ReplayIsHarmless | app/siteconfig/publish.go:84-118 | repeating exactly the same publish or rollback in any later state returns the original row and changes nothing |
| SiteConfig.CandidateIsStable | app/siteconfig/publish.go:84-96 | the document a rollback resolves to is the same in every later state |
| SiteOutcomes.CandidateIsAskedFor | app/siteconfig/publish.go:84-96 | the document a request resolves to is its own normalised values or what the target row reads as; a target beyond the last revision is not found |
| SiteOutcomes.PublishWrites | app/siteconfig/publish.go:64-147 | a request writes exactly when it is well posed, authorised, on a known namespace, new, names the last revision and asks for other values; then the namespace gets one more revision that reads back as those values, and only the counters change besides |
| SiteOutcomes.PublishRefuses | app/siteconfig/publish.go:64-147 | the error of every refused request, in the order of the checks; a refused request writes nothing |
| SiteOutcomes.RollbackRestores | app/siteconfig/publish.go:84-96 | after a rollback the current document reads back as the target revision does, whatever was published in between |
| SitePublisher.SiteDatabase.SaveSiteConfig | domain/dal/site_config.go:80-103 | insert, two conditional updates, and rollback on any miss equal the specified save |
| SitePublisher.SiteDatabase.Transact | app/siteconfig/publish.go:64-147 | the transaction body on mutable tables equals the publish specification |
| SiteRuntime.Process.ReadSnapshot | app/siteconfig/service.go:84-135 | the loops over the rows build exactly the specified snapshot or refuse it |
| SiteRuntime.Process.Install | config/runtime.go:72-82 | the method does to the process exactly what the install step of the system model does: a snapshot is installed unless it is older than the running one, otherwise nothing but the error flag changes |
| SiteRuntime.Process.Refresh | app/siteconfig/service.go:84-135 | a refresh is the read step followed by the install step of the system model on this process |
| SiteRuntime.InstallDecides | config/runtime.go:72-82 | a snapshot that is not older than the running one is installed; an older one, or none, changes nothing |
| SiteRuntime.RefreshShowsLatest | app/siteconfig/service.go:84-135 | a refresh nothing interrupts runs everything published so far |
| SiteRuntime.LoadIsGenuine | app/siteconfig/service.go:84-135 | no reachable database is refused, and what is loaded is the state after exactly generation minus one publications |
| SiteRuntime.LoadDecides | app/siteconfig/service.go:84-135 | whatever the database holds, a refresh reads it exactly when its counters are positive and every namespace has a readable document; the second validation refuses nothing more |
| SiteRuntime.StepKeepsSystem | app/siteconfig/service.go:84-135 | every publish, read, install or failure of any process keeps all running snapshots genuine |
| SiteRuntime.SameGenerationSameSnapshot | config/runtime.go:72-82 | in every interleaving two processes at the same generation hold identical revisions and values, those after the same publications |
| SiteRuntime.LoadedNeverDecreases | config/runtime.go:72-82 | a process's loaded generation never decreases |
| Manuals.EveryPositionTaken | domain/dal/manual.go:206-214 | with positions in 1..n and no duplicates, each position is held by exactly one active item |
| Manuals.OrderIsComplete | app/manuals/update.go:151-165 | a same-length list of distinct known ids is a permutation of the active items |
| Manuals.ReorderPlaces | app/manuals/update.go:118-135 | after a reorder the i-th listed item stands at position i, and the active items are the same |
| Manuals.ReorderWritesOnlyMoves | domain/dal/manual.go:291-310 | the position statement names only rows that move, so the affected-row test always passes |
| Manuals.CompactionKeepsPositions | domain/dal/manual.go:312-318 | deleting an item and closing the gap leaves the others in order at positions 1..n-1 |
| ManualSteps.StepTouches | app/manuals/update.go:16-279 | a transaction changes rows of one manual only, never a deleted item or an item's identity; a rejected one or a replay changes nothing |
| ManualSteps.StepCounts | domain/dal/manual.go:282-285 | a success finds the manual not deleted and raises its revision by exactly one, or by none for a replay |
| ManualSteps.ChangeIsCounted | domain/dal/manual.go:282-285 | if anything of a manual changed, its revision rose by exactly one and it was not deleted |
| ManualSteps.PatchIsApplied | app/manuals/update.go:52-149 | a committed patch puts the listed items in the listed order and sets cover and status as asked; status moves only from draft to active |
| ManualSteps.AppendGoesLast | app/manuals/items.go:76-94 | a stored append adds one active item at the end with every field of the request and touches no other row |
| ManualSteps.OrderNeverConflicts | app/manuals/update.go:129-135 | the order part of a patch fails only when the list is not a complete order |
| ManualSteps.StepKeepsInv | app/manuals/update.go:52-279 | every transaction keeps positions 1..n, the cover null or an active item, active manuals non-empty, and request ids unique |
| ManualSteps.StepKeepsBudget | app/manuals/items.go:103-127 | recorded bytes, deleted rows included, stay within the manual and user budgets, and active items within the count limit |
| ManualSteps.QuotaNeverOverflows | app/manuals/items.go:120-125 | on int64 inputs the quota check computed with wrap-around equals the exact one, and an accepted sum fits int64 |
| ManualSteps.OverflowGuardIsNeeded | app/manuals/items.go:120-122 | for sums within the budgets the overflow guard is silent exactly when the size fits int64 on top of both full budgets |
| ManualSteps.RunKeepsInv | app/manuals/items.go:46-127 | every run from empty tables satisfies the invariant and the budgets |
| ManualSteps.RunIsLater | app/manuals/update.go:167-207 | over every run deleted manuals and items never change again, no row disappears and revisions never go back |
| ManualSteps.RevisionCountsCommits | app/manuals/items.go:87-94 | a manual's revision grows by exactly the number of committed changes of it |
| ManualSteps.AppendHappensOnce | app/manuals/items.go:62-72 | after an append committed, repeating the request at any later time changes nothing and returns the same row, or is refused because the manual or the item is gone |
| ManualEffects.DeleteDecides | app/manuals/update.go:167-207 | a manual is deleted exactly for its owner at the current revision; its status becomes deleted, its revision rises by one, and cover, items and everything else stay |
| ManualEffects.DeletedIsFinal | app/manuals/update.go:167-207 | after a deletion and any further transactions every transaction on that manual is refused and changes nothing |
| ManualEffects.DeleteItemDecides | app/manuals/update.go:209-279 | an item is deleted exactly for the owner at the current revision unless it is the last one of an active manual; later items move up by one and the cover is cleared only when it was this item |
| ManualEffects.UpdateDecides | app/manuals/update.go:16-149 | a patch succeeds exactly when it asks for something, the owner names the current revision and each part is acceptable |
| ManualEffects.QuotaDecides | app/manuals/items.go:103-127 | within the budgets the quota check refuses exactly what does not fit |
| ManualEffects.AppendDecides | app/manuals/items.go:46-101 | an append stores a new item exactly when the manual may be written, the request is new and the item fits, and replays exactly when the row of the request is there with the same content |
| ManualEffects.AppendRefusals | app/manuals/items.go:52-94 | a recorded request that was deleted or differs is a conflict; a new one that does not fit is refused as over quota, or as a failed dependency when a sum leaves int64 |
| ManualEffects.ItemRefusals | app/manuals/update.go:209-279 | the deletion of an item that is not there is not found, and that of the last item of an active manual is unprocessable, and nothing else is |
| ManualEffects.RefusalsAreAlike | app/manuals/update.go:16-279 | every transaction refuses first by policy, then a missing, foreign or deleted manual as not found, then a stale revision as a conflict |
| ManualStore.ParseCompleteItemOrder | app/manuals/update.go:151-165 | the loop equals the order specification |
| ManualStore.ChangedPositions | app/manuals/update.go:123-128 | the loop collects exactly the rows whose position changes |
| ManualStore.Store.SumItemBytes | domain/dal/manual.go:258-280 | a loop over the rows in any order gives the sum, or refuses negative rows and sums beyond int64 |
| ManualStore.Store.CheckItemQuota | app/manuals/items.go:103-127 | the quota check equals its specification, in the same order of errors |
| ManualStore.Store.AppendItem | app/manuals/items.go:46-101 | the transaction equals the append specification; its conditional update never misses |
| ManualStore.Store.UpdateManual | app/manuals/update.go:16-149 | the transaction with its rollbacks equals the patch specification |
| ManualStore.Store.DeleteManualItem | app/manuals/update.go:209-279 | the transaction equals the delete specification, cover cleared when it was the item |
| ManualStore.Store.DeleteManual | app/manuals/update.go:167-207 | the transaction equals the delete specification |
| ManualCovers.ChooseDetailCover | app/manuals/read.go:243-260 | the detail page's two scans equal their specification |
| ManualCovers.DetailCoverDecides | app/manuals/read.go:243-260 | the chosen cover while it is listed, otherwise the first ready image or PDF, otherwise the first item |
| ManualCovers.ScanIsRankOne | domain/dal/manual.go:192-204 | without an explicit cover the scan finds exactly the row the window query ranks first |
| ManualCovers.ListCovers | app/manuals/read.go:199-233 | in every state satisfying the manuals invariant the list page's cover of each manual equals the detail page's |
| ManualFiles.FileStore.FinishUpload | app/manuals/files.go:43-50 | after the append answered, bytes are removed and the reply chosen exactly as the decision table says |
| ManualFiles.FileStore.ResolveFileCommit | app/manuals/files.go:53-86 | the same for the follow-up read |
| ManualFiles.ReadTellsOwn | app/manuals/files.go:60-80 | once the transaction is settled, the follow-up read finds this upload's own row or proves that there is none |
| ManualFiles.AskedDecides | app/manuals/files.go:60-86 | after the follow-up read an own live row is accepted with the current revision and keeps its bytes, an own deleted row keeps them under a conflict, and without an own row they are given up |
| ManualFiles.AnsweredDecides | app/manuals/files.go:43-58 | a stored row is accepted, a replayed one too but the new bytes go, a refusal gives them up, an unknown outcome leads to the follow-up read |
| ManualFiles.StepKeepsFileInv | app/manuals/files.go:20-86 | every step of every upload, interleaved with every other transaction, keeps rows and bytes consistent |
| ManualFiles.NoRowLosesItsBytes | app/manuals/files.go:60-80 | at any moment of any interleaving, retries and lost acknowledgements included, no committed row refers to removed bytes |
| ManualFiles.FinishedUploadsKeepOnlyOwnBytes | app/manuals/files.go:43-86 | a finished upload's bytes exist exactly when its own row is committed unless the follow-up read failed; an accepted upload is answered with a committed row of the same content |
| SplitSql.SplitSQL | internal/accountsmigrate/schema.go:112-156 | the scanning loop equals the automaton specification on every input |
| SplitSql.SplitAfterJoin | internal/accountsmigrate/schema.go:112-156 | joining self-contained parts and splitting again gives the same parts |
| SplitSql.PiecesSplitToThemselves | internal/accountsmigrate/schema.go:112-156 | every piece of a successful split is balanced, trimmed, free of top-level delimiters and splits to itself alone |
| SplitSql.PiecesJoin | internal/accountsmigrate/schema.go:112-156 | the raw pieces join to the scanned text, so a split loses only empty pieces and outer space |
| SplitText.QuotedIsClosed | internal/accountsmigrate/schema.go:112-156 | text between two equal quotes of any of the three kinds is kept together whatever it holds |
| SplitText.ParenthesisedIsClosed | internal/accountsmigrate/schema.go:112-156 | balanced text in parentheses is kept together with any delimiters in it |
| SplitText.LiteralIsClosed | internal/accountsmigrate/schema.go:112-156 | text without quotes, parentheses and the delimiter is kept together |
| SplitText.DelimiterCuts | internal/accountsmigrate/schema.go:112-156 | a delimiter after such text cuts, and the rest is split on its own |
| SplitText.UnbalancedFails | internal/accountsmigrate/schema.go:112-156 | an unfinished quote, an unfinished parenthesis and a closing parenthesis too many are errors |
| SplitText.ColumnKeywordIsOptional | internal/accountsmigrate/schema.go:82-104 | with and without the word COLUMN an ADD clause makes the same statement and keeps its definition to the letter |
| SplitSql.RunIsInjective | internal/accountsmigrate/schema.go:112-156 | two scans of the same text that end alike outside an error began alike, so a body that splits at all begins outside every quote and parenthesis |
| SplitSql.ClausesAreClosed | internal/accountsmigrate/schema.go:80-84 | every clause of a statement of the migration text is self-contained also as a statement |
| SplitSql.ClauseIsOneStatement | internal/accountsmigrate/schema.go:85-93 | such an ADD clause with ADD and COLUMN cut off, trimmed and put behind a fresh prefix is exactly one non-empty statement, as the planner's second parse requires |
| MigrationSchema.VerifyTable | internal/accountsmigrate/database.go:144-229 | the loops equal the specified comparison: complete, incomplete or the first conflict |
| MigrationSchema.VerdictIsExact | internal/accountsmigrate/database.go:144-229 | complete exactly when every column fits attribute by attribute, every index and check is there and a created table holds nothing else; absent exactly without a table for a CREATE, or with something missing and nothing clashing for an ALTER; a clash is never accepted |
| MigrationSchema.CreateCompletes | internal/accountsmigrate/database.go:170-228 | what a CREATE statement leaves is accepted as complete |
| MigrationSchema.AlterCompletes | internal/accountsmigrate/database.go:173-228 | an ALTER statement run while its structure is absent completes its step |
| MigrationSchema.AlterKeepsOthers | internal/accountsmigrate/database.go:173-228 | altering a table leaves every other step on it as complete, or as absent, as it was |
| MigrationSchema.AvatarKeepsBase | internal/accountsmigrate/database.go:154-172 | adding the avatar column keeps the published account table acceptable |
| MigrationRuns.PlannerAccepts | internal/accountsmigrate/additive.go:171-205 | the planner rejects no database that satisfies the invariant |
| MigrationRuns.PlannerDecides | internal/accountsmigrate/additive.go:171-205 | the planner refuses a database exactly when a base step is not built, a structure clashes, or a marker has another checksum, an unknown phase, or claims a structure that is not there |
| MigrationRuns.DdlKeepsInv | internal/accountsmigrate/apply.go:233-248 | running an absent step's statement completes it and disturbs no other step, marker or historical table |
| MigrationRuns.StepKeepsGood | internal/accountsmigrate/apply.go:221-253 | a step ends complete and marked or is cut off; its DDL runs only while its structure is absent; it takes at most three statements |
| MigrationRuns.AttemptKeepsGood | internal/accountsmigrate/additive.go:66-126 | an attempt ends by being cut off or with every step complete and marked, and undoes nothing |
| MigrationRuns.AttemptsKeepGood | internal/accountsmigrate/additive.go:66-126 | over every sequence of attempts cut off anywhere: completed markers have their structure, no DDL statement runs twice, and the planner accepts where an attempt stopped; a step marked completed has its whole structure, attribute by attribute |
| MigrationRuns.UninterruptedAttemptFinishes | internal/accountsmigrate/additive.go:106-125 | after any such sequence an attempt that is not cut off succeeds and leaves nothing pending |
| MigrationRuns.StepIsReadBack | internal/accountsmigrate/apply.go:221-253 | whatever the server does, a step that succeeds has its structure and completes no marker without it |
| MigrationRuns.SuccessIsReadBack | internal/accountsmigrate/additive.go:106-125 | whatever the server does, an attempt that reports success leaves every step built and marked |
| MigrationRuns.SomeServerIsHonest | internal/accountsmigrate/schema.go:28-37 | the assumptions about the server are satisfiable |
| MigrationRunner.Migrator.VerifyMarkers | internal/accountsmigrate/apply.go:32-57 | the loop gives the first marker error in step order |
| MigrationRunner.Migrator.BuildAdditivePlan | internal/accountsmigrate/additive.go:168-205 | the loops equal the specified plan |
| MigrationRunner.Migrator.RunStep | internal/accountsmigrate/apply.go:221-253 | the statements of a step equal its specification |
| MigrationRunner.Migrator.ApplyAdditive | internal/accountsmigrate/additive.go:86-125 | plan, metadata table, pending steps and readback equal the specified attempt |
| MigrationImport.AccountsPlanAccepts | internal/accountsmigrate/flow.go:107-173 | no check of the plan rejects a state the invariant allows: legacy tables, steps, markers, runtime rows, accounts, aliases, owner references, integrity queries and release files |
| MigrationImport.AccountsPlanDecides | internal/accountsmigrate/flow.go:107-173 | the account plan is refused exactly when one of its checks fails |
| MigrationImport.AgreementDecides | internal/accountsmigrate/apply.go:61-148 | agreement of accounts, aliases and references with the source, field by field, before and after the import |
| MigrationImport.InsertAccounts | internal/accountsmigrate/apply.go:287-304 | the loop inserts exactly the missing accounts at version 1 |
| MigrationImport.InsertAliases | internal/accountsmigrate/apply.go:305-317 | the loop inserts exactly the missing aliases or fails on one that belongs to another account |
| MigrationImport.ImportAliases | internal/accountsmigrate/apply.go:305-317 | the import leaves every alias of the source with its account and kind, every other alias as it was, and adds no others |
| MigrationImport.RaiseVersions | internal/accountsmigrate/apply.go:326-335 | the loop raises each account from 1 to 2 or fails as a whole |
| MigrationImport.ImportAccounts | internal/accountsmigrate/apply.go:287-335 | the import transaction succeeds and leaves exactly the source's accounts, each at version 2 |
| MigrationImport.ApplyKeepsInv | internal/accountsmigrate/apply.go:154-218 | an attempt is cut off or ends with the import done; before the commit no account and no alias changes, afterwards nothing is touched again |
| MigrationImport.HistoryKeepsInv | internal/accountsmigrate/apply.go:258-352 | over every history of attempts and later application writes each account's version is raised exactly once, and before that no account is changed |
| ProjectPruning.SelectReleasesForPruning | domain/service/webprojects/cleanup.go:170-201 | the two loops equal the selection specification |
| ProjectPruning.SelectionMakesRoom | domain/service/webprojects/cleanup.go:170-201 | a selection names distinct listed releases, never the current one, and leaves room for the new one |
| ProjectPruning.SelectionIsMinimal | domain/service/webprojects/cleanup.go:183-193 | before its last retirement the new release did not fit |
| ProjectPruning.RefusalIsNeeded | domain/service/webprojects/cleanup.go:194-199 | space is refused only when everything but the current release has been retired |
| ProjectPruning.SelectDecides | domain/service/webprojects/cleanup.go:170-201 | room is found exactly when limits and sizes make sense and the new release fits beside the current one alone; otherwise the error says whether bytes, count or the input is the reason |
| ProjectPruning.OldestFirst | domain/service/webprojects/cleanup.go:182-193 | no release is retired before every older one but the current has been |
| Projects.UploadEffect | app/webprojects/projects.go:323-369 | an upload retires ready releases of its own project, never the current one, and adds at most the new ready release |
| Projects.AllSelectedAreMarked | app/webprojects/projects.go:358-364 | marking reaches every selected row, so the row count test always passes |
| Projects.CleanupNeverFails | domain/repository/webprojects/cleanup.go:81-94 | on a page of the project's releases neither the row count test nor the clearing of the pointer can fail |
| Projects.StepKeepsInv | domain/repository/webprojects/cleanup.go:15-101 | every transaction and cleanup step keeps the current release a ready release of that project uploaded by its owner, and a removed project deleted |
| Projects.RunKeepsInv | domain/repository/webprojects/repository.go:97-155 | so does every run, for any interleaving and any stale status change |
| Projects.OnlyUnblockClears | app/adminweb/adminweb.go:244-290 | a moderator's block or removal ends only by an unblock, which leaves the project disabled |
| Projects.ServedWasPublished | app/webprojects/projects.go:421-464 | in every run whatever is served was put there by a committed publish of that release, and nothing since has disabled or replaced it |
| Projects.PublishedStaysServed | app/webprojects/projects.go:421-464 | in every run a committed publish is served from then on, whatever uploads, prunings, edits and cleanups do, until its owner publishes or changes the status again or a moderator acts |
| Projects.ServedAgainOnlyAfterUnblock | app/webprojects/projects.go:494-532 | a blocked or removed project is served again only after an unblock followed by a publish |
| ProjectEffects.ModerateDecides | app/adminweb/adminweb.go:232-301 | each moderator action succeeds exactly at the current revision of a row it applies to and sets exactly its fields; every refusal has its own reason |
| ProjectEffects.ModeratedIsNotServed | app/adminweb/adminweb.go:244-290 | after any moderator action the project is not served |
| ProjectEffects.BlockLasts | app/webprojects/projects.go:494-532 | in every run, from a committed block or removal on no state serves the project before an unblock followed by a publish |
| ProjectEffects.PublishDecides | app/webprojects/projects.go:421-464 | a publish succeeds exactly for the owner at the current revision with a ready release of his own whose files are there, and only enables the project with it |
| ProjectEffects.StatusDecides | app/webprojects/projects.go:211-231 | an owner's change of status succeeds exactly at the current revision, with a slot when it brings a deleted project back, sets exactly its fields and takes the project off line |
| ProjectEffects.EditDecides | app/webprojects/projects.go:150-209 | an edit succeeds exactly for the owner at the current revision and changes no modelled field but the revision |
| ProjectEffects.UploadDecides | app/webprojects/projects.go:323-369 | an upload stores its release exactly when the owner may, the request is new, the quota allows it and room can be made; a repeated request is answered with its first release or refused for other content |
| ProjectEffects.RefusalsAreAlike | domain/repository/webprojects/repository.go:98-242 | the owner's transactions refuse first by policy, then a missing or foreign project as not found, then a moderated one as forbidden, then a stale revision as a conflict |
| ProjectEffects.CleanupEffect | domain/repository/webprojects/cleanup.go:49-101 | exactly an expired project loses its pointer and has the page marked deleting |
| ProjectEffects.RemovalEffect | domain/repository/webprojects/cleanup.go:33-36 | only a deleting release is removed, and only it |
| Projects.StepKeepsFiles | domain/service/webprojects/cleanup.go:30-75 | every step, lost acknowledgements included, keeps the directories of ready releases exactly those whose upload has not been discarded |
| Projects.FilesLastUntilDiscard | app/webprojects/projects.go:370-376 | in every run a ready release has its files if and only if its upload's error path has not removed them, and it was removed only after the acknowledgement of that upload was lost |
| Projects.ServedFilesExist | app/webprojects/projects.go:494-532 | a served project has its files if and only if the upload of its current release has not discarded them; a lost acknowledgement of any other upload does no harm |
| Projects.LostAckLosesFiles | app/webprojects/projects.go:370-376 | the witness that the discard happens: a run that serves a release whose files were removed |
| ProjectStore.Store.UploadRelease | app/webprojects/projects.go:323-369 | the transaction with its rollback equals the upload specification |
| ProjectStore.Store.PublishRelease | app/webprojects/projects.go:421-464 | the transaction equals the publish specification |
| ProjectStore.Store.Change | app/adminweb/adminweb.go:232-301 | the moderator's transaction equals its specification for each action |
| ProjectStore.Store.PrepareExpiredProjectCleanup | domain/repository/webprojects/cleanup.go:49-101 | the transaction equals the cleanup specification |
| ProjectStats.StatTables.PersistWebProjectStats | domain/dal/webproject_stat.go:55-113 | the transaction with seed row, checks and upserts equals its specification |
| ProjectStats.CountsNeverDecrease | domain/dal/webproject_stat.go:75-110 | whatever is delivered, stored counts and sequence never decrease and the answer says whether the sequence moved |
| ProjectStats.PersistDecides | domain/dal/webproject_stat.go:55-113 | a snapshot is applied exactly when it is sound, newer and counts nothing less, skipped exactly when sound and not newer; applied it becomes the total row and replaces the rows of its own days |
| ProjectStats.NoDeliveryFails | domain/dal/webproject_stat.go:78-99 | growing snapshots in any order with repeats never fail |
| ProjectStats.TotalIsTheLatest | domain/dal/webproject_stat.go:105-110 | the total row ends as the highest-sequence snapshot delivered, whatever the order |
| ProjectStats.AppliedOnce | domain/dal/webproject_stat.go:75-77 | an applied delivery is newer than everything before it, so each sequence is applied at most once |
| ProjectStats.LateDaysAreLost | domain/dal/webproject_stat.go:75-77 | the witness that day rows can depend on the order: two concrete snapshots |
| ProjectStats.CumulativeDaysAreTheLatest | domain/dal/webproject_stat.go:94-103 | when the latest snapshot carries every day of the others, the day rows end as its own |
| ProjectStats.OrderMattersExactly | domain/dal/webproject_stat.go:75-103 | all reorderings of growing snapshots leave the same day rows if and only if the latest snapshot carries every date of the others |
| RateLimits.Limiter.AllowAccountAttempt | api/middleware/account.go:252-278 | the purge, the window restart and the count equal the specification |
| RateLimits.AllowKeepsCapacity | api/middleware/account.go:259-269 | the map never exceeds 4096 entries |
| RateLimits.TwiceTheLimit | api/middleware/account.go:252-278 | in clock order any half-open interval one window long admits at most twice the limit of a key, whatever other keys do; when calls are applied up to a lag late that holds for intervals three lags shorter, and for a whole window the bound is three times the limit while four lags fit into it |
| RateLimits.IntervalAdmits | api/middleware/account.go:252-278 | in general an interval admits at most n times the limit as soon as n windows, each shortened by the lag, cover its length, one window and one lag |
| RateLimits.LateCallsAdmitMore | api/middleware/account.go:255-256 | nine calls, two of them applied two units late, that admit more than twice the limit within one window |
| RateLimits.RefusalIsDue | api/middleware/account.go:267-274 | after any calls an attempt is refused only when the last window length, widened by the lag, already admitted the limit of its key, or the map is full of live entries |
| RateLimits.PasswordBudget.Enter | domain/service/accounts/attempts.go:59-81 | the first critical section equals its specification |
| RateLimits.PasswordBudget.Fail | domain/service/accounts/attempts.go:85-100 | the second critical section equals its specification |
| RateLimits.SectionsKeepBudget | domain/service/accounts/attempts.go:59-100 | in every interleaving of the two sections the map holds at most 4096 keys and no counter passes its limit |
| RateLimits.FailureCounts | domain/service/accounts/attempts.go:87-99 | a failure counts once for its account and once for its address up to their limits and restarts only a window that is over, for 60 seconds |
| RateLimits.SpentStaysRefused | domain/service/accounts/attempts.go:74-80 | once a budget is spent no check naming the key is admitted before the window ends, whatever happens meanwhile |
| RateLimits.AdmitDecides | domain/service/accounts/attempts.go:59-81 | a check is admitted exactly when neither the account has ten failures nor the address thirty in a running window and there is room for new counters |
| RateLimits.FewFailuresAreAdmitted | domain/service/accounts/attempts.go:59-100 | after any sections a check whose account failed less than ten times and whose address less than thirty is admitted while the map has room |
| Anchors.IndexOf | api/webprojects/container/runtime.js:16 | the search finds the next occurrence or proves there is none |
| Anchors.FindQuote | api/webprojects/container/runtime.js:13-22 | the two loops equal the quotation specification, overlapping matches included |
| Anchors.QuoteIsFoundOrLost | api/webprojects/container/runtime.js:13-22 | a quotation standing at an offset in its context is found there or not at all, and is found exactly when it has no NUL and no other occurrence fits the context |
| AnchorTexts.AloneDecides | api/webprojects/container/runtime.js:13-22 | a quotation without context is found exactly when it stands in the text once |
| AnchorTexts.ContextDecides | api/webprojects/container/runtime.js:13-22 | the context of an occurrence fits exactly when the characters before and after it are prefix and suffix |
| Anchors.CaptureContext | api/webprojects/container/runtime.js:331-338 | a captured anchor occurs at its start with exactly the captured context around it |
| AnchorTexts.CaptureDecides | api/webprojects/container/runtime.js:331-338 | a selection is captured exactly when it is not blank, at most 4096 characters long and its place is known; the anchor holds its text and up to 48 characters on either side, cut at the nearest barrier |
| Anchors.AnchorResolvesToItself | api/webprojects/container/runtime.js:329-338 | on unchanged text a captured anchor resolves to the offset it was captured at or to -1, with the exact condition |
| Anchors.Indexer.Walk | api/webprojects/container/runtime.js:302-315 | the recursive walk over the page builds the specified text, node list and barriers |
| Anchors.PageIsWellIndexed | api/webprojects/container/runtime.js:302-315 | in the index of any page nodes lie in order and spell the text, and a position lies outside all of them exactly when it is that of a barrier |
| AnchorTexts.IndexIsTheWholePage | api/webprojects/container/runtime.js:302-315 | the index spells the text nodes and barriers of the page in document order and lists each exactly once |
| Anchors.Locate | api/webprojects/container/runtime.js:343-360 | a range is found exactly when the quotation resolves; it spells the quotation exactly, starts at the resolved offset and crosses no barrier |

## Left out

- HTTP handlers, cookies, CORS, multipart reading, logging, metrics, the Vue front end and the acceptance scripts.
- Database errors other than the ones named in a step: any other failure rolls the transaction back like a rejection.
- `runtime.Goexit` inside a loader (flight.go:117-121): the model's worker returns or panics.
- Timestamps in rows, names, descriptions, categories, access modes and members: they take part in no invariant here.
- `ValidateValues` and the registry tables: an idempotent normaliser that returns complete documents.
- ProcessState.pending: Refresh is serialised per process in the server; the model allows more interleavings.
- Manual creation: only the inserted draft row; its own request replay and the per-user manual limit are not modelled.
- `parsePositiveID`: an id text is its number, or nothing when it is not canonical.
- Projects.CleanupNeverFails: counts matched rows where the driver reports changed ones. A page may hold rows that are
  deleting already; the statement changes them too, because it sets `update_time` to a fresh DATETIME(6) value.
- Removal errors of stored files are ignored by the server; the model's removal succeeds.
- `parseDefinition`: steps arrive parsed; column and index texts stay abstract.
- MySQL behind `MigrationSchema.HonestServer`: statements are atomic, created tables are not altered in the same plan, and
  steps on one table name different columns, indexes and check expressions.
- The plan hash, the advisory lock and the confirmation arguments: every attempt is taken to run on a freshly reviewed plan.
- MigrationImport.AccountsPlanAccepts: the legacy columns, the integrity queries without user ids and the file walk each
  enter as their outcome; their own logic is not modelled.
- Overflow of a jittered TTL near the int64 limit; `CacheWrites.RoundsToNearest` speaks of the normal float64 range.
- Login-token expiry and the audit row of the account import.
- Upload concurrency counters, disk reservations, per-user upload quota (one boolean) and application slots.
- FindPublished reads the project and a cached release separately; the model reads both at once.
- Stored sums of release bytes are assumed not to overflow int64.
- HLL blobs, the cleanup of old statistics days, and the descriptive columns of the statistics rows.
- Page identity, target validation and painting of comment markers; only text anchors are modelled.
