# QuantumAtlas, modelled and proved in Dafny

A Dafny 4.11 project (`dafny verify dfyconfig.toml`) about five parts of QuantumAtlas:

* **Block comments** (`internal/comments`). One abstract store (`CommentStore`): rows, edit and status
  histories, one `Apply` per call; `CommentRows` says of every field of a row, an answer and an event which call it
  comes from, `CommentFilters` what each field of a list filter lets through. `MemStore` is the in-memory class,
  method by method. `PgStore` is the transactional store as a machine in which every statement of every transaction is
  a step, row locks are held until the transaction ends, identity values are drawn at INSERT and never given back. Both
  refine the abstract store (`PgRefinement`, with `PgRuns`, `PgAbort` and `PgHistory` about whole runs, `PgRows` about
  what clients sent and were answered, `PgCourse` about a transaction nothing stops, and `PgExamples` for runs written
  out step by step). On top: page walks (`KeysetWalk`, `WalkPages`), since cursors and polling (`SinceCursor`,
  `SincePolling`, `SinceWindow`), both again over runs of the transactional store (`PgReads`), and the idempotency
  cache (`Idempotency`).
* **Browser provenance** (`internal/downloader`). `NavigationScope` is the scope class; `Provenance` says, about
  the observed traffic alone, which responses were reached from the selected URL; `BrowserRun` is the event loop
  with its capture goroutines as steps in any order, and `BrowserCourse` its course when nothing interferes.
* **UI bundle** (`web`). `ReleaseVersion` (the two regular expressions against Semantic Versioning), `Checksum`,
  `Bundle` (`openBundle`), `BundlePack` (`Pack` over any file tree), `BundleNames` (which names, archives and trees
  they take, said without their helpers), `BundleRoundTrip`, and `UiCache`, the lock / read again / stage / rename
  protocol with any number of processes and a crash possible at every step, with `UiCacheDirs` about its temporary
  directories and `UiCacheCourse` about what each process is answered.
* **Storage maintenance** (`cmd/qatlasd`). `PrunePlan` with `PruneExact`, `LayoutMigration` with `LayoutCourse`,
  `Backfill` with `BackfillRounds`: in each pair the second says version by version, key by key and round by round
  what the first computes.
* **Single-use file tokens** (`cmd/downloaderproxy`). `FileTokens`: jobs, tokens, pickups and the sweep as
  interleaved atomic steps; `FileTokenCourse`: the same in seconds.

Supporting modules: `Order` (Go's string order), `Sorting` (what `sort.Slice` promises), `Text` (Cut, Split,
Join, decimal digits), `Regexes`, `Hex`, `Options`.

Clocks, minted ids, random names, network answers, file-system failures, SHA-256, the ZIP codec, URL
normalisation and resolution enter as parameters or as steps of the environment; the theorems hold for all of
their values, with the assumptions written as `requires`: ids minted for new rows are unused (and increase,
where a theorem says so), the ZIP reader reads what the writer wrote, directory listings name each plain
element once, a bucket listing names each key once.

## Where the code and its documentation disagree

The model follows the code.

* `internal/comments/store.go:37` says a limit of zero or less means no rows; `MemStore` then lists every row
  and `PGStore` one (discussions) or 20 (replies) (`StoresAgreeExactly`, `ReplyPagesAgreeExactly`;
  `LimitZeroDisagrees` is a run).
* `PGStore.SetStatus` refuses an empty reason before it looks for the discussion, `MemStore` after
  (`EmptyReasonAnswersAgree`; `EarlyRefusalDisagrees` is a run). `PGStore` records "initial status" for a missing
  initial reason (`AnsweredWasSent`), and only its tables check statuses, scopes and positions
  (`CommittedRowsAreAccepted`).
* `PGStore.History` orders revisions by identity value, drawn at the INSERT; `MemStore.History` by time, which in
  PostgreSQL is the transaction's start. The two agree exactly when the committed edits inserted their history
  rows in the order their transactions began (`PgHistoryIsMemHistoryExactly`; `LateInsertDisagrees` is a run where
  they do not), and a commit inserts before entries already listed exactly when an edit logged later has committed
  (`CommitAppendsExactly`; `LateCommitInsertsBefore` is such a run).
* Rows carry the start time of the transaction that wrote them, so a change that begins before and commits after a
  cursor was handed out lies behind it: with a perfect clock a poll still misses it
  (`CommittedChangeIsPolledExactly`, `LateCommitIsMissed`).
* The list route takes its next since cursor from the page it sends, cut down to milliseconds. After a window of
  several pages the client therefore polls from the last page's maximum, and is sent again every row of the
  window past it; when the last page is empty it does not advance at all (`RouteResendsExactly`, with the runs
  `RouteResendsInARun` and `SameMillisecondResendsInARun`). `internal/routes/comments.go:323-329` advances late so
  that no row is skipped; a row changed after its page was read is nevertheless never sent when it does not lie past
  the last page's maximum (`RouteSkipsExactly`, `SkippedForGood`, and the run `RouteSkipsInARun`).
* `storage_migrate_cmd.go:266-268` calls every copy create-only; the server-side copy is not, and a create-only
  Put refused with 412 counts as success whatever the new key holds. Content is lost exactly in the case
  `LayoutMigration.Clashes` (`ContentIsKeptExactly`, `ClashLosesContent`).
* `storage_migrate_cmd.go:9-10` and `:21` promise to move 1990s objects such as `9508/9508027v2.pdf`; months are
  compared as digits, so with the default `0704` the keys 9108 to 9912 are never eligible
  (`EligibleExactlyBelowTheCutover`).
* `storage_migrate_cmd.go:245-247` says a rerun retries a failed delete; it counts the object as migrated, and
  retries only when the rerun's own Stat fails (`RerunRetriesTheDeleteExactly`). `--limit` bounds objects moved:
  copies exceed it exactly when more objects than that can be copied and the delete of the one that reaches the
  limit fails (`CopiesExceedTheLimitExactly`, `LimitIsExceeded`).
* `cmd/downloaderproxy/main.go:257` says a consumed token is hidden from the job view; only expiry hides it
  (`ShownUntilExpiry`, `ConsumedTokenIsStillShown`). A file is left behind by every `os.Open` or `os.Remove` of it
  that fails, and by nothing else (`OrphanedExactlyByFaults`, `FailedOpenOrphans`).
* `navigate` may answer a timeout with the page of an abandoned navigation; `validateBody` never lets it through
  (`FetchSucceedsExactly`).

## Model

| member | source | states |
|---|---|---|
| CommentStore.EditsAreGapless | internal/comments/memstore.go:225-275 | in every run, a body's accepted edits used expected revisions 1, 2, 3, ..., its revision is 1 plus their number, each left one history entry, and replaying the entries from the original body gives the current body |
| CommentStore.StatusEventsChain | internal/comments/memstore.go:35-66 | in every run, a discussion's status events chain from "no status" to its current status |
| CommentStore.HistoryOnlyGrows | internal/comments/memstore.go:35-66 | between any two points of a run rows are never lost, anchors and origins never change, and every history is a prefix of the later one |
| CommentStore.StepKeepsWellFormed | internal/comments/memstore.go:35-66 | every call keeps rows under their own ids, replies attached to discussions, and histories attached to rows |
| CommentRows.DiscussionIsCreated | internal/comments/memstore.go:35-66 | row and answer carry each field of the input under its own name, at revision 1, both times those of the call; a first event exactly when there is a status; nothing else changes |
| CommentRows.ReplyIsCreated | internal/comments/memstore.go:171-190 | the same for a reply, refused without a trace exactly when its discussion is missing |
| CommentRows.StatusIsSet | internal/comments/memstore.go:202-223 | only status and time of this discussion change, one event records old status, new status, reason, actor and time; the two refusals, in their order, change nothing |
| CommentRows.DiscussionBodyIsEdited | internal/comments/memstore.go:225-249 | only body, revision and time of this discussion change and one entry with old and new body, editor and time is added; a missing row or another revision changes nothing |
| CommentRows.ReplyBodyIsEdited | internal/comments/memstore.go:251-275 | the same for a reply body |
| CommentRows.EveryDiscussionWasCreated | internal/comments/memstore.go:35-66 | in every run each discussion carries, field by field, the input, id and time of the call that created it |
| CommentRows.EveryReplyWasCreated | internal/comments/memstore.go:171-190 | in every run each reply carries the input of the call that created it, and its discussion is there |
| CommentRows.EventsRecordEveryChange | internal/comments/memstore.go:202-223 | in every run a status log is the record of the creation, if it had a status, and of each accepted change in order, with status, reason, actor and time |
| CommentRows.UpdatedAtIsLastChange | internal/comments/memstore.go:225-249 | in every run the update time of a discussion is that of the last accepted call that wrote its row |
| CommentRows.ReplyCountIsRepliesAccepted | internal/comments/memstore.go:126-134 | in every run the reply count a discussion shows is the number of replies to it that were accepted |
| MemStore.MemStore.constructor | internal/comments/memstore.go:25-33 | a new store represents the empty abstract store |
| MemStore.MemStore.CreateDiscussion | internal/comments/memstore.go:35-66 | new state and answer are those of one abstract step, for any unused id and any time; the row stored and returned carries each field of the input under its own name |
| MemStore.MemStore.CreateReply | internal/comments/memstore.go:171-190 | new state and answer are those of one abstract step; a missing discussion is NotFound and changes nothing; the row stored and returned carries each field of the input under its own name |
| MemStore.MemStore.SetStatus | internal/comments/memstore.go:202-223 | one abstract step, including NotFound and the empty reason, in that order |
| MemStore.MemStore.UpdateDiscussionBody | internal/comments/memstore.go:225-249 | one abstract compare-and-swap step, including NotFound and the revision conflict |
| MemStore.MemStore.UpdateReplyBody | internal/comments/memstore.go:251-275 | one abstract compare-and-swap step on a reply |
| MemStore.MemStore.ReplyCount | internal/comments/memstore.go:126-134 | the listed reply count is the number of replies held for the discussion |
| MemStore.MemStore.GetDiscussion | internal/comments/memstore.go:136-146 | the row with its reply count, or nothing |
| MemStore.MemStore.ListDiscussions | internal/comments/memstore.go:68-124 | exactly the matching rows below the cursor, newest first, cut at a positive limit, each with its reply count |
| MemStore.MemStore.ListReplies | internal/comments/memstore.go:148-169 | the discussion's replies after the cursor, oldest first, cut at a positive limit; NotFound for a missing discussion |
| MemStore.MemStore.History | internal/comments/memstore.go:277-294 | every edit of the discussion and its replies as often as it was made, in an order sorted by time, and the status events in order |
| CommentQueries.StoresAgreeExactly | internal/comments/pgstore.go:121-184 | on every page, after any cursor, the two stores list the same rows of every table if and only if no id lies below the cursor, or the filter has a paper id, no empty status, and a positive limit (or a cursor with a single id below it); for ids and cursors over any alphabet, so also without the NUL that PostgreSQL's text cannot hold |
| CommentQueries.ReplyPagesAgreeExactly | internal/comments/pgstore.go:228-264 | the reply pages are equal if and only if the limit is positive or at most 20 replies follow the cursor |
| CommentFilters.MatchesExactly | internal/comments/memstore.go:72-106 | what each field of the filter lets through, in both stores: set fields restrict their own column, scopes to any of those given |
| CommentFilters.MemPageIsTheNewest | internal/comments/memstore.go:68-124 | with a positive limit the page is the newest wanted rows: an id is missing if and only if it is not wanted or the page is full of newer ones |
| CommentFilters.MemListsAll | internal/comments/memstore.go:68-124 | without a positive limit exactly the wanted rows are listed, newest first |
| CommentFilters.PgPageIsTheNewest | internal/comments/pgstore.go:121-184 | the page is the newest rows of the paper the query wants, one of them when the limit is not positive |
| CommentFilters.ReplyPagesAreTheOldest | internal/comments/pgstore.go:228-264 | both stores list the oldest replies of the discussion after the cursor, up to the limit, or all of them and twenty without one |
| PgExamples.LimitZeroDisagrees | internal/comments/pgstore.go:164-184 | three creations after which, at limit 0, MemStore lists all three rows and PGStore one |
| PgRefinement.CommitIsOneAbstractStep | internal/comments/pgstore.go:355-440 | a transaction that is ready to commit turns tables representing a store into tables representing that store after one abstract step, with the abstract answer |
| PgRefinement.StepKeepsInv | internal/comments/pgstore.go:311-440 | every statement of every transaction keeps the invariant: locked rows do not change, drawn history ids are apart, the committed tables are linearized |
| PgRefinement.Linearizable | internal/comments/pgstore.go:80-440 | after any interleaving of any transactions the tables hold what the abstract store holds after the answered calls in answer order, and every answer is the abstract one, up to the reply count and to the early refusal of an empty reason |
| PgRuns.WellFormedRunsAnswerWhatWasSent | internal/comments/pgstore.go:80-120 | when clients send only values the tables accept and a reason for every status, the answered calls are calls they sent, unchanged |
| PgRows.AnsweredWasSent | internal/comments/pgstore.go:80-120 | every answered call was sent, and is recorded as sent but for a missing reason of an initial status, which becomes "initial status" |
| PgRows.CommittedDiscussionsCarryTheirInput | internal/comments/pgstore.go:80-119 | whatever clients interleave, every committed discussion carries, field by field, the input of a call some client sent, with its id and time |
| PgRows.CommittedRepliesCarryTheirInput | internal/comments/pgstore.go:266-295 | the same for every committed reply, whose discussion is committed |
| PgRows.CommittedEventsRecordEveryChange | internal/comments/pgstore.go:98-107 | a committed status log records the creation, never without a reason, and every accepted change in answer order |
| PgRows.CreationsAreAnswered | internal/comments/pgstore.go:108-119 | a creation is answered with the row it made, field by field; a reply is refused if and only if its discussion is missing at that point |
| PgRows.ReplyCountWasCommitted | internal/comments/pgstore.go:40-45 | every discussion row answered carries the number of replies committed when its transaction read the row again |
| PgCourse.DiscussionCourse | internal/comments/pgstore.go:80-119 | from any state of the machine a creation with an unused id and accepted values can run to its commit: one row, carrying its input, one first event if there is a status, that row as the answer |
| PgCourse.ReplyCourse | internal/comments/pgstore.go:266-295 | the same for a reply to a committed discussion |
| PgCourse.ReplyToNothing | internal/comments/pgstore.go:276-286 | a reply to a discussion that is not committed is answered NotFound and leaves no trace |
| PgCourse.ChangeCourse | internal/comments/pgstore.go:311-440 | from any state a status change, or an edit with the current revision, of a row nobody has locked can run to its commit: that row alone changes as asked, one history row is added, the lock is free again |
| PgCourse.ChangeIsRefused | internal/comments/pgstore.go:326-333 | a locking call on a missing row, or with another revision, is answered so and leaves no trace |
| PgCourse.RollbackCourse | internal/comments/pgstore.go:88-88 | a transaction may be rolled back at any moment: its rows never appear and its locks are free |
| PgCourse.LockedFromReadToEnd | internal/comments/pgstore.go:326-440 | in every run a row is locked by a transaction if and only if it is past its locking read and has not ended, and a locking read of the row waits if and only if another transaction is there |
| PgCourse.CommittedRowsAreAccepted | internal/registry/migrations/00008_block_comments.sql:28-43 | whatever is sent, committed rows have a page from 0, a block from 1, a scope public or lean, and no status or one of the three |
| PgAbort.AbortLeavesNoTrace | internal/comments/pgstore.go:311-440 | leaving out of any run every step of a transaction that was rolled back gives a run again, with the same answers, rows and histories; at most an identity value is missing |
| PgRefinement.CommittedEditsAreGapless | internal/comments/pgstore.go:355-440 | whatever clients interleave, a body's committed edits used revisions 1, 2, 3, ... with none lost or shared, and the committed history replays to the body |
| PgRefinement.OneHolderPerRow | internal/comments/pgstore.go:311-440 | of two transactions on one row at most one has passed its locking read |
| PgRefinement.EmptyReasonAnswersAgree | internal/comments/pgstore.go:311-353 | in every run each call with an empty reason is answered with that error and changes nothing; MemStore gives the same answer at that point if and only if the discussion exists |
| PgExamples.EarlyRefusalDisagrees | internal/comments/pgstore.go:311-320 | a run that answers the empty reason for a discussion MemStore does not find |
| PgHistory.HistoryHasTheSameEdits | internal/comments/pgstore.go:442-500 | PGStore.History lists the same edits the same number of times as MemStore.History, and the same status events in the same order |
| PgHistory.PgHistoryIsMemHistoryExactly | internal/comments/pgstore.go:442-500 | in every run PGStore.History is an answer MemStore may give if and only if of every two committed edits of the discussion the one whose history row was inserted first did not begin later |
| PgHistory.HistoriesAgreeExactlyInBeginOrder | internal/comments/pgstore.go:442-500 | for distinct times it then equals MemStore's answer, and only then |
| PgExamples.LateInsertDisagrees | internal/comments/pgstore.go:398-500 | a run of two edits whose PostgreSQL history MemStore would not answer |
| PgHistory.CommitAppendsExactly | internal/comments/pgstore.go:442-500 | in every run the commit of an edit appends to its combined history if and only if every edit of that history committed before it had also inserted its history row before it |
| PgExamples.LateCommitInsertsBefore | internal/comments/pgstore.go:398-500 | a run in which a commit puts its edit before one that was listed already |
| KeysetWalk.FinishedWalkIsASnapshot | internal/comments/memstore.go:68-124 | a cursor walk returns exactly the rows that matched at the first page, each once, newest first, whatever happens between pages |
| KeysetWalk.WalkTerminates | internal/comments/memstore.go:68-124 | a walk reads at most (rows at the first page / limit) full pages |
| KeysetWalk.WalkOverARunIsASnapshot | internal/comments/memstore.go:68-124 | over any run with increasing ids, a finished walk read at any points of the run returns exactly the rows that matched at the first one |
| KeysetWalk.FinishedWalkMissesNothing | internal/comments/memstore.go:68-124 | even when new ids may sort anywhere, every row of the first page's store is returned exactly once |
| PgReads.PgWalkMissesNothing | internal/comments/pgstore.go:121-184 | in every run of the transactional store, where a smaller id may commit late, a finished walk returns every row committed and matching at its first page exactly once |
| PgReads.PgWalkReturnsExactly | internal/comments/pgstore.go:121-184 | in every run and under any filter, a row is on the page of a finished walk that passes its id, or on none, and it is there if and only if it is committed and matches when that page is read |
| PgReads.PgWalkTerminates | internal/comments/pgstore.go:121-184 | full pages hold together no more rows than match in the last table read |
| KeysetWalk.RunsEvolve | internal/comments/ids.go:21-29 | between any two points of a run with increasing ids the table changes only as the walk allows: rows kept with their anchors, additions sorting last |
| SinceCursor.DecodeEncode | internal/comments/since.go:31-53 | an encoded position decodes if and only if its millisecond is not before the epoch (and in range) and its id is not empty, and then to the millisecond floor and the same id, dashes included |
| SinceCursor.EncodeDecode | internal/comments/since.go:39-53 | re-encoding what any text decodes to names the same position |
| SinceCursor.DecodesExactly | internal/comments/since.go:39-53 | a text decodes if and only if it is decimal digits in the int64 range, perhaps after a plus, a dash and a nonempty id, and then to that millisecond and id |
| SinceCursor.EncodesAs | internal/comments/since.go:31-33 | a time after the epoch is written as its whole milliseconds in decimal, without leading zeroes, a dash and the id |
| SinceCursor.SinceAfterIsPositionOrder | internal/comments/since.go:64-70 | for decoded cursors sinceAfter is the order on (millisecond, id) |
| SinceCursor.BeforeIsStrictTotalOrder | internal/comments/since.go:64-70 | that order is irreflexive, transitive and total |
| SinceCursor.NeverPastOwnCursor | internal/comments/since.go:55-70 | a row is never past the cursor of its own position, however fine its timestamp |
| SincePolling.NextPoll | internal/comments/memstore.go:107-118 | after any further calls with a clock that does not go back, a poll with any decodable since text returns exactly the watched rows past its position; for a position taken from a row these are every new row and every changed row but a same-millisecond change of an id not after the cursor's |
| SincePolling.NothingUntouchedComesBack | internal/comments/memstore.go:107-118 | a client that advances to the largest position of its window, the first sync's included, is sent no untouched row again |
| PgReads.CommittedChangeIsPolledExactly | internal/comments/pgstore.go:121-184 | in every run of the transactional store, a committed change is returned by a poll, while the row is not changed again, if and only if its transaction's start lies past the cursor |
| PgExamples.LateCommitIsMissed | internal/comments/pgstore.go:80-184 | a run with an ascending clock in which a discussion commits behind the largest position of a window read before |
| SincePolling.RunsAreRecent | internal/comments/memstore.go:202-275 | every row that is new or changed after a point of a run carries a time no earlier than anything there was |
| SincePolling.RouteMaxItem | internal/routes/comments.go:335-341 | the route's item is one of the page's, with the largest full-precision time, then id |
| SincePolling.LastPageResends | internal/routes/comments.go:323-343 | a row of the route's page is past the route's cursor if and only if it shares the top item's millisecond with a larger id |
| SincePolling.RouteResendsExactly | internal/routes/comments.go:323-343 | when nothing is written meanwhile, a client that walked a window to its end got all of it, and its next poll sends again exactly the rows past the last page's maximum, or the whole window when the last page is empty |
| SinceWindow.RouteSkipsExactly | internal/routes/comments.go:296-343 | for a window read while anything is written: a matching row as it now stands was sent if and only if it stood so when the page that passes its id was read, is sent by the next poll if and only if it lies past the last page's pick or that page was empty, and so is never sent if and only if neither holds |
| SinceWindow.SkippedForGood | internal/routes/comments.go:323-343 | what lies behind one handed-out position lies behind every later one |
| SinceWindow.RouteSkipsInARun | internal/routes/comments.go:323-343 | five calls and two pages after which an edit was not sent and lies outside every later window |
| SincePolling.RouteResendsInARun | internal/routes/comments.go:323-343 | a run of three calls after which a two-page window resends its newest row |
| SincePolling.SameMillisecondResendsInARun | internal/routes/comments.go:323-343 | a run after which a single page resends a row of its top item's millisecond |
| Idempotency.Idempotency.constructor | internal/comments/idempotency.go:41-47 | an empty cache with the given capacity, or 1024 |
| Idempotency.Idempotency.Result | internal/comments/idempotency.go:62-76 | a miss exactly for keys outside the window of the last cap inserted keys; otherwise the latest remembered outcome, or a mismatch exactly for a different request hash |
| Idempotency.Idempotency.Remember | internal/comments/idempotency.go:80-95 | the cache keeps refining the window specification after one more outcome; empty keys are ignored |
| Idempotency.KeptExactlyUntilCapNewerKeys | internal/comments/idempotency.go:80-95 | an inserted key stays if and only if fewer than cap newer keys were inserted since |
| Idempotency.LatestStays | internal/comments/idempotency.go:62-95 | until the key is remembered again its answer is the outcome stored last |
| Idempotency.WindowIsDistinct | internal/comments/idempotency.go:80-95 | the order list has no duplicates and at most cap keys |
| Idempotency.FramingIsInjective | internal/comments/idempotency.go:49-60 | different (method, path, body) give different hash inputs when method and path hold no NUL |
| Idempotency.FramingNeedsNulFreePaths | internal/comments/idempotency.go:49-60 | with a NUL in the path two different requests can share a hash input |
| NavigationScope.BrowserNavigationScope.SelectNavigation | internal/downloader/browser_provenance.go:40-51 | a usable frame and URL start a new generation with an empty request table; anything else changes nothing |
| NavigationScope.BrowserNavigationScope.Observe | internal/downloader/browser_provenance.go:53-97 | the new scope and the permit are those of the specification step for every event |
| NavigationScope.BrowserNavigationScope.Current | internal/downloader/browser_provenance.go:99-104 | a permit is current exactly while its request, URL and generation are the table's |
| Provenance.ObserveKeepsFaithful | internal/downloader/browser_provenance.go:53-97 | every event keeps each table entry backed by the traffic: a request reached by that many declared redirects, and the target its latest redirect response declared |
| Provenance.GrantedIsJustified | internal/downloader/browser_provenance.go:78-97 | a permit is granted only for a final response reached from the selected URL in at most 8 redirects |
| Provenance.CapturesExactlyTheReachedResponses | internal/downloader/browser_provenance.go:40-97 | with distinct request ids, after any traffic a body may be read if and only if the event is a final main-frame response joined to the selected URL by at most 8 redirects, each the target the preceding request's last redirect response declared |
| BrowserRun.AcceptedBytesBelongToTheSelection | internal/downloader/browser.go:262-272 | in every interleaving of selections, events and delayed reads, an accepted body is a PDF read from a main-frame document request, that very request joined to the currently selected URL by at most 8 declared redirects |
| BrowserRun.NextHopIsMinedFromTheSelection | internal/downloader/browser.go:272-300 | candidates are tried only from a page that belongs to the current selection in the same sense |
| BrowserRun.SelectionsAreBounded | internal/downloader/browser.go:243-259 | at most 8 selections, each of a URL not selected before |
| BrowserRun.FetchSucceedsExactly | internal/downloader/browser.go:121-147 | FetchPDF succeeds if and only if the loop accepted a body with status 200 within the size limit and with a PDF trailer; a timeout's page never passes |
| BrowserRun.DirectPDFIsAccepted | internal/downloader/browser.go:170-272 | when the target itself answers with a PDF and nothing interferes, that body is accepted |
| BrowserCourse.FirstUsableCandidateIsSelected | internal/downloader/browser.go:272-300 | a page of the current selection is taken, rendered and mined, and its first usable candidate (a usable URL not selected before, fewer than eight selections) becomes the next selection |
| BrowserCourse.NoUsableCandidate | internal/downloader/browser.go:296-300 | a page without one is passed over and the loop waits on |
| BrowserCourse.CancelledPageIsPassedOver | internal/downloader/browser.go:276-285 | a page whose render wait is cut off is passed over |
| BrowserCourse.OutOfPlaceDoesNothing | internal/downloader/browser.go:264-300 | each step of the loop acts only where the loop is at it, and nothing happens once navigate has returned |
| BrowserCourse.LandingPageLeadsToThePDF | internal/downloader/browser.go:154-300 | when the target answers with a page and a candidate mined from it with a PDF, and nothing interferes, that PDF is accepted as the second selection's |
| BrowserCourse.BodyIsQueued | internal/downloader/browser.go:197-211 | PDF bytes go to the one queue, others to the other and to the remembered page; a queue holds eight and drops what does not fit |
| BrowserCourse.StaleTasksEnd | internal/downloader/browser.go:181-194 | a goroutine whose permit is not current, before or after reading, delivers nothing |
| BrowserCourse.EmptyBodyEnds | internal/downloader/browser.go:192-194 | an empty body delivers nothing |
| BrowserCourse.StaleBodiesAreDropped | internal/downloader/browser.go:268-275 | a queued body of an earlier selection is dropped |
| BrowserCourse.RefusedForTheFirstReason | internal/downloader/browser.go:121-139 | a body is refused for the first of: no PDF, a status other than 0 and 200, too large, no trailer |
| BrowserCourse.TrailerExactly | internal/downloader/browser.go:135-136 | a trailer is "%%EOF" starting in the last 2048 bytes, or "startxref" anywhere |
| BrowserCourse.TimeoutAnswers | internal/downloader/browser.go:301-315 | a time-out ends the wait with the last page, which is then no PDF, or with a time-out when there was none |
| BrowserCourse.LocationInAnyCase | internal/downloader/browser_provenance.go:85-85 | a redirect is read from the header Location in any letter case |
| BrowserCourse.RedirectDeclares | internal/downloader/browser_provenance.go:81-92 | a response redirects if and only if its status is 301, 302, 303, 307 or 308, and leads to its first Location resolved against its own URL and normalised, if it has one |
| ReleaseVersion.AcceptsExactlySemVer | web/bundle.go:29-48 | a value is accepted if and only if, after one optional v, it renders a version valid under sections 2, 9 and 10 of Semantic Versioning 2.0.0 and is no Go pseudo-version; the answer is the value without the v |
| ReleaseVersion.CanonicalIsIdempotent | web/bundle.go:34-48 | a canonical version is its own canonical version |
| ReleaseVersion.RenderIsInjective | web/bundle.go:29-48 | a version string has one reading only |
| ReleaseVersion.ReleaseParses | web/bundle.go:29-29 | whatever the first expression matches is major.minor.patch with dotted pre-release and build identifiers |
| ReleaseVersion.PseudoExactly | web/bundle.go:30-30 | the second expression finds exactly the strings that end with a mark, fourteen digits, a hyphen and twelve hexadecimal characters, perhaps with +incompatible |
| Checksum.ChecksumFor | web/bundle.go:160-186 | the first line naming the asset decides: malformed, invalid, duplicate if another names it, its digest otherwise; missing if none does |
| Checksum.SucceedsExactly | web/bundle.go:160-186 | success if and only if exactly one line names the asset and that line is well formed, with that line's digest |
| Checksum.PublishedTextIsRead | web/bundle.go:158-186 | a checksum file as sha256sum writes it gives every asset its own digest |
| Checksum.FieldsAreTheRuns | web/bundle.go:163-166 | a line's fields are its runs of characters that are not space |
| Checksum.LineResultExactly | web/bundle.go:173-180 | a naming line is malformed unless it has two fields, and good if and only if the first is 64 hexadecimal digits in either case |
| Checksum.NamedByExactly | web/bundle.go:167-167 | a field names the asset if and only if it is the asset, or the asset behind one star |
| Checksum.SpacesExactly | web/bundle.go:163-163 | the 25 characters that separate fields |
| Bundle.OpenBundle | web/bundle.go:261-337 | succeeds if and only if the archive is acceptable (size, digest, comment, count, safe unique names, kinds, sizes and contents, total, no file above an entry, completeness), and then holds exactly the regular entries' bytes |
| Bundle.ReadEntries | web/bundle.go:279-320 | the entry loop with its uint64 total accepts exactly readable entry lists |
| Bundle.CheckParents | web/bundle.go:322-331 | the parent walk ends and finds every directory above a name |
| Bundle.NoFileIsAParent | web/bundle.go:321-331 | in an accepted archive no regular file is above another entry, at any depth |
| Bundle.FilesAreTheRegularEntries | web/bundle.go:241-243 | a name opens exactly when a regular entry has it, with that entry's bytes |
| Bundle.ResidentBytesAreBounded | web/bundle.go:188-191 | the running total never exceeds the limit nor wraps, and no file exceeds its own |
| BundleNames.SafeExactly | web/bundle.go:54-56 | a name passes if and only if it is one or more plain elements joined by slashes: not empty, not "." or "..", without slash, backslash, colon, NUL or line ends |
| BundleNames.AcceptedNamesStayInside | web/bundle.go:282-286 | no entry of an accepted archive is "..", is absolute, or goes up anywhere |
| BundleNames.PackedPathsStayInside | web/bundle.go:109-111 | the same for every path of a packed tree |
| BundleNames.EntryAcceptedExactly | web/bundle.go:282-319 | an entry passes if and only if its name does and it is a directory without bytes, or a file of at most 16 MB whose bytes could be read; a trailing slash makes a directory |
| BundleNames.ArchiveAcceptedExactly | web/bundle.go:261-337 | an archive is accepted if and only if size, digest and comment are right and its entries fit: at most 20000, each readable, names apart, at most 256 MB of bytes, parents written as directories, the three pages and a script |
| BundleNames.TreePackedExactly | web/bundle.go:87-156 | a tree is packed if and only if it has the three pages and a script, everything found in it fits, wherever it is, within the counts, and the version is a release |
| BundlePack.Pack | web/bundle.go:87-156 | succeeds if and only if version, completeness, safe paths, file kinds, sizes, total and count allow it, and then writes the archive of the walk's files |
| BundlePack.PackVisits | web/bundle.go:100-150 | the walk callback's running limits are the limits on the whole tree, and entries are the files in walk order |
| BundlePack.WalkVisitsAll | web/bundle.go:102-114 | the walk visits everything Lookup finds |
| BundlePack.WalkIsDistinct | web/bundle.go:102-114 | the walk visits no path twice |
| BundleRoundTrip.PackThenOpen | web/bundle.go:87-337 | every tree and version Pack accepts, within the archive size limit, is accepted by openBundle under its digest and canonical version, with exactly the same map from paths to bytes |
| BundleRoundTrip.OtherVersionsRefuse | web/bundle.go:273-275 | a packed archive opens under no other version |
| Hex.DecodeEncode | web/resolve.go:118-118 | decoding an encoded digest gives it back |
| Hex.EncodeDecode | web/resolve.go:189-192 | what decodes is the encoding of its value up to letter case |
| Hex.EncodesDigits | web/resolve.go:118-118 | each byte is written as its two hexadecimal digits, the high one first |
| Hex.DecodesExactly | web/resolve.go:189-192 | a text decodes to these bytes if and only if it is their digits in either case |
| UiCache.StagedReadsBack | web/resolve.go:114-123 | a completely staged directory reads back as the verified archive |
| UiCache.EveryRunIsReached | web/resolve.go:59-128 | the invariant over every interleaving and crash: phases under the lock have one owner, staged content is what was written so far, outcomes match the cache |
| UiCache.CacheIsAbsentOrComplete | web/resolve.go:59-128 | with any processes and crashes the slot is as found, or was missing and is a complete archive with its digest that openBundle accepts; published at most once |
| UiCache.CacheNeverChangesAgain | web/resolve.go:84-128 | once anything is at the path no later step changes it |
| UiCache.OpenedTreesAgree | web/resolve.go:59-128 | all processes that return a tree return the same one, the cache's |
| UiCache.InvalidCacheFailsClosed | web/resolve.go:169-202 | an existing invalid cache is never replaced and nobody gets a tree from it |
| UiCache.OnePublisherAtATime | web/resolve.go:75-83 | downloading, staging and publishing are one process at a time |
| UiCache.UndisturbedProcessPublishes | web/resolve.go:66-127 | with nothing cached, the lock free and a good download, an undisturbed process publishes a complete cache, returns its tree, frees the lock and leaves no temporary directory |
| UiCacheCourse.CacheReadsExactly | web/resolve.go:169-202 | a cache is a miss if and only if nothing is there, and valid if and only if the directory holds an archive openBundle accepts under the 64-digit digest beside it |
| UiCacheCourse.ReadsAreReadCache | web/resolve.go:66-89 | from any state, at the first look and under the lock, the reads of a process end it with the tree of a valid cache, with an error on an invalid one, and send it on to the lock or the download on a miss |
| UiCacheCourse.ValidCacheIsOpened | web/resolve.go:66-68 | a new process that finds a valid cache returns its tree, from any state and without the lock |
| UiCacheCourse.SecondLookIsOpened | web/resolve.go:84-86 | a lock holder that finds what another process completed returns it, and the lock is free |
| UiCacheCourse.ValidCacheIsReturned | web/resolve.go:66-70 | whatever other processes do in between, a process that began when the cache was valid is never sent elsewhere and ends only with its tree, unless one of its own calls fails |
| UiCacheCourse.FailureEndsIt | web/resolve.go:69-107 | a failing read, a time-out or a bad download ends the process with an error, its lock is freed, nothing else changes |
| UiCacheCourse.StagingFailureCleansUp | web/resolve.go:109-127 | a failure while staging, or a refused rename, removes the directory and ends with an error, the lock freed |
| UiCacheCourse.CrashFreesTheLock | web/resolve.go:75-76 | a crash leaves all files as they are and frees the lock |
| UiCacheCourse.StagedFilesAreBegun | web/resolve.go:114-123 | in every reachable state staged files hold the first bytes of what they are to hold, the digest only after a whole archive |
| UiCacheCourse.StagedFilesGrow | web/resolve.go:130-145 | a write adds at most its bytes to its own directory, closing adds none |
| UiCacheCourse.WritesAdd | web/resolve.go:130-145 | a file may be written in any pieces |
| UiCacheCourse.LockIsHeldExactly | web/resolve.go:75-83 | in every run the lock is held by a process if and only if it is live between its second look and its end, so a waiting process gets it if and only if nobody is there |
| UiCacheDirs.LeftBehindExactly | web/resolve.go:105-127 | after any run a temporary directory made in it exists without a live process that has it if and only if its process crashed while it was there or failed to remove it |
| PrunePlan.PlanPruneCandidates | cmd/qatlasd/storage_cmd.go:290-328 | for any map order and any unstable sort, the plan takes from each key max(0, eligible - keepLast) eligible versions, none newer than one that stays, sorted by key then newest first |
| PrunePlan.CurrentVersionsAreSafe | cmd/qatlasd/storage_cmd.go:276-283 | a plan holds only listed, noncurrent versions outside the age cap |
| PrunePlan.NewerOnesStay | cmd/qatlasd/storage_cmd.go:305-318 | a key that loses a version keeps exactly keepLast eligible ones, all at least as new as any that goes |
| PrunePlan.PlanReadsInOrder | cmd/qatlasd/storage_cmd.go:320-326 | keys ascend and within a key times descend |
| PrunePlan.ReplanningIsEmpty | cmd/qatlasd/storage_cmd.go:290-328 | planning again after applying a plan, same clock, finds nothing |
| PrunePlan.TieFreeChoiceIsUnique | cmd/qatlasd/storage_cmd.go:305-318 | without equal times the versions taken from a key are determined |
| PruneExact.PlannedByRank | cmd/qatlasd/storage_cmd.go:290-318 | whatever the ties: a version goes only if it is not current, delete marker or not, and outside the age cap; then it goes for certain when keepLast such versions of its key are newer, and stays for certain when no more than keepLast are as new |
| PruneExact.PlannedExactly | cmd/qatlasd/storage_cmd.go:290-318 | without ties a version goes if and only if it may and keepLast or more newer ones of its key may too |
| LayoutMigration.ParseIsExact | cmd/qatlasd/storage_migrate_cmd.go:66-66 | the pattern's submatches exist exactly for keys of legacy shape |
| LayoutMigration.RewriteIsInjective | cmd/qatlasd/storage_migrate_cmd.go:212-214 | different legacy keys are rewritten to different keys |
| LayoutMigration.NewKeysAreNotLegacy | cmd/qatlasd/storage_migrate_cmd.go:61-66 | a rewritten key is never eligible again, whatever the category |
| LayoutMigration.MigrateOneKind | cmd/qatlasd/storage_migrate_cmd.go:188-259 | bucket and counters after the loop are those of the specified run, whatever each request answers |
| LayoutMigration.EveryObjectIsAccountedFor | cmd/qatlasd/storage_migrate_cmd.go:198-257 | with --apply eligible = alreadyMigrated + deleted + failed; a limit bounds deletions, and copies up to the failures |
| LayoutMigration.CopiesExceedTheLimitExactly | cmd/qatlasd/storage_migrate_cmd.go:198-257 | a run copies more objects than its limit if and only if more listed objects can be copied (eligible, there, new key not seen, copy requests succeeding) and the delete of the one that reaches the limit fails |
| LayoutMigration.LimitIsExceeded | cmd/qatlasd/storage_migrate_cmd.go:232-257 | a run with limit 1 that copies two objects |
| LayoutMigration.DryRunChangesNothing | cmd/qatlasd/storage_migrate_cmd.go:223-230 | without --apply the bucket is unchanged |
| LayoutMigration.PairResult | cmd/qatlasd/storage_migrate_cmd.go:198-257 | each visited object ends as if migrated alone: other objects never interfere with its two keys |
| LayoutMigration.ContentIsKeptExactly | cmd/qatlasd/storage_migrate_cmd.go:216-251 | whatever fails, every object's content stays under its old or new key if and only if no visited object clashes: its new key is occupied by something else, Stat failed, and either the server-side copy overwrote that or a Put answered 412, itself not failing, was followed by the delete |
| LayoutMigration.CalmObjectsAreMoved | cmd/qatlasd/storage_migrate_cmd.go:232-251 | in an unlimited run an object none of whose requests fails is gone from its old key and has the same content under the new one |
| LayoutMigration.ClashLosesContent | cmd/qatlasd/storage_migrate_cmd.go:269-276 | a run in which the unconditional server-side copy loses the newer object |
| LayoutMigration.RerunRetriesTheDeleteExactly | cmd/qatlasd/storage_migrate_cmd.go:216-251 | after a run whose delete of an object failed, a run over the bucket it left tries that delete again if and only if its own Stat of the new key fails and the requests of its copy succeed; with a working Stat the object counts as migrated and its old key stays |
| LayoutMigration.EligibleExactlyBelowTheCutover | cmd/qatlasd/storage_migrate_cmd.go:205-208 | a legacy key is eligible if and only if its month number is below the cap's; the 1990s are not below 0704 |
| LayoutCourse.ParsesWhatThePatternMatches | cmd/qatlasd/storage_migrate_cmd.go:66-66 | a key is taken apart if and only if the regular expression, written out, matches it |
| LayoutCourse.KeysAsPaths | cmd/qatlasd/storage_migrate_cmd.go:212-214 | split at slashes, an old key is month and file name and its new key is month, the category's elements and file name |
| LayoutCourse.EligibleAsWritten | cmd/qatlasd/storage_migrate_cmd.go:201-208 | an object is touched if and only if the expression matches its key and its month is numerically below the cap |
| LayoutCourse.CalmObjectsGoUnderTheirCategory | cmd/qatlasd/storage_migrate_cmd.go:212-251 | an object none of whose requests fails is afterwards under the key whose path is its month, the category and its file name, content and metadata unchanged, and gone from its old key |
| LayoutCourse.NewKeyAfterwards | cmd/qatlasd/storage_migrate_cmd.go:269-300 | what each combination of request outcomes leaves under the old and the new key |
| LayoutCourse.CountersCountObjects | cmd/qatlasd/storage_migrate_cmd.go:198-257 | each counter is the number of listed objects of its kind, judged by bucket, listing and request outcomes alone |
| LayoutCourse.StopsExactlyAtTheLimit | cmd/qatlasd/storage_migrate_cmd.go:225-256 | a run stops early if and only if an object it came to was moved when as many as the limit had been copied, or, without --apply, would be moved when as many had been eligible |
| Backfill.ListUntitled | internal/registry/backfill.go:59-87 | the smallest ids above the cursor, ascending, up to the limit, which determine the page |
| Backfill.RunBackfill | cmd/qatlasd/papers_cmd.go:358-443 | terminates over finite keys with exactly the end, log, cursor and counters of the specified run, in whose rounds the limit, the listing, an interruption, the fetch and the rows are looked at in this order |
| Backfill.RunsEndRightly | cmd/qatlasd/papers_cmd.go:358-443 | however a run ends, ids passed strictly ascend, each treated as its round's answers say, never more than a positive limit, and every row up to the cursor that was untitled in all queries was passed; it ends interrupted or with a listing error only when its last round says so, with an update error on the failing row, and exhausted only at the limit or when every such row was passed |
| Backfill.UndisturbedRunVisitsAll | cmd/qatlasd/papers_cmd.go:358-443 | an unlimited run that no interruption, listing failure or update failure stops ends exhausted and has passed every row that stayed untitled, whichever fetches failed |
| Backfill.RunEnds | cmd/qatlasd/papers_cmd.go:358-443 | over finitely many papers every run can be continued to its end |
| Backfill.UpdatePage | cmd/qatlasd/papers_cmd.go:497-527 | one fetched page extends the log by its rows in order, missing, dry-run, claimed or updated, up to and with the first whose update fails, on which the cursor then stands |
| Backfill.SkipPage | cmd/qatlasd/papers_cmd.go:396-405 | a failed batch extends the log by all its rows as missing, and the cursor stands on the last |
| Backfill.CountersAddUp | cmd/qatlasd/papers_cmd.go:276-283 | processed = updated + missing unless the run stopped at a failing update (then one more), and claims never exceed updates |
| BackfillRounds.MarkExactly | cmd/qatlasd/papers_cmd.go:407-436 | a row is missing if and only if the fetch failed or brought no title for it; otherwise a dry run counts it updated, and a real one updated or failed, and claimed, as the store answers |
| BackfillRounds.CountersCountRows | cmd/qatlasd/papers_cmd.go:396-436 | each counter is the number of rows passed that the answers of their rounds put there |
| BackfillRounds.RoundExactly | cmd/qatlasd/papers_cmd.go:364-443 | one round, exactly: limit, listing, emptiness, interruption in this order, then the smallest ids above the cursor, as many as there is room for, up to and with the first failed update |
| FileTokens.StepKeepsInv | cmd/downloaderproxy/main.go:199-331 | every critical section and file-system call keeps the ownership of files, paths, tokens and pickups |
| FileTokens.ServedOnce | cmd/downloaderproxy/main.go:269-313 | over all interleavings a job's file is served to at most one request |
| FileTokens.OrdinaryPickup | cmd/downloaderproxy/main.go:162-313 | from any state, a job submitted, run, stored and picked up in time is served and its file removed |
| FileTokens.ServedBeforeExpiry | cmd/downloaderproxy/main.go:293-302 | a served file was picked up no later than its token's expiry |
| FileTokens.RetrievedFileIsGone | cmd/downloaderproxy/main.go:303-313 | after the first retrieval the file is still there if and only if an open or remove of it failed |
| FileTokens.OrphanedExactlyByFaults | cmd/downloaderproxy/main.go:199-331 | after any run a file is stored without being any listed job's or pickup's if and only if an open or remove of that file failed in the run |
| FileTokens.EveryFileIsAccountedFor | cmd/downloaderproxy/main.go:199-331 | every stored file is being stored, is the path of a listed job, or is in the hands of a pickup, if and only if no open or remove of the run failed |
| FileTokens.FailedOpenOrphans | cmd/downloaderproxy/main.go:293-313 | the continuation of any run in which a pickup's failing open leaves a stored file that is nobody's |
| FileTokens.ForgettingOrphansNothing | cmd/downloaderproxy/main.go:315-331 | a forgotten job's remaining file is in a pickup's hands if and only if no open or remove of it failed |
| FileTokens.PathsNeverDangle | cmd/downloaderproxy/main.go:293-331 | a job's path and a pickup's path always name an existing file |
| FileTokens.ShownUntilExpiry | cmd/downloaderproxy/main.go:254-266 | the job view shows the token of a done job exactly until it expires |
| FileTokens.ConsumedTokenIsStillShown | cmd/downloaderproxy/main.go:274-280 | taking a token changes nothing in the job view |
| FileTokenCourse.SweepLeavesTheRest | cmd/downloaderproxy/main.go:315-331 | until 1800 seconds after its expiry, and forever if it has no file, the sweep leaves a job, its path and its file as they are |
| FileTokenCourse.SweepTakesTheFile | cmd/downloaderproxy/main.go:315-331 | past that the path is cleared and the file removed, if the file system lets it, and nothing else changes |
| FileTokenCourse.ForgottenExactly | cmd/downloaderproxy/main.go:325-328 | a job leaves the list if and only if the sweep finds its expiry more than 3600 seconds back |
| FileTokenCourse.OnlyTicksTakeTime | cmd/downloaderproxy/main.go:199-331 | the clock goes on to any later time and never back, and no other step moves it |
| FileTokenCourse.ExpiryIsSetOnce | cmd/downloaderproxy/main.go:228-237 | a job is done by its publication only, expires 1800 seconds later, and keeps time and token |
| FileTokenCourse.KeptUntilTakenOrStale | cmd/downloaderproxy/main.go:199-331 | in every run a done job's file, path and token are there until a request takes the token or 1800 seconds have passed since the expiry |
| FileTokenCourse.TimelyPickupIsServed | cmd/downloaderproxy/main.go:269-313 | after any run the first request that comes with a done job's token no later than its expiry is served the file, which is then gone |
| FileTokenCourse.LatePickupIsRefused | cmd/downloaderproxy/main.go:293-302 | a request after the expiry is refused, uses up the token, and the file is removed |
| FileTokenCourse.UnknownTokenIsRefused | cmd/downloaderproxy/main.go:274-283 | a request whose token is unknown or used changes nothing |
| FileTokenCourse.OpenDecides | cmd/downloaderproxy/main.go:303-313 | a request serves the file if and only if it can open it, and the file goes if its removal succeeds |
| FileTokenCourse.NothingToPickUp | cmd/downloaderproxy/main.go:284-302 | a request for a forgotten job, or one whose path is gone, is refused |
| FileTokenCourse.RefusedJobsGetNothing | cmd/downloaderproxy/main.go:162-222 | invalid and failed jobs never change again in any run and never have a token, a path or a file |
| FileTokenCourse.SubmittedAndFailed | cmd/downloaderproxy/main.go:172-216 | an identifier that parses makes a queued job, another an invalid one; a failed download makes a failed job |

## Left out

- HTTP handlers, authentication, SQL text, CDP and S3 calls: they appear only as steps, parameters or relations.
- SQL text comparison is taken to be byte order, like Go's; a database collation that orders ids differently is not modelled.
- PgRefinement.Linearizable: CreateDiscussion's two INSERTs are one step; neither is visible to another transaction before the commit.
- PgRefinement.Linearizable: answers are compared up to the reply count, which MemStore leaves unset in mutating calls; a call with an empty reason is answered with that error even when the discussion is missing.
- PgRefinement.Linearizable: a call's time stands for the transaction's start, PostgreSQL's now(); one transaction reads one clock value.
- KeysetWalk.FinishedWalkIsASnapshot: assumes ids that increase, as `internal/comments/ids.go:11-14` says; FinishedWalkMissesNothing is what remains without that.
- SincePolling.NextPoll: assumes a clock that does not go back and increasing ids, which a serial store gives; PgReads.CommittedChangeIsPolledExactly is what holds of overlapping transactions.
- SincePolling.RouteResendsExactly: the window is walked while nothing is written; SinceWindow.RouteSkipsExactly is what holds otherwise.
- Anchor validation, the checks the routes make on bodies, scopes and types, and the event bus.
- Idempotency: SHA-256 itself; and exactly-once execution, which the code does not give because Result and Remember are separate calls.
- Browser URL parsing, HTML mining and the live DOM check: normalisation and resolution are any functions, candidate lists any lists.
- BrowserRun.FetchSucceedsExactly: which error a non-PDF page gets (paywall, challenge, other) is one answer here.
- BrowserRun: timers and the context are one nondeterministic step; no liveness is claimed.
- BundlePack.Pack: which error is reported, and sizes of links in the completeness check; a tree with a link is refused either way.
- Bundle: the ZIP and DEFLATE byte format and zip.Reader's own directory listing beyond what the collision check asks of it.
- UiCache: other versions' processes, tampering, power loss, and a random directory name chosen twice; HTTP redirects and size limits of the download are one accepted or refused answer.
- PrunePlan.PlanPruneCandidates: duration overflow of the age cap; deleting the planned versions.
- LayoutMigration.MigrateOneKind: bytesCopied, and other writers to the bucket during a run.
- Backfill.RunBackfill: paper ids are numbered in the order of paper_id; the two sources' loops differ only in the id they fetch by and the claim they count, so one method stands for both; a title of blanks counts as an update in the code and here.
- FileTokens.ServedOnce: safety only; run and sweep take the two mutexes in opposite orders, so freedom from deadlock is not claimed, and tokens of forgotten jobs stay in the map.
- FileTokens.EveryFileIsAccountedFor: temporary `.part-*` files a failed write leaves behind.
- `internal/config`, command-line flags, service installation, the agentic runner and generated documentation: plumbing.
