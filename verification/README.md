# Verification of the governance indexer

This project models the parts of the DRep governance service (backend, queue workers, frontend codecs and hook) that
hold algorithms over unbounded data, and proves what they promise. `dafny verify dfyconfig.toml` checks all of it
(Dafny 4.11).

## What is modelled

- **The timeline watcher** (`TimelineLog`, `TimelineWatcher`, `TimelineWatcherWorker`,
  `DelegationHistory`). A cursor over the event table that records a synthetic undelegation for every
  switch of DRep. `TimelineWatcher.Next` cuts a job into the steps between which other writers and
  crashes can come; the worker class is proved to be an uninterrupted run of them.
- **The delegator sync** (`DelegatorSync`, `DelegatorSyncWorker`, `DelegatorSyncFacts`). Paged fetch,
  diff, chunked transaction, and the count update after it.
- **The epoch timeline** (`EpochWindow`, `Bundling`, `EpochPage`, `EpochWalk` on the server;
  `TimelineClient`, `TimelineIds`, `TimelineWalk` in the browser hook). Cursors, clamps, epoch
  arithmetic, grouping and bundling, the merge of pages, and the two together.
- **The legacy timeline** (`LegacyWidening`, `LegacyStream`). Recursion over time windows that double in size, first
  for complete answers, then as the stream it is: windows answer in parts, each part that is too short starts the
  recursion again, and a later part cuts it off. The method has no caller in the repository but itself.
- **DRep identity** (`Bech32`, `DRepIdentity`, `Consolidation`, `ConsolidationFacts`, `DRepAliases`).
  The CIP-105 and CIP-129 codecs, the in-memory and the SQL consolidation of aliases, and the lookup by
  any alias.
- **Smaller state machines** (`ProposalSync`, `CommentTree`, `DRepClaim`, `RetryRequest`).

`Basics` and `StableSort` (the contract of JavaScript's stable sort) are shared. Code that changes state
is modelled by classes and by methods with loops; each is tied to a function of the old state, and the
results are proved about that function. Remote answers, clocks, failures and the order in which the
database returns rows are parameters, so each result holds for all of them.

## Assumptions

- Event ids grow with insertion. `tx_index` of rows from the chain lies in 0..999,999. The watcher is
  covered under the unique index before and after the migration that adds `event_type` to it.
- The synthetic hashes of the delegator sync tell pairs apart because DRep ids contain no hyphen. DRep ids are primary
  keys, so a run meets each once.
- No delegation stores the empty string as its DRep, which the watcher takes for none.
- Ids of stored events, votes and notes are primary keys; the notes of a page are these rows joined with the signatures.
  Stored ids start with none of `vote-`, `note-` and `bundle-`. A number `rank` stands for the place of an id in the
  order of `localeCompare`. Walks fix the current epoch and the data, except where a growing epoch is said.
- Comment ids grow, so a reply's id exceeds its parent's. Sequence ids are never reused.
- Proposals: `ItemIsLocal`, `RunsKeep`, `RunDecides`, `RunReflects` and `SecondRunChangesNothing` need that an answer is
  about the proposal asked for and that ids and (txHash, certIndex) determine each other.
- Consolidation: "ties" are two rows of one DRep with equally long hex and the same creation time; where a row below says
  so, there are none. The alias lookups are about rows whose hex carries the hash of their id, and about ids of some form.
- Results on the pages of the older walk (`EpochWalk`) are for current epochs up to 10004, from which the walk ends.
- Claim jobs and sync runs are run one at a time.

## Where the code does less than it seems to

- Following `nextCursor` reaches epoch 0 if and only if the current epoch is at most 10004: beyond that the second page's
  cursor is taken for a legacy timestamp, and the first page comes again for ever
  (`EpochWindow.OlderWalkReachesFirstIff`, `OlderWalkLoops`).
- A cursor off the map (`OffTheMap`) makes the third clamp give epochs after the current one, or epochs 0..3
  (`EpochWindow.WindowIsSane`).
- A DRep that loses its last delegator keeps its old count (`DelegatorSyncFacts.CountIsExactIff`, with a concrete run in
  `LastDelegatorLeaves`).
- A stored event shows in the epoch timeline if and only if its stored epoch and that of its timestamp are on one page
  (`EpochWalk.StoredEventShownIff`). The undelegations of the delegator sync, stored under epoch 0, so never show
  (`MismatchedEpochNeverShown`).
- The delegator sync upserts its undelegations on (txHash, txIndex), but a migration moves the unique index to three
  columns (backend/src/migrations/1778100000000-UpdateTimelineUniqueConstraint.ts:10-17). PostgreSQL then refuses the
  statement, so that a DRep that has lost a delegator keeps all its old rows, run after run
  (`DelegatorSyncFacts.InLineIff`).
- A note is shown once for each signature of the DRep that is linked to its profile, and a profile registered with two
  signatures shows each note twice (`EpochWalk.NoteShownOnceIff`, `TimelineWalk.TwoSignaturesShown`). Loading the page
  again then changes the list (`TimelineWalk.ReloadChangesNothingIff`, `TwoSignaturesReload`).
- An item that reaches the server between two loads of its page goes behind the items the browser has, however new it
  is, so that the group may no longer be newest first (`TimelineClient.JointItems`, `MergedGroups`).
- The legacy timeline does not keep to one window query for each level: a window answers in four parts, and each part
  that is too short starts the next level again. The bound fails whenever windows answer in several parts, a level may
  follow and entries are asked for (`LegacyStream.LevelBoundForAllIff`); at a given instant a newer request can be held
  to fewer levels by the present, and then it may hold (`LevelBoundAtOnceIff`). With nothing to find, an older request
  that is not cut off makes 85 queries by default where 4 windows lie on the way, most of them for a window that was
  queried before (`SilentWindows`, `OneQueryPerWindowIff`, `AskedAgain`). What it answers in the end is still right
  (`LastIsAnswer`).
- The legacy widening reads a cursor of 0 as "now": the closed form of its reach holds if and only if no start on the way
  is 0 (`LegacyWidening.OlderReachIff`), and older windows are disjoint if no cursor on the way is, and today, up to
  maxDepth 13, only if (`OlderIsDisjointIff`).
- The two phrase processors differ exactly on undecodable 56-character phrases that start with "drep"
  (`DRepIdentity.ProcessorsAgreeIff`, with a concrete phrase in `ProcessorsDiffer`).
- With a row filter the in-memory and the SQL consolidation can list different DReps
  (`ConsolidationFacts.FiltersAgreeIff`, `InactivePrimaryDiffers`): one filters before it consolidates, the other after.
  Retired DReps are dropped by the SQL version only (`RetiredFilterIff`, `RetiredRowDiffers`).
- `MakeRequest` turns every network error into one with a status, so the error codes `retryRequest` tests for never
  arrive there, and a dropped connection is retried as a 500 (`RetryRequest.SettledIsNotRetryable`).
- A claim job that was rolled back is not idle when it comes again: without a fault it then registers
  (`DRepClaim.JobIsIdleIff`). And a claim job reports "DRep claimed" also when the claim was refused or rolled
  back; only the profile id in its answer tells (`DRepClaim.DrepClaimWorker.Process`).

## Model

| member | source | states |
|---|---|---|
| TimelineWatcher.LogIsExact | queue-backend/src/workers/timeline-watcher.worker.ts:33-149 | Over every interleaving of other writers' inserts, batches, throwing handlers, crashes before the cursor is saved and replays, under the unique index of either migration state: a delegation whose address's newest earlier delegation names another DRep (`Leaves`) is told of by a synthetic undelegation from that DRep, and then exactly one, if and only if it was handled without a throw, be it on a replay; the cursor has passed only events that were handled or threw; and every row with an offset key tells of such a delegation |
| TimelineWatcher.StepsKeepInv | queue-backend/src/workers/timeline-watcher.worker.ts:33-149 | The invariant behind it (growing ids, unique keys, running batch in place, exactly the handled switches recorded) survives any sequence of steps |
| TimelineWatcher.SyntheticKeyIsRecord | queue-backend/src/workers/timeline-watcher.worker.ts:123-144 | A row already under the offset key of a switch can only be that switch's own record, so insert-or-ignore never drops one and keys never meet real events |
| TimelineWatcher.HandleAppends | queue-backend/src/workers/timeline-watcher.worker.ts:105-149 | Handling an event adds at most one row, an undelegation, and only for a delegation; the log stays in order |
| TimelineWatcher.HandleLeavesRecord | queue-backend/src/workers/timeline-watcher.worker.ts:121-144 | After handling a switch, for the first time or again after a crash, its record is in the log |
| TimelineWatcher.HandleFirst | queue-backend/src/workers/timeline-watcher.worker.ts:105-121 | An address that has not delegated before, or none, adds nothing |
| TimelineWatcher.HandleDecides | queue-backend/src/workers/timeline-watcher.worker.ts:105-149 | The newest earlier delegation of the address decides: if it names the DRep that is delegated to again, or none, nothing is added; if it names another one, the undelegation from it is in the table, and at most that row is new |
| TimelineLog.InsertGoesInIff | backend/src/migrations/1778100000000-UpdateTimelineUniqueConstraint.ts:10-17 | A row goes in, under the next id, exactly when every row of the same transaction and index has another event type and the index has all three columns; otherwise the rows stay as they are |
| TimelineLog.LatestBeforeIsNewest | queue-backend/src/workers/timeline-watcher.worker.ts:111-119 | The look-back query finds the delegation by the stake address with the largest smaller id, or nothing exactly when there is none |
| TimelineLog.BatchSkipsNothing | queue-backend/src/workers/timeline-watcher.worker.ts:43-51 | A batch is exactly the rows between the old cursor and its own last id, at most 50, and all that are pending if it has fewer: no event is passed over, an empty batch means there is nothing above the cursor, and a non-empty one moves it up |
| TimelineWatcherWorker.TimelineWatcherWorker.Process | queue-backend/src/workers/timeline-watcher.worker.ts:33-103 | One job: table, cursor, processed count, last id and triggers after it, as functions of the state before it and of which handlers throw |
| TimelineWatcherWorker.TimelineWatcherWorker.HandleDelegation | queue-backend/src/workers/timeline-watcher.worker.ts:105-149 | The new table is that of the state machine's handler for this event |
| TimelineWatcherWorker.RunIsSteps | queue-backend/src/workers/timeline-watcher.worker.ts:33-103 | A job does what the uninterrupted sequence fetch, handle, ..., save does in the state machine, so that the results above speak about jobs |
| TimelineWatcherWorker.TriggersAreNeeded | queue-backend/src/workers/timeline-watcher.worker.ts:55-91 | The DRep sync is queued if and only if the batch has a registration or a retirement, the proposal sync if and only if it has a proposal, the vote sync if and only if it has a vote |
| TimelineWatcherWorker.JobProgress | queue-backend/src/workers/timeline-watcher.worker.ts:43-95 | With delegations weighing 2 and other events 1, a job lowers the weight of the pending events by at least its batch; a last batch leaves only undelegations, and then nothing |
| TimelineWatcherWorker.JobsDrain | queue-backend/src/workers/timeline-watcher.worker.ts:43-95 | Without new external events, weight / 50 + 2 jobs drain the table although they append events themselves, and failing handlers do not hold the cursor back |
| TimelineWatcherWorker.JobKeepsQuiet | queue-backend/src/workers/timeline-watcher.worker.ts:43-95 | The cursor never moves down and strictly up on a non-empty batch |
| DelegationHistory.RemovalsOf | queue-backend/src/workers/timeline-watcher.worker.ts:121-144 | The undelegations stored for a delegation that was handled without a throw are exactly the one its switch calls for, or none |
| DelegationHistory.HistoryNamesLatest | queue-backend/src/workers/timeline-watcher.worker.ts:105-149 | Once the delegations of a stake address are handled, replaying its events (each delegation after its undelegation) leaves, at every prefix of the log, exactly the DRep its latest delegation names, or none if it names none, repeated delegations to one DRep included |
| DelegationHistory.ReplayOfRuns | queue-backend/src/workers/timeline-watcher.worker.ts:105-149 | The same for every run of the state machine that has handled the delegations of the address, whatever threw or crashed on the way |
| DelegatorSync.FetchDelegators | queue-backend/src/workers/governance-sync.worker.ts:129-147 | The page loop fails exactly if a page fails before the list ends, and otherwise collects the entries of all pages up to the first empty or short one |
| DelegatorSync.FetchFailsIff | queue-backend/src/workers/governance-sync.worker.ts:131-147 | A fetch fails if and only if an error comes before the first page with fewer than 100 entries |
| DelegatorSync.ShortPageEnds | queue-backend/src/workers/governance-sync.worker.ts:135-139 | Nothing is asked for after a page with fewer than 100 entries |
| DelegatorSync.PagingIsWhole | queue-backend/src/workers/governance-sync.worker.ts:132-145 | If the remote serves a list in pages of 100, the loop gets the map of the whole list |
| DelegatorSync.LastEntryCounts | queue-backend/src/workers/governance-sync.worker.ts:137 | Of several entries with one address the last one counts |
| DelegatorSync.DiffFetched | queue-backend/src/workers/governance-sync.worker.ts:152-162 | The insert and update lists are the fetched addresses without a row, each once, and those with another amount |
| DelegatorSync.DiffExisting | queue-backend/src/workers/governance-sync.worker.ts:165-167 | The delete list is the rows whose address was not fetched, with their amounts |
| DelegatorSync.DeleteInChunks | queue-backend/src/workers/governance-sync.worker.ts:175-179 | Deleting in chunks of 1000 is one deletion of the whole list |
| DelegatorSync.UpsertEventsInChunks | queue-backend/src/workers/governance-sync.worker.ts:194-196 | Upserting the events in chunks is one upsert of all of them |
| DelegatorSync.InsertInChunks | queue-backend/src/workers/governance-sync.worker.ts:199-201 | Inserting in chunks is one insert, and no chunk meets a key that is already there |
| DelegatorSync.UpsertRowsInChunks | queue-backend/src/workers/governance-sync.worker.ts:203-207 | Upserting rows in chunks is one upsert of all of them |
| DelegatorSync.StatementsAreSync | queue-backend/src/workers/governance-sync.worker.ts:169-208 | Delete, insert and update together replace exactly the DRep's rows by the fetched ones, keeping rows whose amount is the same |
| DelegatorSync.EventsAreSync | queue-backend/src/workers/governance-sync.worker.ts:181-196 | The events written are one undelegation for each removed address |
| DelegatorSyncWorker.GovernanceSyncWorker.SyncDRepDelegators | queue-backend/src/workers/governance-sync.worker.ts:122-216 | Rows, events and the reported total after a whole run over the DReps, failed fetches and transactions included, each DRep's undelegations at its own time |
| DelegatorSyncFacts.TotalCountsFetched | queue-backend/src/workers/governance-sync.worker.ts:209-215 | The reported total is the number of delegators fetched for the DReps that were reconciled |
| DelegatorSyncWorker.GovernanceSyncWorker.Reconcile | queue-backend/src/workers/governance-sync.worker.ts:149-212 | A transaction that commits replaces the DRep's rows and adds its events; one that fails, as it does under the three-column index when a delegator has left, changes nothing |
| DelegatorSyncWorker.GovernanceSyncWorker.ApplyStatements | queue-backend/src/workers/governance-sync.worker.ts:170-208 | The tables after the chunked statements of one transaction, and that it is refused exactly if it upserts events without an index for them |
| DelegatorSyncWorker.GovernanceSyncWorker.UpdateDelegationCounts | queue-backend/src/workers/governance-sync.worker.ts:438-453 | The counts after the update loop: those of the grouped query where the update succeeds, the old ones elsewhere |
| DelegatorSyncFacts.ReachedIff | queue-backend/src/workers/governance-sync.worker.ts:128-212 | A run reconciles exactly the listed DReps whose pages all arrive and whose transaction commits, and under the three-column index only those that nobody has left |
| DelegatorSyncFacts.SyncReflectsSource | queue-backend/src/workers/governance-sync.worker.ts:128-213 | After a run every DRep that was fetched and committed has exactly the fetched address-to-amount map, and every other DRep the rows it had |
| DelegatorSyncFacts.InLineIff | queue-backend/src/workers/governance-sync.worker.ts:169-212 | A DRep that was fetched, and met no other failure, is in line with the remote after the run if and only if the index is the two-column one or none of its stored delegators has left |
| DelegatorSyncFacts.ExactlyDroppedGetEvents | queue-backend/src/workers/governance-sync.worker.ts:165-196 | The event table is the old one with exactly one undelegation, telling the old amount, for each pair the run dropped |
| DelegatorSyncFacts.DroppedPairHasEvent | queue-backend/src/workers/governance-sync.worker.ts:181-196 | Row by row: the key and the columns of each of these undelegations, and that every other event is as it was |
| DelegatorSyncFacts.SecondRunChangesNothing | queue-backend/src/workers/governance-sync.worker.ts:128-213 | A second run against the same lists changes no row and no event, whatever fails in it |
| DelegatorSyncFacts.CountIsExactIff | queue-backend/src/workers/governance-sync.worker.ts:438-453 | A count is right after the update if and only if the DRep has a delegator and its update succeeds, or it was right before |
| DelegatorSyncFacts.JobCounts | queue-backend/src/workers/governance-sync.worker.ts:438-453 | After sync and count update the count of a reconciled DRep is the number of fetched delegators if there is one and the update succeeds; with none fetched it stays what it was |
| DelegatorSyncFacts.LastDelegatorLeaves | queue-backend/src/workers/governance-sync.worker.ts:442-444 | A concrete run, under the two-column index, after which a DRep without delegators still shows one |
| EpochWindow.WindowHoldsItsEpochs | backend/src/governance/governance.service.ts:654-679 | An instant lies in the half-open window of epochs s..e if and only if its epoch does; epoch n is the five days from anchor + n * 432,000,000 ms on |
| EpochWindow.WindowsTile | backend/src/governance/governance.service.ts:660-679 | Consecutive windows tile time: an instant of the joint window is in exactly one of the two |
| EpochWindow.WindowIsSane | backend/src/governance/governance.service.ts:236-260 | For every cursor the three clamps give one to four epochs from 0 on; they pass the current epoch only for cursors that no page hands out, characterised exactly |
| EpochWindow.WindowIs | backend/src/governance/governance.service.ts:236-260 | Which epochs every cursor gives: the newest four without one, the four up to an older one, the four from a newer one on, cut off at 0 and at the current epoch unless nothing would be left |
| EpochWindow.OlderWalkVisitsEachEpochOnce | backend/src/governance/governance.service.ts:236-260 | Following nextCursor from the first page takes ceil((C + 1) / 4) pages and shows every epoch 0..C on exactly one of them, even if the current epoch grows meanwhile |
| EpochWindow.OlderWalkLoops | backend/src/governance/governance.service.ts:239-256 | Above 10004 the second cursor is taken for a timestamp and every further page is the first one again |
| EpochWindow.OlderWalkReachesFirstIff | backend/src/governance/governance.service.ts:239-256 | The walk reaches epoch 0 if and only if the current epoch is at most 10004 |
| EpochWindow.WalksStayAligned | backend/src/governance/governance.service.ts:556-557 | Any sequence of older and newer steps stays on the blocks of four counted down from the current epoch, and beyond 10004 on the first of them |
| EpochWindow.ThereAndBack | backend/src/governance/governance.service.ts:556-557 | From every reachable page older-then-newer and newer-then-older come back to the same window |
| EpochWindow.CursorRoundTrip | backend/src/governance/governance.service.ts:236-237 | The cursor text made for an epoch is read back as that epoch |
| EpochWindow.CursorNeedsDigits | backend/src/governance/governance.service.ts:236-237 | A text is a cursor if and only if digits, and at least one, stand before its first underscore |
| Bundling.BundledIsCanonical | backend/src/governance/governance.service.ts:515-544 | The output flattens to the sorted events in order, every bundle has at least two events, all of its type, and no two neighbours share a delegation type |
| Bundling.BundlesAreRuns | backend/src/governance/governance.service.ts:515-544 | A bundle holds two or more delegations, or undelegations, with its id and time taken from the first; nowhere does an output end with the delegation type with which the next one starts |
| Bundling.CanonicalUnique | backend/src/governance/governance.service.ts:515-544 | No other decomposition meets these conditions |
| Bundling.BundleEvents | backend/src/governance/governance.service.ts:515-544 | The loop with its open bundle, and the expansion of bundles of one, compute that decomposition |
| EpochPage.GetDRepTimeline | backend/src/governance/governance.service.ts:229-561 | The page with its groups, order and cursors, from the fetched rows and the cursor |
| EpochPage.PageShowsWindow | backend/src/governance/governance.service.ts:496-557 | One group for each epoch of the window, newest first, or last when loading newer ones, and the two cursors |
| EpochPage.GroupShowsItsEpoch | backend/src/governance/governance.service.ts:505-513 | A group shows every fetched entry of its epoch as often as it was fetched, and nothing else |
| EpochPage.GroupNewestFirst | backend/src/governance/governance.service.ts:508-513 | Within a group later entries come first, and of equally old ones the one whose id is last in the order of localeCompare |
| EpochWalk.FetchedCount | backend/src/governance/governance.service.ts:374-431 | How often a page fetches an entry: once if its instant lies in the window (a vote only if no stored event shows its hash; a note once for each matching signature), else never |
| EpochWalk.PageAtIsWalk | backend/src/governance/governance.service.ts:554-557 | The server's answers, when nextCursor is followed from the first page, are those for the windows of the older walk |
| EpochWalk.StoredEventShown | backend/src/governance/governance.service.ts:505-507 | Over the whole cursor walk (current epoch at most 10004, so that it ends) a stored event is shown once, on the page of its epoch, if its stored epoch and that of its timestamp are on one page, and otherwise not at all |
| EpochWalk.StoredEventShownIff | backend/src/governance/governance.service.ts:505-507 | A stored event is shown at all if and only if the two epochs are on one page of the timeline |
| EpochWalk.MatchingEventShownOnce | backend/src/governance/governance.service.ts:505-507 | An event whose stored epoch is that of its timestamp is shown exactly once in the walk |
| EpochWalk.VoteShown | backend/src/governance/governance.service.ts:374-415 | A vote is shown once in the walk, under its id and time, on the page of its epoch, unless a stored event whose time is on that page shows its hash |
| EpochWalk.NoteShown | backend/src/governance/governance.service.ts:642-646 | A note is shown on the page of its epoch, under its id and time, as often as a signature of the DRep (by voterId or drep_bech32) is linked to its profile |
| EpochWalk.NoteShownOnceIff | backend/src/governance/governance.service.ts:642-646 | So it is shown exactly once if and only if exactly one signature is linked to its profile |
| EpochWalk.MismatchedEpochNeverShown | backend/src/governance/governance.service.ts:505-507 | An event stored under an epoch four or more away from its timestamp's is in no group of any page |
| TimelineClient.DedupItems | frontend/src/hooks/useGetDRepTimelineQuery.ts:139-145 | The filter with its set of seen ids keeps the first item of each id |
| TimelineClient.DedupIsFirsts | frontend/src/hooks/useGetDRepTimelineQuery.ts:139-145 | What stays are the first items of their ids, in their order |
| TimelineClient.MergeItems | frontend/src/hooks/useGetDRepTimelineQuery.ts:130-146 | The group of an epoch already in the list takes over the merged items, in place |
| TimelineClient.MergeOneItems | frontend/src/hooks/useGetDRepTimelineQuery.ts:130-146 | For any lists: the group takes over every item it lacks and loses none, no id comes twice, and what comes first in the combined list stays in front |
| TimelineClient.MergeCombined | frontend/src/hooks/useGetDRepTimelineQuery.ts:122-149 | The reduce with its set of seen epochs is the fold of single merges |
| TimelineClient.MergeEpochs | frontend/src/hooks/useGetDRepTimelineQuery.ts:109-151 | The new list is the sorted merge, or the incoming page if nothing was kept |
| TimelineClient.DedupIsIdentityIff | frontend/src/hooks/useGetDRepTimelineQuery.ts:139-145 | De-duplication leaves a list of items as it is if and only if their ids are unique |
| TimelineClient.MergedGroups | frontend/src/hooks/useGetDRepTimelineQuery.ts:109-151 | Merging any page into any list, in either direction: strictly descending; groups of epochs in one of the two as they are; for an epoch in both the kept items, then those that came in, without repeated ids |
| TimelineClient.JointItems | frontend/src/hooks/useGetDRepTimelineQuery.ts:134-145 | Every id of either list is there once; the kept items stay in front as they are, and new items go behind them |
| TimelineClient.MergedMembers | frontend/src/hooks/useGetDRepTimelineQuery.ts:115-150 | For groups of one server state, in either direction: those of epochs in one list only as they are, those of epochs in both de-duplicated, strictly descending |
| TimelineClient.MergeIsDown | frontend/src/hooks/useGetDRepTimelineQuery.ts:109-151 | Merging a page into a gapless descending range de-duplicates its epochs if they are loaded, and adds them as they are if they come just below |
| TimelineIds.GroupIdsUniqueIff | backend/src/governance/governance.service.ts:518-537 | Item ids of a group, bundles included, are unique if and only if no note of the epoch is returned twice by the join |
| TimelineIds.ItemIdsUniqueIff | backend/src/governance/governance.service.ts:518-537 | So they are in every group exactly when no note of the timeline is |
| TimelineWalk.LoadKeepsRange | frontend/src/hooks/useGetDRepTimelineQuery.ts:104-151 | One load extends the kept list to a gapless descending range, or de-duplicates the epochs of a page that was loaded before |
| TimelineWalk.WalkShowsLoadedRange | frontend/src/hooks/useGetDRepTimelineQuery.ts:104-151 | End to end, for all data: after any walk of older and newer loads the client holds exactly the epochs from the current one down to the smallest loaded, strictly descending, no gap or duplicate, each group as the server shows it, or de-duplicated if its page was loaded again |
| TimelineWalk.KeptIsServerIff | frontend/src/hooks/useGetDRepTimelineQuery.ts:139-145 | A kept group is the server's if and only if its page was loaded once or no note is in it twice |
| TimelineWalk.WalkShowsServerGroups | frontend/src/hooks/useGetDRepTimelineQuery.ts:104-151 | If no note of the timeline has two matching signatures, every group is the server's |
| TimelineWalk.ReloadChangesNothingIff | frontend/src/hooks/useGetDRepTimelineQuery.ts:121-149 | Loading a page again leaves the list as it is if and only if each of its epochs was de-duplicated before or has no note twice |
| TimelineWalk.TwoSignaturesShown | backend/src/governance/governance.service.ts:642-646 | A concrete note of a profile with two signatures is shown twice |
| TimelineWalk.TwoSignaturesReload | frontend/src/hooks/useGetDRepTimelineQuery.ts:139-145 | And going older and newer again changes the list it is in |
| LegacyWidening.WindowCount | backend/src/drep/drep.service.ts:306-325 | At most maxDepth - depth + 1 windows lie on the way to the final answer |
| LegacyWidening.NewerStopsAtPresent | backend/src/drep/drep.service.ts:334-347 | A newer request never reports an end beyond the end asked for or the time at which its last level was entered |
| LegacyWidening.WindowsFollow | backend/src/drep/drep.service.ts:323-361 | How each window on the way follows from the one before: a day apart, 2, 4, 8, ... days long, a newer one cut off at the present, a cursor of 0 read as the time of its level |
| LegacyWidening.AskedEndStays | backend/src/drep/drep.service.ts:381-391 | An older answer reports the end that was asked for, a newer one the start |
| LegacyWidening.ResultIsUniqueNewestFirst | backend/src/drep/drep.service.ts:363-379 | Whatever was asked, the newest entry comes first and no two have one time and type |
| LegacyWidening.ResultHasAllWindows | backend/src/drep/drep.service.ts:361-379 | The answer has exactly the entries of the windows on the way, up to their time and type |
| LegacyWidening.AskedForMore | backend/src/drep/drep.service.ts:315-325 | No window is asked for once the windows before it have given minItems entries |
| LegacyWidening.UniqueByIdIsUnique | backend/src/drep/drep.service.ts:585-592 | De-duplication through a Map leaves exactly one entry for each key that occurs |
| LegacyWidening.LastVersionStays | backend/src/drep/drep.service.ts:585-592 | Of several entries with one time and type the last one stays |
| LegacyWidening.FirstSeenFirst | backend/src/drep/drep.service.ts:585-592 | De-duplication lists the entries in the order in which their times and types first occur |
| LegacyWidening.SameTimeStays | backend/src/drep/drep.service.ts:595-600 | Sorting leaves entries of one time in the order in which de-duplication lists them |
| LegacyWidening.OlderReachIff | backend/src/drep/drep.service.ts:327-333 | n steps back from depth d move the start by exactly n days + 2 days * (2^(d + n) - 2^d) if and only if no start on the way is 0 |
| LegacyWidening.OlderAnswerReach | backend/src/drep/drep.service.ts:302-393 | In terms of a request: how far back an older answer reaches, by the windows it took |
| LegacyWidening.NewerIsDisjoint | backend/src/drep/drep.service.ts:334-347 | The windows on the way of a newer request are pairwise disjoint, each after the one before it, whatever was asked for |
| LegacyWidening.OlderIsDisjointIff | backend/src/drep/drep.service.ts:327-333 | Those of an older request are, each before the one before it, if no cursor on the way is 0; and only if, where 1970 is further back than the widest window, which today holds up to maxDepth 13 (default 3) |
| LegacyWidening.StepsClearIs | backend/src/drep/drep.service.ts:302-333 | That condition in closed form: the first start is none of finitely many values |
| LegacyWidening.EnoughUnlessStopped | backend/src/drep/drep.service.ts:315-391 | If queries stay in their windows and these are disjoint, the answer has minItems entries unless the depth or, for newer ones, the present stopped it |
| LegacyStream.QueriesAreCumulative | backend/src/drep/drep.service.ts:519-601 | The four queries of a window emit four partial results, each with exactly what has arrived and the claimed profile, and the last does not depend on the order in which they answered |
| LegacyStream.LastIsAnswer | backend/src/drep/drep.service.ts:306-394 | However partial results are ordered and timed, also when a window is queried again, and whatever is cut off, the last answer of the stream is the one the complete results give, read at the times of the requests that were not cut off; a window comes to the same complete result whenever it is queried |
| LegacyStream.QueriesAreBounded | backend/src/drep/drep.service.ts:315-361 | With windows that answer in at most m parts, a run at whatever times makes at most 1 + m + ... + m^levels queries, one if no entries are asked for |
| LegacyStream.UncutMakesMost | backend/src/drep/drep.service.ts:315-361 | The run at one instant in which nothing is cut off is possible and makes exactly `Most` queries |
| LegacyStream.LevelBoundHoldsIff | backend/src/drep/drep.service.ts:315-361 | For one source: no run at one instant makes more than maxDepth - depth + 1 queries if and only if `Most`, computed from the lengths of its partial results, does not exceed that |
| LegacyStream.LevelBoundForAllIff | backend/src/drep/drep.service.ts:315-361 | Newer or older, over all runs, at whatever times, of all sources that answer in at most m parts: the bound maxDepth - depth + 1 holds if and only if m is at most 1, the depth is reached, or no entries are asked for |
| LegacyStream.LevelBoundAtOnceIff | backend/src/drep/drep.service.ts:315-361 | Over the runs at one given instant the same bound holds if and only if 1 + m + ... + m^a does not exceed it, a being the levels that instant leaves to ask for (`Ahead`): for a newer request whose end is already the present, 0 |
| LegacyStream.OneQueryPerWindowIff | backend/src/drep/drep.service.ts:315-361 | With cumulative results in several parts, no run at one instant makes more queries than there are windows on the way to its answer if and only if the first partial result of the first window asks for no more |
| LegacyStream.FourQueriesPerWindow | backend/src/drep/drep.service.ts:519-526 | For the code as it stands, whatever the order in which the four queries answer each time: the right last answer, after at most (4^(levels + 1) - 1) / 3 queries, 85 by default, and the same if-and-only-if |
| LegacyStream.SilentWindows | backend/src/drep/drep.service.ts:315-361 | Windows with nothing in them reach 1 + m + ... + m^a queries, newer or older |
| LegacyStream.SingleAnswers | backend/src/drep/drep.service.ts:315-361 | If every query answers in one part, the uncut run queries exactly the windows on the way to the answer |
| LegacyStream.OlderAhead | backend/src/drep/drep.service.ts:327-333 | For an older request a is all the levels that may follow: 3 by default, hence 85 queries for four parts |
| LegacyStream.AskedAgain | backend/src/drep/drep.service.ts:315-361 | If two partial results of a window are too short, the same next window is queried twice |
| Bech32.WordsRoundTrip | frontend/src/lib/getDrepId.ts:8-16 | Regrouping any bytes into 5-bit words and back gives the same bytes, in ceil(8n / 5) words |
| Bech32.FromWordsIff | frontend/src/lib/getDrepId.ts:8-16 | Words are read as bytes if and only if they are the words of those bytes: padding that is five bits or longer or not zero is refused |
| Bech32.OneByte | frontend/src/lib/getDrepId.ts:8-16 | Regrouping starts with the highest bit and fills up with zeros |
| Bech32.ChecksumAccepted | frontend/src/lib/getDrepId.ts:9-15 | The checksum that encoding appends is the one decoding accepts (BIP-173, section "Bech32") |
| Bech32.TextRoundTrip | frontend/src/lib/getDrepId.ts:6-17 | What is encoded decodes to the same prefix and words, with the length the format says |
| Bech32.DecodesIff | frontend/src/lib/getDrepId.ts:6-17 | A text decodes to a prefix and words if and only if it is their encoding, all in lower or all in upper case (BIP-173, section "Bech32") |
| Bech32.FirstVector | frontend/src/lib/getDrepId.ts:6-17 | The prefix "a" without data encodes to the first test vector of BIP-173 |
| Bech32.AlphabetIs | frontend/src/lib/getDrepId.ts:6-17 | The 32 words are written with the alphabet of BIP-173 |
| DRepIdentity.HexRoundTrip | frontend/src/lib/getDrepId.ts:8-17 | Reading back the hex digits of bytes gives the bytes |
| DRepIdentity.HexDigits | frontend/src/lib/getDrepId.ts:8-17 | A byte is written as its high and then its low digit, in lower case |
| DRepIdentity.HexEnds | frontend/src/lib/getDrepId.ts:8-17 | Reading ends without an error before the first pair that is not two digits, or at an odd last digit |
| DRepIdentity.UpperHexRoundTrip | frontend/src/lib/getDrepId.ts:8-17 | Digits in upper case are read as well |
| DRepIdentity.IdDecodes | frontend/src/lib/utils.ts:296-321 | An id decodes to the prefix and bytes it was made from |
| DRepIdentity.ProcessorsGiveHash | frontend/src/lib/utils.ts:241-287 | Both phrase processors turn every form of a hash (hex, CIP-105, CIP-129, key or script header) into its 56 digits |
| DRepIdentity.ConversionIsCanonical | frontend/src/lib/utils.ts:214-228 | Both conversions to CIP-105 give one string for all forms of a hash, and are idempotent on it |
| DRepIdentity.LengthTellsForms | frontend/src/lib/getDrepId.ts:59-62 | An id has 56 characters if and only if it is the headerless key form |
| DRepIdentity.CompareIsSameHash | frontend/src/lib/getDrepId.ts:51-57 | Two ids in any forms compare equal if and only if they carry the same hash; an empty one equals none |
| DRepIdentity.Cip129RoundTrip | frontend/src/lib/utils.ts:204-212 | Hex digits to CIP-129 and back: the id decodes to header and hash, and to the CIP-105 form of the hash |
| DRepIdentity.PredefinedStay | frontend/src/lib/utils.ts:204-228 | Names of predefined DReps are passed on as they are, and nothing is made of the empty phrase |
| DRepIdentity.OtherPhrasesStay | frontend/src/lib/utils.ts:241-287 | What neither starts with `drep` nor has 58 characters is returned as it is by both processors, and so is a `drep` phrase that does not decode, except by the legacy one if it has 56 characters |
| DRepIdentity.ActionIdRoundTrip | frontend/src/lib/utils.ts:296-321 | The id of a governance action decodes to the transaction and the index it was made from |
| DRepIdentity.ProcessorsAgreeIff | frontend/src/lib/utils.ts:241-287 | On all strings, the two processors agree if and only if the phrase is not an undecodable 56-character one that starts with "drep" |
| DRepIdentity.ProcessorsDiffer | frontend/src/lib/utils.ts:241-287 | A concrete phrase on which they differ: one gives it back, the other nothing |
| Consolidation.IndexById | backend/src/governance/governance.service.ts:102-118 | The map from ids to sets has exactly the ids that occur, each with all of its values |
| Consolidation.GroupBySuffix | backend/src/governance/governance.service.ts:121-133 | Groups and their order of first appearance |
| Consolidation.Collect | backend/src/governance/governance.service.ts:144-159 | The set collected for a group is the union over its members |
| Consolidation.Consolidate | backend/src/governance/governance.service.ts:120-168 | The loops compute one consolidated row per suffix |
| ConsolidationFacts.SameDRepIff | backend/src/governance/governance.service.ts:123-133 | Two rows are one DRep if and only if the last 56 digits of their hex (all of them, if fewer) agree but for upper and lower case |
| ConsolidationFacts.GroupsPartition | backend/src/governance/governance.service.ts:123-133 | The groups partition all rows by 56-digit suffix, multiplicities included |
| ConsolidationFacts.GroupsInOrder | backend/src/governance/governance.service.ts:123-133 | Groups, and so consolidated rows, come in the order in which their first rows do |
| ConsolidationFacts.ConsolidatedIsShown | backend/src/governance/governance.service.ts:135-168 | Each consolidated row is a row of its group, with the longest hex and, of equally long ones, the latest creation time, its counts the cardinalities of the unions over all aliases |
| ConsolidationFacts.ConsolidatedAreShown | backend/src/governance/governance.service.ts:135-168 | If no DRep has two rows that come first alike, the result is exactly the rows shown for the primary ones |
| ConsolidationFacts.RowOrderDoesNotMatterIff | backend/src/governance/governance.service.ts:123-168 | The consolidated rows are the same for every order of the rows if and only if no DRep has two rows that come first alike, with equally long hex and the same creation time |
| StableSort.SortIsStable | backend/src/governance/governance.service.ts:137-141 | The sort that stands for Array.prototype.sort keeps elements with equal keys in their order |
| ConsolidationFacts.PagesAreSortedPermutation | backend/src/governance/governance.service.ts:170-206 | The pages 1..totalPages put together are one permutation of the consolidated rows, sorted by the column asked for |
| ConsolidationFacts.PagesAreFull | backend/src/governance/governance.service.ts:196-206 | All pages but the last are full, and that one is not empty |
| ConsolidationFacts.TiesStay | backend/src/governance/governance.service.ts:172-199 | Rows with one value in the sort column are listed, ascending or descending, in the order in which they were consolidated |
| ConsolidationFacts.PagesBelowOne | backend/src/governance/governance.service.ts:203-206 | Page 0 is empty, and a page number below 0 gives rows counted from the end of the list |
| ConsolidationFacts.SqlKeepsTheSameRows | backend/src/repository/voltaire/dRep.repository.ts:176-188 | Without ties and filters DISTINCT ON, over rows ordered by hex length and creation time, keeps exactly the rows the in-memory version shows |
| ConsolidationFacts.FiltersAgreeIff | backend/src/repository/voltaire/dRep.repository.ts:207-233 | For rows without ties, with any filter in memory and any in SQL: the two outputs list the same ids if and only if no primary row passes the second alone and none that fails one of them stands before a row that passes the first |
| ConsolidationFacts.SameFilterIff | backend/src/repository/voltaire/dRep.repository.ts:207-233 | With one and the same filter, and no ties, if and only if no row that passes stands behind a primary row that does not |
| ConsolidationFacts.RetiredFilterIff | backend/src/repository/voltaire/dRep.repository.ts:213-215 | With the SQL version's filter for retired DReps, which the in-memory version does not have, and no ties, they agree if and only if no passing row stands behind a primary row that is retired or does not pass (governance.service.ts:86-88) |
| ConsolidationFacts.RetiredRowDiffers | backend/src/governance/governance.service.ts:86-88 | One retired row, no other filter: listed by the in-memory version only |
| ConsolidationFacts.InactivePrimaryDiffers | backend/src/governance/governance.service.ts:74-78 | An inactive row with the longer hex before an active alias: the alias is listed by the in-memory version only |
| DRepAliases.SameDRepIffCompare | frontend/src/lib/getDrepId.ts:51-57 | Rows whose hex carries the hash of their id are consolidated with each other if and only if their ids compare equal in the frontend |
| DRepAliases.ILikeIsEquality | backend/src/repository/voltaire/dRep.repository.ts:1106-1110 | The case-insensitive pattern match of one id finds no other id, although the underscore of drep_script is a wildcard |
| DRepAliases.LikeMeans | backend/src/repository/voltaire/dRep.repository.ts:1106-1110 | In a pattern, a percent sign stands for any text, and a backslash makes the next character literal |
| DRepAliases.TypedIdIsFound | backend/src/repository/voltaire/dRep.repository.ts:1104-1110 | In whatever case it is typed, and with white space around it, an id finds its own row and no other |
| DRepAliases.ResolvesToAlias | backend/src/repository/voltaire/dRep.repository.ts:1102-1132 | A stored id resolves to itself, another id of a stored DRep to one of its rows, and any other to nothing |
| DRepAliases.NothingFindsNothing | backend/src/repository/voltaire/dRep.repository.ts:1102-1104 | Asking for the empty id finds nothing, whatever is stored |
| DRepAliases.ShortIdFindsItself | backend/src/repository/voltaire/dRep.repository.ts:1102-1132 | What does not decode to at least 28 bytes finds only a row that it is ILIKE |
| DRepAliases.GetAllDrepIds | backend/src/repository/voltaire/dRep.repository.ts:1139-1171 | The list holds the input, the suffix matches and the resolved id, each once |
| DRepAliases.KnownAreAliases | backend/src/repository/voltaire/dRep.repository.ts:1139-1171 | For any id of a DRep, stored or not, the answer is that id and all stored aliases |
| DRepAliases.AliasesAgree | backend/src/repository/voltaire/dRep.repository.ts:1139-1171 | Every stored alias gets the same answer: the ids of the rows consolidated with it |
| ProposalSync.ProposalsSyncWorker.SyncItem | queue-backend/src/workers/proposals-sync.worker.ts:75-132 | The table after one item, with its skip, its answers and its faults |
| ProposalSync.ProposalsSyncWorker.SyncPage | queue-backend/src/workers/proposals-sync.worker.ts:74-133 | The table and the count after the items of one page |
| ProposalSync.ProposalsSyncWorker.SyncProposals | queue-backend/src/workers/proposals-sync.worker.ts:59-145 | The table and the total after a run are those of applying the listed items in order |
| ProposalSync.CountIs | queue-backend/src/workers/proposals-sync.worker.ts:126-137 | The reported count is the number of items whose upsert went through |
| ProposalSync.PagingIsWhole | queue-backend/src/workers/proposals-sync.worker.ts:65-136 | If no page fails, a run sees the whole remote list |
| ProposalSync.ListedUpToStop | queue-backend/src/workers/proposals-sync.worker.ts:65-143 | A run sees the items up to the first failed, short or empty page, what came before a failure included |
| ProposalSync.ItemIsLocal | queue-backend/src/workers/proposals-sync.worker.ts:76-124 | An item changes only the row of its own proposal, as its answers say |
| ProposalSync.RunsKeep | queue-backend/src/workers/proposals-sync.worker.ts:65-143 | Over any sequence of runs with page, call and upsert failures no row is lost, a recorded block time never changes, and an enacted, expired or dropped row never changes at all |
| ProposalSync.MisansweredOverwrites | queue-backend/src/workers/proposals-sync.worker.ts:76-124 | Why ids and (txHash, certIndex) have to determine each other: an answer under another proposal's id overwrites its terminal row |
| ProposalSync.RunDecides | queue-backend/src/workers/governance-sync.worker.ts:218-271 | After a run every row is what the items about its own proposal made of it, in their order, also if the listing names a proposal several times; rows without an item are unchanged |
| ProposalSync.RunReflects | queue-backend/src/workers/proposals-sync.worker.ts:93-124 | A proposal that was not terminal shows, column by column, zero and empty as null, the answer of the first item that ended it or else of the last that took effect, under the recorded time or else the first one found, in milliseconds; it is terminal if and only if that answer says so; there is such an item unless none took effect, and then the row is as it was |
| ProposalSync.SecondRunChangesNothing | queue-backend/src/workers/governance-sync.worker.ts:218-271 | A second run on the same answers changes nothing, failures and proposals listed several times included |
| CommentTree.GetCommentsWithReactionsAndReplies | backend/src/repository/voltaire/comment.repository.ts:47-75 | The recursive load terminates and returns the specified forest |
| CommentTree.LoadHasDescendantsOnce | backend/src/repository/voltaire/comment.repository.ts:47-75 | The tree contains every descendant of the parent exactly once and nothing else, descent being defined upwards from the comment |
| CommentTree.LoadIsOrdered | backend/src/repository/voltaire/comment.repository.ts:53-74 | At every level: children of the node above, newest first, each with exactly the reactions made to it as a comment |
| DRepClaim.DrepClaimWorker.Process | queue-backend/src/workers/drep-claim.worker.ts:25-69 | A job is one step of the claim; its answer names a new profile exactly when one was created, and otherwise no row changed; a new or retired DRep is named in it |
| DRepClaim.DrepClaimWorker.AutoClaimDRep | queue-backend/src/workers/drep-claim.worker.ts:71-138 | Refused for a retired DRep or a linked stake key, else the registration, whose failure leaves the rows as they were |
| DRepClaim.DrepClaimWorker.RegisterDrep | queue-backend/src/workers/drep-claim.worker.ts:140-209 | The transaction, with a rollback wherever it fails |
| DRepClaim.RegisteredOnce | queue-backend/src/workers/drep-claim.worker.ts:161-202 | A registration commits exactly if it meets no fault, and then writes one signature, for the new profile: the login signature with the job's keys, linked and otherwise as it was, or, if there is none, a new row with the columns given; the branch for a linked one is never reached |
| DRepClaim.JobKeepsOk | queue-backend/src/workers/drep-claim.worker.ts:90-208 | Every job keeps foreign keys, fresh ids and at most one profile per stake key |
| DRepClaim.JobSignsNewProfile | queue-backend/src/workers/drep-claim.worker.ts:140-202 | A job creates at most one profile, which has exactly one signature, by the job's stake key; all others keep theirs |
| DRepClaim.EveryNewProfileIsSigned | queue-backend/src/workers/drep-claim.worker.ts:90-208 | The same over any sequence of jobs: no orphan profile, no stake key with two |
| DRepClaim.CommittedIsFinal | queue-backend/src/workers/drep-claim.worker.ts:90-105 | Once a registration for a stake key has committed, no further job for that key changes anything |
| DRepClaim.JobIsIdleIff | queue-backend/src/workers/drep-claim.worker.ts:90-121 | A job that meets no fault changes nothing if and only if the stake key has no active DRep, a retired one, or a linked signature; otherwise it creates the profile, as after a rollback |
| DRepClaim.RepeatChangesNothing | queue-backend/src/workers/drep-claim.worker.ts:90-121 | The same job under the same circumstances, faults included, changes no row the second time |
| RetryRequest.RetriesAreBounded | queue-backend/src/blockfrost/blockfrost.service.ts:89-111 | At most retries + 1 attempts; the outcome is the last one's, all before it failed retryably, it is final unless attempts ran out, and the wait is delay * (2^(attempts - 1) - 1) |
| RetryRequest.RetriesIff | queue-backend/src/blockfrost/blockfrost.service.ts:97-107 | A call is made again exactly after a lost or timed-out connection, a 429 or a 5xx |
| RetryRequest.WaitIsBounded | queue-backend/src/blockfrost/blockfrost.service.ts:102-107 | The wait is at most delay * (2^retries - 1), with equality if and only if every attempt but the last fails retryably |
| RetryRequest.ReturnsFirstSettled | queue-backend/src/blockfrost/blockfrost.service.ts:89-111 | The first success or final error is returned if no more than `retries` retryable failures come before it |
| RetryRequest.FallbackIsBounded | queue-backend/src/blockfrost/blockfrost.service.ts:52-87 | At most eight requests and fourteen seconds of waiting in all |
| RetryRequest.FallbackIffOtherError | queue-backend/src/blockfrost/blockfrost.service.ts:57-72 | When the primary settles, the fallback is asked if and only if it settles with an error other than 404; data and a 404 are passed on |
| RetryRequest.FallbackDecides | queue-backend/src/blockfrost/blockfrost.service.ts:61-86 | Whenever the fallback is asked, after a primary that never settles or settles with an error other than 404, its first settled answer is the outcome, data or error; if it never settles, a failure with the status of its last answer |

## Left out

- Vote de-duplication compares the hash an entry displays with the hash of the vote's transaction; it is modelled as written (`Hidden`), without a claim that this is the intended pair.
- Cursor texts other than decimal digits that JavaScript's `Number` also reads (signs, exponents, hexadecimal, surrounding blanks) are taken for missing.
- Non-ASCII letters in bech32 case folding and in ILIKE; a LIKE pattern that ends in a lone backslash, which PostgreSQL refuses.
- Filters and free-text search in SQL beyond a row predicate, the vote-count enrichment of timeline pages, and the response formats.
- Counts in the SQL consolidation (`COUNT(DISTINCT ...)` over joins): only the choice of rows is compared.
- Sort columns that mix nulls, NaN and text: a column is modelled by its place in the order.
- LegacyStream.LevelBoundHoldsIff: it compares runs at one instant, in which a source's partial results alone decide what follows; `LevelBoundForAllIff`, `QueriesAreBounded` and `LastIsAnswer` hold for any times.
- LegacyStream.LastIsAnswer: the rows behind the timeline are taken not to change while a request is being answered.
- The two clock readings on adjacent lines of a legacy request are taken to be one, and a failing or timed-out query, which ends the stream with an error, is not modelled.
- JavaScript dates out of range, floating point and time zones: times are integer milliseconds.
- `updateDelegatorVotingPower`, proposal and DRep metadata, IPFS: best-effort reads that change none of the modelled state.
- The stake sync and the votes sync: their loops would add only easier members.
- Concurrent claim jobs and concurrent runs of the two proposal workers: the existence checks sit outside the transactions.
- COSE and CBOR signature verification: it rests on libraries that are not part of the repository.
- Object identity in the browser state: `MergeItems` replaces a group in the list where the code assigns to its `items` field.
- Comment entities are values in an array that the loop updates; the load returns the array's contents, so aliasing between entities is not modelled.
- The Dafny type `map` orders nothing: loops over a JavaScript Map of delegators take the entries in any order.
- React state and query plumbing, controllers, DTOs, wallets and display formatting.
