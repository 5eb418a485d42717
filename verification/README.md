# HTTP Inspector: a verified model

HTTP Inspector is a replicated capture system. Adapters inside an application emit revisioned lifecycle
messages; a bounded hub merges them, evicts old entries and publishes deltas; a user interface keeps its
own copy, with an arrival index and a host/path tree, by reducing those deltas. This project models the
four parts in Dafny and proves what they promise each other.

`dafny verify dfyconfig.toml` checks everything.

## Modules

| modules | what they model |
|---|---|
| CaptureModel, LifecycleMerger, DatabaseMerger | messages, exchanges and commands; merging one message into the entry it belongs to |
| Retention, HubState, HubInvariant, CaptureHub, HubRuns, HubLaws, ByteConservation | the hub: a class that works in place, the specification it is proved against, theorems over whole runs, and what each operation does said of its result alone |
| CaptureEntities, Coalescing, SortedFolds, CaptureReducer | the interface's reducer, its batch coalescing, its arrival order and its loops |
| Publication, Replication, LagReset, LateFetch, Overtaking, LateOrder | the hub's deltas against the reducer: end-to-end refinement, reset after lag, details read late, batches that overtake each other |
| StructurePath, TreeAggregates, TreeIndex, TreeTraversal | the incremental host/path tree against the recomputed one, and reading it |
| OutboundState, OutboundAdapter, OutboundLaws, Recovery | the adapter's queue, pending table and recovery snapshots, and the adapter composed with the hub |
| BodyObservation, ContentDecoding, ResultCapture, ResultCollector, ResultLaws | the bounded observers of bodies and database results |
| Text, TopLevelSplit, ExpandParser, XmlFormat, XmlTrees, RecomposeUrl, Decimals, ClassIds | parsers and printers |
| Samples, Shortfalls, LateTerminal, LateShortfalls | runs from the start that show where the code falls short |
| Wrappers, Sequences, ArrivalIndex, MapSums | shared shapes |

Code that the source writes as loops and in-place updates is a method or a class here (CaptureHub,
OutboundAdapter, BodyObservation.Observer, ResultCollector, the tree updates, the tokenizers); each is
proved equal to a function, and the theorems are about runs of those functions.

## What is assumed

- Outside functions are parameters with the laws they need: the UUID parser accepts no text with two
  colons side by side or a colon at its end; URI escaping is injective and leaves neither `/` nor `:`;
  component encoding decodes back; each content coder inverts its encoder; the locale comparison of store
  keys is a total order.
- Numbers are unbounded, except that the byte counter saturates at 2^64 - 1 as in the source.
- A hub mutation and the publication of its deltas are one step. So are, in the adapter, each locked
  section, a connection with its recovery snapshots, a dequeue with its dispatch, and an acknowledgement
  with its handling.
- Replication and LagReset read each detail right after its step and apply batches in the order of publication;
  LateFetch, Overtaking and LateOrder drop both, and say which overtaking is harmless.
- Ids drawn from the id generators never repeat.
- The runs that show a shortcoming use the default limits (LateShortfalls keeps two exchanges only) and the
  validation of identifiers, status, tag count, metadata size and required command fields; lengths count JSON
  without escapes, and a command's names and punctuation are one parameter of at most 64 KiB.

## Where the code falls short

- A disconnect that fails validation has already edited the entry that failed and publishes nothing. The
  interface then differs from the hub unless the source had no exchange in flight
  (`Replication.DisconnectMirrorsIff`). A start whose metadata is within a few bytes of its limit is enough
  (`Shortfalls.DisconnectLosesMirror`).
- A disconnect rewrites database commands without adjusting the byte counter. The counter stays exact if
  and only if the rewritten lengths add up to the old ones (`ByteConservation.DisconnectConservesIff`);
  `Shortfalls.DisconnectDrifts` is a run where they do not.
- A terminal message always carries revision two. Once an interruption or a snapshot has brought the hub's
  entry that far, the terminal is ignored (`Recovery.LateTerminalIgnored`), and the next recovery snapshot
  can be stale too (`Recovery.LateTerminalLoses`): `LateTerminal.OutcomeIsLost` is a run in which everything
  is delivered and acknowledged and the outcome is lost.
- A body longer than its declared length is captured or not depending on where its chunks are cut
  (`BodyObservation.ChunkingIrrelevantIff`).
- A URL that ends in a bare question mark loses it (`RecomposeUrl.BuildAfterParseIff`), and a draft whose
  only row is empty loses the row (`RecomposeUrl.ParseAfterBuildIff`).
- Coalescing keeps the last delta of a key even when it changes nothing. It keeps a batch's meaning if and
  only if the last word of every key stands (`Coalescing.CoalescingSoundIff`);
  `Coalescing.InvalidationLosesArrival` is a batch that it changes. The type of deltas allows that batch, but
  neither the browser's nor the desktop's data source sends it: both turn an invalidation into an upsert or a
  removal. Every batch the hub publishes for one step keeps its meaning anyway (`Replication.StepMirrors`).
- A batch is applied when its own reads are done, so one may overtake another. Updates may do so freely, but
  not across a removal of the same key or a reset (`Overtaking.OvertakingConverges`, `BatchesSwapIff`): a reset
  that overtakes the start before it leaves an exchange the hub no longer has
  (`LateShortfalls.ResetOvertakes`).
- An update whose detail is read after its key was evicted and stored again replaces the held entry in its
  old place. The next arrivals are then placed by it, and exchanges that never left the hub can stay in the
  wrong order (`LateShortfalls.LateReadSwapsOthers`). The interface is in order after every delta exactly when
  each upsert keeps the place of the entry it replaces (`LateOrder.InOrderThroughoutIff`), and in the hub's
  order at the end whenever no update finds its key under a later arrival (`LateOrder.LateOrderConverges`).
- The class ids of a diagram's expansions avoid only three reserved names. An expansion that asks for the
  entity's own name takes it (`ClassIds.WordIsTaken`, `ClassIds.ExpansionTakesEntity`).

## Model

| member | source | states |
|---|---|---|
| `LifecycleMerger.AppliedKeepsIdentity` | crates/inspector-core/src/application/lifecycle_merger.rs:37-114 | an applied message keeps the entry's key and arrival sequence, takes its own strictly newer revision, passes validation, and leaves a terminal state only through a snapshot |
| `LifecycleMerger.StaleExactlyWhenNotNewer` | crates/inspector-core/src/application/lifecycle_merger.rs:97-136 | a message is ignored if and only if the entry has already reached its revision |
| `LifecycleMerger.OutcomeOverStart` | crates/inspector-core/src/application/lifecycle_merger.rs:37-96 | a start and then an outcome leave the start's request, tags, correlation and metadata names with the outcome's state, timing, sizes, capture and response, and a failure exactly when it failed; MergesExactly adds the values |
| `LifecycleMerger.LateStartIsIgnored` | crates/inspector-core/src/application/lifecycle_merger.rs:124-200 | a start after its outcome is ignored, and the placeholder request of the missing start stays |
| `LifecycleMerger.MergesExactly` | crates/inspector-core/src/application/lifecycle_merger.rs:37-143 | over a stored entry: applied with result e if and only if the message is newer, e is valid, and e differs from the entry by exactly what the event carries; a patch adds its names with its values, a cancellation its origin, a failure its own failure, everything else stays |
| `LifecycleMerger.StartsExactly` | crates/inspector-core/src/application/lifecycle_merger.rs:124-200 | without a stored entry the same, over the placeholder of a missing start |
| `LifecycleMerger.RefusesExactly` | crates/inspector-core/src/application/lifecycle_merger.rs:48-143 | a newer message is an error if and only if nothing valid can come of it |
| `DatabaseMerger.AppliedKeepsIdentity` | crates/inspector-core/src/application/database_lifecycle_merger.rs:24-134 | the same for database commands: key, sequence, strictly newer revision, validation, terminal states |
| `DatabaseMerger.OutcomeOverStart` | crates/inspector-core/src/application/database_lifecycle_merger.rs:36-96 | a start and then an outcome leave the start's profile with the outcome's state, duration and failure |
| `DatabaseMerger.MergesExactly` | crates/inspector-core/src/application/database_lifecycle_merger.rs:24-134 | over a stored command: applied with result c if and only if the message is newer, c is valid, and c takes exactly the event's duration, result, failure or cancellation reason |
| `DatabaseMerger.StartsExactly` | crates/inspector-core/src/application/database_lifecycle_merger.rs:24-134 | without a stored command the same, over the placeholder of a missing start |
| `DatabaseMerger.RefusesExactly` | crates/inspector-core/src/application/database_lifecycle_merger.rs:24-134 | a newer message is an error if and only if nothing valid can come of it |
| `CaptureHub.CaptureHub.constructor` | crates/inspector-core/src/application/capture_hub.rs:86-104 | a new hub is empty, recording, with its counter at one |
| `CaptureHub.CaptureHub.Ingest` | crates/inspector-core/src/application/capture_hub.rs:106-114 | a passive ingest, gated by the recording flag |
| `CaptureHub.CaptureHub.IngestExplicit` | crates/inspector-core/src/application/capture_hub.rs:116-123 | an explicit ingest, recorded even while recording is paused |
| `CaptureHub.CaptureHub.PutExchange` | crates/inspector-core/src/application/capture_hub.rs:146-151 | storing an exchange numbers and lists a new key only |
| `CaptureHub.CaptureHub.PutCommand` | crates/inspector-core/src/application/capture_hub.rs:337-346 | storing a command numbers and lists a new key only and updates the counter |
| `CaptureHub.CaptureHub.SetRecording` | crates/inspector-core/src/application/capture_hub.rs:195-197 | changes the recording flag and nothing else |
| `CaptureHub.CaptureHub.IngestWithPolicy` | crates/inspector-core/src/application/capture_hub.rs:125-160 | the in-place ingest ends in exactly the specified state and result: source check, recording gate, merge, numbering, eviction and deltas (HubLaws.IngestStores says what is stored) |
| `CaptureHub.CaptureHub.IngestDatabaseCommand` | crates/inspector-core/src/application/capture_hub.rs:325-355 | the database side of ingest, with the byte counter's saturating update |
| `CaptureHub.CaptureHub.EvictTerminalExchanges` | crates/inspector-core/src/application/capture_hub.rs:396-412 | the eviction loop removes the closed-form victims, publishes one removal each in order, and sets the blocked flag |
| `CaptureHub.CaptureHub.EvictTerminalDatabaseCommands` | crates/inspector-core/src/application/capture_hub.rs:414-432 | the same loop over count and bytes |
| `CaptureHub.CaptureHub.EvictNextCommand` | crates/inspector-core/src/application/capture_hub.rs:417-430 | takes out the first terminal command in arrival order, or blocks the store |
| `CaptureHub.CaptureHub.MarkSourceDisconnected` | crates/inspector-core/src/application/capture_hub.rs:200-232 | the loops end in the specified state and result: entries in flight of the source edited in arrival order up to the first left invalid (HubLaws.DisconnectEdits and DisconnectStops say what the edit is) |
| `CaptureHub.CaptureHub.ClearSession` | crates/inspector-core/src/application/capture_hub.rs:235-247 | a clear empties both stores, restarts the counter and keeps only the recording flag |
| `HubLaws.DisconnectEdits` | crates/inspector-core/src/application/capture_hub.rs:199-232 | a disconnect, failing or not, changes only entries of the source in flight: one revision on, incomplete, the time, and the reason recorded (one metadata name for an exchange, the result's reason for a command), every other field as captured; a successful one changes all of them |
| `HubLaws.DisconnectStops` | crates/inspector-core/src/application/capture_hub.rs:203-232 | the edits follow arrival order, exchanges first, each only if all before it stayed valid; the error is that of the first left invalid, whose edit stays |
| `HubLaws.IngestGates` | crates/inspector-core/src/application/capture_hub.rs:125-139 | a foreign message is an error without effect, a paused recording ignores passive messages only, a heartbeat changes nothing, and past the gates both ingests agree |
| `HubLaws.IngestStores` | crates/inspector-core/src/application/capture_hub.rs:140-160 | an admitted newer message with a valid effect is stored as that effect unless finished and evicted at once; other entries stay or, when finished, go; only a new key takes a sequence; the batch announces the entry, then the evictions |
| `HubLaws.IngestStoresCommand` | crates/inspector-core/src/application/capture_hub.rs:325-355 | the same for database commands |
| `HubLaws.DisconnectDeliversCommands` | crates/inspector-core/src/application/capture_hub.rs:218-232 | the batch of a successful disconnect tells, command by command, what changed |
| `HubLaws.IngestDeliversCommands` | crates/inspector-core/src/application/capture_hub.rs:325-355 | so does the batch of every ingest: the last delta of a key is its new summary or its removal, and a key without one did not change |
| `HubLaws.ChangedIffPublished` | crates/inspector-core/src/application/capture_hub.rs:125-160 | a successful mutation is marked as a change if and only if it publishes something |
| `HubLaws.ClearForgets` | crates/inspector-core/src/application/capture_hub.rs:235-247 | a clear forgets every entry, keeps the recording flag, counts anew and announces the new session |
| `HubLaws.ValidIff` | crates/inspector-core/src/domain/validation.rs:50-109 | validation passes if and only if ids are UUIDs, versions are one, revision and sequence positive, a completed exchange has a response, exactly a failed one has a failure, and the remaining checks pass |
| `HubLaws.RunKeepsWellShaped` | crates/inspector-core/src/domain/validation.rs:95-109 | in every run, failing disconnects included, everything stored meets the checks on ids, versions, revision, sequence and state |
| `HubInvariant.AppliedExchange` | crates/inspector-core/src/application/capture_hub.rs:140-151 | the merged exchange carries the message's key and revision; a known key keeps its sequence, a new one takes the counter |
| `HubInvariant.IngestKeepsConsistent` | crates/inspector-core/src/application/capture_hub.rs:125-160 | every ingest keeps the hub's invariant |
| `HubInvariant.DisconnectKeepsConsistent` | crates/inspector-core/src/application/capture_hub.rs:200-232 | every disconnect, also a failing one, keeps the hub's invariant |
| `HubInvariant.ExchangeTurn` | crates/inspector-core/src/application/capture_hub.rs:399-410 | one turn of the eviction loop removes the next victim and nothing else |
| `HubInvariant.CommandTurn` | crates/inspector-core/src/application/capture_hub.rs:417-430 | one turn of the database eviction loop |
| `HubInvariant.CommandEvictionStep` | crates/inspector-core/src/application/capture_hub.rs:417-430 | one turn keeps to the closed form, or ends it with every terminal command gone |
| `HubInvariant.InterruptionTurn` | crates/inspector-core/src/application/capture_hub.rs:205-216 | one turn of the disconnect loop |
| `HubRuns.ReachableConsistent` | crates/inspector-core/src/application/capture_hub.rs:125-247 | in every run arrival order lists each stored key once by strictly increasing sequence below the shared counter, each entry sits under its own source and id, and no exchange and command share a sequence |
| `HubRuns.IngestCell` | crates/inspector-core/src/application/capture_hub.rs:140-156 | an ingest leaves an entry alone, replaces it by what its own message merges to, or evicts it |
| `HubRuns.EntryAdvances` | crates/inspector-core/src/application/capture_hub.rs:140-157 | while an entry stays stored its key and sequence stay, and any change strictly raises its revision |
| `HubRuns.TerminalOnlyLeftBySnapshot` | crates/inspector-core/src/application/lifecycle_merger.rs:48-50 | only a snapshot message for the entry takes a stored entry out of a terminal state |
| `HubRuns.RetentionExact` | crates/inspector-core/src/application/capture_hub.rs:396-412 | evicted are exactly the first k terminal keys in arrival order, k the smaller of excess and terminal count; entries in flight stay; survivors keep order and content; the blocked flag holds exactly when the store is still over the limit |
| `HubRuns.ValidSnapshotAccepted` | crates/inspector-core/src/application/lifecycle_merger.rs:97-143 | a snapshot under its own id that validates in its place is taken without error |
| `HubRuns.SnapshotDominates` | crates/inspector-core/src/application/lifecycle_merger.rs:97-143 | in any order and with any duplicates, once a valid snapshot of greatest revision has arrived and its key stays stored, the entry has its revision and content |
| `HubRuns.DisconnectSucceedsIff` | crates/inspector-core/src/application/capture_hub.rs:200-232 | a disconnect succeeds if and only if every entry in flight of the source stays valid once interrupted |
| `HubRuns.RedeliveryChangesNothing` | crates/inspector-core/src/application/capture_hub.rs:140-159 | redelivering a message whose key stayed stored changes nothing and publishes nothing |
| `Retention.NextVictim` | crates/inspector-core/src/application/capture_hub.rs:400-408 | the loop's next terminal index is the next element of the closed-form victims |
| `Retention.OnlyWithout` | crates/inspector-core/src/application/capture_hub.rs:407-408 | dropping the first victims drops exactly that prefix of the candidates |
| `Retention.Relief` | crates/inspector-core/src/application/capture_hub.rs:417-430 | the least number of victims after which both limits hold, or all of them |
| `ByteConservation.StoreConserves` | crates/inspector-core/src/application/capture_hub.rs:339-342 | storing a command keeps the byte counter exact if and only if the counter's update does not saturate |
| `ByteConservation.EvictionConserves` | crates/inspector-core/src/application/capture_hub.rs:414-432 | eviction keeps the counter exact and ends within both limits or with no terminal command left |
| `ByteConservation.EvictsFewest` | crates/inspector-core/src/application/capture_hub.rs:414-432 | with an exact counter, eviction takes the oldest finished commands and no more than needed: with the youngest of them put back the store would be over a limit |
| `ByteConservation.RunConserves` | crates/inspector-core/src/application/capture_hub.rs:335-349 | over every run of ingests and clears without saturation the counter equals the sum of stored lengths |
| `ByteConservation.DisconnectConservesIff` | crates/inspector-core/src/application/capture_hub.rs:218-228 | a disconnect, successful or failing half way, keeps the counter exact if and only if the rewritten commands take as many bytes as before |
| `Shortfalls.DisconnectDrifts` | crates/inspector-core/src/application/capture_hub.rs:224-228 | from a fresh session, a command start and a disconnect leave the counter below the bytes stored |
| `CaptureEntities.UpsertWellFormed` | src/state/capture/captureDeltaReducer.ts:46-55 | an upsert keeps summaries, details and arrival order over the same keys, each listed once |
| `CaptureEntities.RemoveWellFormed` | src/state/capture/captureDeltaReducer.ts:58-70 | so does a removal |
| `CaptureEntities.InsertionIndex` | src/state/capture/captureDeltaReducer.ts:126-135 | the first place whose occupant the new summary comes before |
| `CaptureEntities.SummaryFromExchange` | src/state/capture/captureDeltaReducer.ts:105-124 | the interface's own summary of an exchange is, field by field, the one the hub publishes |
| `CaptureEntities.ReduceCell` | src/state/capture/captureDeltaReducer.ts:36-56 | a delta touches the one entry it names: the revision guard, the removal, or nothing |
| `CaptureEntities.SortedStatesAgree` | src/state/capture/captureDeltaReducer.ts:126-145 | two sorted states with the same details are the same state |
| `CaptureEntities.FoldWellFormed` | src/state/capture/captureDeltaReducer.ts:17-21 | every fold keeps the state well formed |
| `Coalescing.CoalesceKeepsLast` | src/state/capture/captureDeltaReducer.ts:74-103 | without resets, coalescing leaves one delta per key, that key's last |
| `Coalescing.CoalesceAfterReset` | src/state/capture/captureDeltaReducer.ts:79-84 | a reset starts the coalesced batch over |
| `Coalescing.CoalescedCell` | src/state/capture/captureDeltaReducer.ts:74-103 | after the coalesced fold each entry is decided by the key's last delta alone |
| `Coalescing.ProgressiveFold` | src/state/capture/captureDeltaReducer.ts:36-56 | in a progressive batch the delta-by-delta fold of a key is its last delta too |
| `Coalescing.LastWordIff` | src/state/capture/captureDeltaReducer.ts:36-56 | without resets, the delta-by-delta fold of a key is its last delta, whatever the key held, if and only if that last word stands |
| `Coalescing.ProgressiveStands` | src/state/capture/captureDeltaReducer.ts:36-56 | in a progressive batch every key's last word stands |
| `Coalescing.CoalescingSound` | src/state/capture/captureDeltaReducer.ts:74-103 | for a batch with one sequence per key in which every last word stands the coalesced fold equals the delta-by-delta fold: summaries, details, order |
| `Coalescing.CoalescingSoundIff` | src/state/capture/captureDeltaReducer.ts:74-103 | without resets the coalesced batch means the same from every state if and only if every key's last word stands |
| `Coalescing.InvalidationLosesArrival` | src/state/capture/captureDeltaReducer.ts:74-103 | an arrival followed by an invalidation of its detail is kept delta by delta and lost by coalescing |
| `Coalescing.ResetHolds` | src/state/capture/captureDeltaReducer.ts:24-34 | a reset holds exactly its exchanges, each under its key, sorted by arrival |
| `Coalescing.CoalescingSoundAfterReset` | src/state/capture/captureDeltaReducer.ts:79-84 | the same for any batch with a reset after whose last reset every last word stands |
| `CaptureReducer.CoalesceCaptureDeltas` | src/state/capture/captureDeltaReducer.ts:74-103 | the loop over result, key index and status index computes the coalesced batch |
| `CaptureReducer.ReduceCaptureDelta` | src/state/capture/captureDeltaReducer.ts:36-56 | one delta reduces the entities as specified and keeps the tree equal to the recomputed one |
| `CaptureReducer.FromSnapshot` | src/state/capture/captureDeltaReducer.ts:24-34 | a reset builds sorted entities and their tree from nothing |
| `CaptureReducer.UpsertExchange` | src/state/capture/captureDeltaReducer.ts:45-55 | an upsert past the revision guard changes entities and tree together |
| `CaptureReducer.RemoveExchange` | src/state/capture/captureDeltaReducer.ts:58-71 | a removal takes the key out of entities and tree together |
| `CaptureReducer.ReduceCaptureDeltas` | src/state/capture/captureDeltaReducer.ts:17-21 | a batch ends in the fold of its coalesced deltas, with the tree recomputed |
| `CaptureReducer.SameEntitiesSameTree` | src/state/capture/captureDeltaReducer.ts:36-56 | states with equal entities show the same tree, so coalescing and replaying do too |
| `CaptureReducer.FollowRun` | src/state/capture/captureDeltaReducer.ts:17-71 | reducing each step's batch of any run from nothing ends with the hub's summaries, each under its store key, in its arrival order and with the tree recomputed from them |
| `Publication.SplitStoreKey` | src/domain/display/exchangeKey.ts:4-10 | store keys are injective on sources that are UUIDs |
| `Publication.StoreDelivers` | crates/inspector-core/src/application/capture_hub.rs:152-155 | the batch of a stored exchange accounts for every change of the hub, key by key |
| `Publication.IngestDelivers` | crates/inspector-core/src/application/capture_hub.rs:125-160 | so does the batch of every ingest |
| `Publication.DisconnectDelivers` | crates/inspector-core/src/application/capture_hub.rs:200-232 | and of every disconnect that succeeds |
| `Replication.StepMirrors` | src/state/capture/captureDeltaReducer.ts:17-71 | folding one published batch takes an interface that mirrors the hub to one that mirrors it again |
| `Replication.GuardNeverDiscards` | src/state/capture/captureDeltaReducer.ts:46-48 | the revision guard lets every upsert of a hub batch through |
| `Replication.RunMirrors` | src/state/capture/captureDeltaReducer.ts:17-71 | mirroring is kept over every run |
| `Replication.EndToEnd` | src/state/capture/captureDeltaReducer.ts:17-71 | from a fresh session, after any run whose disconnects validate, the interface lists exactly the hub's summaries in the hub's arrival order |
| `Replication.DisconnectMirrorsIff` | crates/inspector-core/src/application/capture_hub.rs:205-232 | a disconnect keeps the mirror if and only if every entry in flight of the source stays valid once interrupted, or none of them is an exchange |
| `Shortfalls.DisconnectLosesMirror` | crates/inspector-core/src/application/capture_hub.rs:205-215 | from a fresh session, a start whose metadata just fits and a disconnect leave the interface apart from the hub |
| `LagReset.ResetMirrors` | crates/inspector-server/src/dev_api.rs:111-114 | a reset with the hub's snapshot mirrors the hub |
| `LagReset.ReplayBatch` | src/state/capture/captureDeltaReducer.ts:36-56 | replaying one buffered batch keeps every entry between the replayed hub and the snapshot's |
| `LagReset.LagResetConverges` | crates/inspector-server/src/dev_api.rs:107-115 | after a lag reset at t and the buffered batches from any s up to the end, the listed summaries, the details and the arrival order are the hub's, whatever was evicted, re-arrived or cleared |
| `Overtaking.EntryTurn` | src/data/adapters/browser/BrowserCaptureDataSource.ts:147-162 | one batch, applied in any turn without conflicts and read late, keeps every entry on track: if nothing to come takes the key away, the entry is the hub's past every batch applied for it |
| `Overtaking.BatchesSwapIff` | src/state/capture/captureDeltaReducer.ts:41-47 | two batches mean the same for a key in either order, from every entry, if and only if neither removes what the other upserts and equal revisions carry equal content |
| `Overtaking.OvertakingConverges` | src/data/adapters/browser/BrowserCaptureDataSource.ts:92-99 | every detail read late and the batches applied in any order in which none crosses a reset or a removal of a key it names, the interface ends with the hub's entries |
| `Overtaking.LateFetchConverges` | src/data/adapters/browser/BrowserCaptureDataSource.ts:147-162 | the same for the batches applied in the order of publication |
| `Overtaking.LateLagResetConverges` | crates/inspector-server/src/dev_api.rs:107-115 | the same after a lag reset, overtaking included |
| `LateShortfalls.ResetOvertakes` | src/data/adapters/browser/BrowserCaptureDataSource.ts:92-99 | a reset applied before the batch of an earlier start: the interface shows an exchange the hub no longer has |
| `SortedFolds.UpsertStaysSortedIff` | src/state/capture/captureDeltaReducer.ts:45-54 | an upsert leaves a sorted state sorted if and only if the entry it replaces, if any, keeps its place among the others |
| `LateOrder.InOrderThroughoutIff` | src/state/capture/captureDeltaReducer.ts:45-54 | under late reads and overtaking the interface is sorted after every delta if and only if every upsert, as read, keeps the place of the entry it replaces |
| `LateOrder.LateOrderConverges` | src/data/adapters/browser/BrowserCaptureDataSource.ts:92-99 | late reads and overtaking without conflicts, from a mirror at t and batches from any s up to it: if no update finds its key under a later arrival, the interface ends with the hub's summaries in the hub's arrival order |
| `LateOrder.NothingReturnsConverges` | src/data/adapters/browser/BrowserCaptureDataSource.ts:147-162 | so under every schedule if no key taken away is stored again before a clear |
| `LateOrder.LateReplayShows` | src/data/adapters/browser/BrowserCaptureDataSource.ts:147-162 | the same for the batches applied in the order of publication |
| `LateOrder.LateLagResetShows` | crates/inspector-server/src/dev_api.rs:107-115 | the same after a lag reset |
| `LateShortfalls.LateReadSwapsOthers` | src/state/capture/captureDeltaReducer.ts:53 | a run in which one late read leaves two other exchanges, which never left the hub, in the wrong order |
| `StructurePath.PathsBranch` | src/state/structure/treeIndex.ts:102-111 | two paths that share an id share everything up to it, so an id names one place |
| `StructurePath.RootInjective` | src/state/structure/treeIndex.ts:105 | a host group's id determines scheme, host and port |
| `StructurePath.PathNamesGroups` | src/state/structure/treeIndex.ts:104-110 | a URL path names its host and every segment but the last, decoded, in order |
| `StructurePath.SegmentsOf` | src/state/structure/treeIndex.ts:104-111 | slashes only separate: text without one is one segment, and empty segments vanish |
| `StructurePath.RootTells` | src/state/structure/treeIndex.ts:102-111 | an exchange without host or path goes to the group of invalid addresses; any other under its scheme, host and port, then its decoded segments |
| `TreeAggregates.AddSums` | src/state/structure/treeAggregates.ts:25-47 | adding a summary keeps every total, source counts included, the sum over its exchanges |
| `TreeAggregates.SubtractSums` | src/state/structure/treeAggregates.ts:25-47 | subtracting one does too, and no source is left at zero |
| `TreeAggregates.SumsDetermine` | src/state/structure/treeAggregates.ts:4-12 | a set of exchanges has exactly one aggregate |
| `TreeIndex.GrowShape` | src/state/structure/treeIndex.ts:39-53 | one position of an upsert extends the recomputed tree by one step of the path |
| `TreeIndex.ShrinkShape` | src/state/structure/treeIndex.ts:68-83 | one position of a removal takes exactly one step back, pruning a node when and only when nothing else keeps it |
| `TreeIndex.EmptiedExactly` | src/state/structure/treeIndex.ts:71-74 | the pruning condition holds exactly when no other exchange passes through the node |
| `TreeIndex.RemoveStructureSummary` | src/state/structure/treeIndex.ts:61-87 | the removal loop ends in the tree recomputed without the exchange |
| `TreeIndex.UpsertStructureSummary` | src/state/structure/treeIndex.ts:29-58 | the upsert loop ends in the tree recomputed with the exchange's new summary |
| `TreeIndex.AgreeingIndexesMatch` | src/state/structure/treeIndex.ts:29-87 | the retained summaries determine nodes, parents, children, lists, aggregates and paths, up to sibling order and activity revision |
| `TreeIndex.NoEmptyGroup` | src/state/structure/treeIndex.ts:71-74 | no group without exchanges survives, and each count is the number of exchanges below |
| `TreeTraversal.ExchangeIdsUnderGroup` | src/state/sequence/filterSelectors.ts:26-36 | returns exactly the exchanges whose recorded path contains the group |
| `TreeTraversal.Visit` | src/state/sequence/filterSelectors.ts:28-33 | the recursive visit ends and adds exactly the exchanges under the node |
| `TreeTraversal.SelectFilteredExchangeIds` | src/state/sequence/filterSelectors.ts:7-19 | keeps, in arrival order, exactly the exchanges that match and lie under the focused group |
| `TreeTraversal.GroupExactlyWhenPopulated` | src/state/structure/treeIndex.ts:94-100 | a node has a group if and only if a visible exchange is under it |
| `TreeTraversal.AppendGroup` | src/state/structure/treeSelectors.ts:50-68 | the recursion pushes a group's rows, children before exchanges |
| `TreeTraversal.FlattenStructureGroups` | src/state/structure/treeSelectors.ts:39-48 | the flattened rows of all groups |
| `TreeTraversal.EachReachedExchangeOnce` | src/state/structure/treeSelectors.ts:39-68 | an exchange has exactly one row when it is visible and every group on its path stands open, none otherwise |
| `TreeTraversal.EveryRowFits` | src/state/structure/treeSelectors.ts:59-67 | every row stands at its path's parent and depth with its own key; a group row shows its node and the visible exchanges of it, is open exactly when the view says so, and has a visible exchange below |
| `TreeTraversal.RowsInOrder` | src/state/structure/treeSelectors.ts:39-68 | the rows come depth first: each belongs to the nearest row one level up, which is an open group; siblings keep their order, child groups come before own exchanges, and the draft stands right behind its source |
| `OutboundAdapter.Adapter.CaptureStarted` | adapters/dotnet/HttpInspector.Adapter/HttpInspectorAdapter.cs:93-136 | starts an exchange with its first message, or counts the drop and hands out an uncaptured handle |
| `OutboundAdapter.Adapter.QueueTerminal` | adapters/dotnet/HttpInspector.Adapter/HttpInspectorAdapter.cs:451-486 | queues the first terminal of a handle at revision two, or drops it with the exchange |
| `OutboundAdapter.Adapter.Finish` | adapters/dotnet/HttpInspector.Adapter/HttpInspectorAdapter.cs:472-482 | the terminal of a tracked exchange is accepted and applied, or dropped with the exchange |
| `OutboundAdapter.Adapter.Heartbeat` | adapters/dotnet/HttpInspector.Adapter/HttpInspectorAdapter.cs:437-445 | queues a heartbeat while a session is negotiated |
| `OutboundAdapter.Adapter.TryEnqueue` | adapters/dotnet/HttpInspector.Adapter/HttpInspectorAdapter.cs:632-643 | accepts a message exactly while queue and pending together are below capacity |
| `OutboundAdapter.Adapter.DispatchNext` | adapters/dotnet/HttpInspector.Adapter/HttpInspectorAdapter.cs:353-375 | moves the first queued message to pending, unless the connection is faulted |
| `OutboundAdapter.Adapter.ObserveAcknowledgement` | adapters/dotnet/HttpInspector.Adapter/HttpInspectorAdapter.cs:528-578 | the reply's effect, which OutboundLaws.ReplyOutcome spells out: settled, back at the front, or left in flight |
| `OutboundAdapter.Adapter.Settle` | adapters/dotnet/HttpInspector.Adapter/HttpInspectorAdapter.cs:538-550 | a final acknowledgement settles the message and, when accepted, may release its exchange |
| `OutboundAdapter.Adapter.RequeueForRetry` | adapters/dotnet/HttpInspector.Adapter/HttpInspectorAdapter.cs:580-605 | both loops leave the message at the front and the others in order |
| `OutboundAdapter.Adapter.QueueRecoverySnapshots` | adapters/dotnet/HttpInspector.Adapter/HttpInspectorAdapter.cs:617-630 | every tracked exchange rises by two and is snapshotted, room or not |
| `OutboundAdapter.Adapter.Connect` | adapters/dotnet/HttpInspector.Adapter/HttpInspectorAdapter.cs:337-353 | a new connection clears the fault and, from the second on, queues recovery snapshots |
| `OutboundAdapter.Adapter.ConnectionEnded` | adapters/dotnet/HttpInspector.Adapter/HttpInspectorAdapter.cs:400-405 | the end of a connection drops the session |
| `OutboundAdapter.Adapter.BeginStop` | adapters/dotnet/HttpInspector.Adapter/HttpInspectorAdapter.cs:225-240 | stopping sets the flag first |
| `OutboundAdapter.Adapter.Shutdown` | adapters/dotnet/HttpInspector.Adapter/HttpInspectorAdapter.cs:257-267 | shutdown empties queue, pending and exchanges |
| `OutboundState.RunOrderly` | adapters/dotnet/HttpInspector.Adapter/HttpInspectorAdapter.cs:518-643 | in every run capacity holds; until stop every accepted message is in exactly one of queue, pending and settled; first sends follow acceptance order despite retries |
| `OutboundState.AcceptedInOnePlace` | adapters/dotnet/HttpInspector.Adapter/HttpInspectorAdapter.cs:518-605 | until stop an accepted message has exactly one place |
| `OutboundState.StartedOnceFinishedOnce` | adapters/dotnet/HttpInspector.Adapter/HttpInspectorAdapter.cs:123-132 | each exchange is started once, before anything else about it, and queues at most one terminal |
| `OutboundState.LetGoOnlyWhenFinished` | adapters/dotnet/HttpInspector.Adapter/HttpInspectorAdapter.cs:536-545 | an exchange is let go only on shutdown, when its terminal finds no room, or when the listener accepts its terminal or a finished snapshot |
| `OutboundState.DispatchOrderly` | adapters/dotnet/HttpInspector.Adapter/HttpInspectorAdapter.cs:353-375 | dispatch keeps conservation and order |
| `OutboundState.RequeueOrderly` | adapters/dotnet/HttpInspector.Adapter/HttpInspectorAdapter.cs:580-605 | retry keeps conservation and order |
| `OutboundLaws.ReplyOutcome` | adapters/dotnet/HttpInspector.Adapter/HttpInspectorAdapter.cs:528-605 | a final reply settles its message alone and may release its exchange; a retryable refusal, a mismatched acknowledgement, a failure and a retryable transport failure put it back first with the others in order, the last three at fault; any other reply changes nothing |
| `OutboundLaws.SettledIffAnswered` | adapters/dotnet/HttpInspector.Adapter/HttpInspectorAdapter.cs:528-578 | in every run a message is settled if and only if it got a final reply while in flight |
| `OutboundLaws.FaultHolds` | adapters/dotnet/HttpInspector.Adapter/HttpInspectorAdapter.cs:353-375 | after a fault nothing is sent until the next connection |
| `OutboundLaws.DispatchSends` | adapters/dotnet/HttpInspector.Adapter/HttpInspectorAdapter.cs:353-375 | a dispatch sends the head of the queue whenever the connection is up and not at fault |
| `OutboundLaws.StartTracks` | adapters/dotnet/HttpInspector.Adapter/HttpInspectorAdapter.cs:93-136 | a start is tracked at revision one and sent, or dropped and counted exactly when there is no room |
| `OutboundLaws.FinishQueues` | adapters/dotnet/HttpInspector.Adapter/HttpInspectorAdapter.cs:451-486 | the first finish of a tracked exchange is sent as its terminal at revision two, or dropped together with the exchange |
| `OutboundLaws.BeatQueues` | adapters/dotnet/HttpInspector.Adapter/HttpInspectorAdapter.cs:437-445 | a heartbeat is sent, or dropped and counted, exactly while connected and running |
| `OutboundLaws.ConnectResends` | adapters/dotnet/HttpInspector.Adapter/HttpInspectorAdapter.cs:617-643 | the first connection resends nothing; every later one raises each tracked exchange by two revisions and resends it as far as there is room |
| `OutboundLaws.StopsThenShuts` | adapters/dotnet/HttpInspector.Adapter/HttpInspectorAdapter.cs:225-267 | a stop only sets its flag; the shutdown after it empties queue, flight and tracking |
| `Recovery.RecoveryDominates` | adapters/dotnet/HttpInspector.Adapter/HttpInspectorAdapter.cs:580-630 | in every run of adapter and hub with the terminal, if any, before the first recovery, each recovery snapshot is strictly newer than the hub's entry |
| `Recovery.EntryMoves` | crates/inspector-core/src/application/capture_hub.rs:200-215 | a hub step gives an entry its message's revision, interrupts it by one revision, or leaves it |
| `Recovery.LateTerminalLoses` | adapters/dotnet/HttpInspector.Adapter/HttpInspectorAdapter.cs:1415-1424 | after a terminal that follows a recovery, the next snapshot can be older than the hub's entry: newer if and only if the adapter had not recovered before |
| `Recovery.LateTerminalIgnored` | adapters/dotnet/HttpInspector.Adapter/HttpInspectorAdapter.cs:1415-1424 | once the hub's entry has reached revision two, a terminal is ignored in every later state that still stores the entry |
| `LateTerminal.LossIsReachable` | adapters/dotnet/HttpInspector.Adapter/HttpInspectorAdapter.cs:580-630 | a run from the start that ends where the late terminal loses: in flight at the hub at the adapter's own revision three |
| `LateTerminal.OutcomeIsLost` | adapters/dotnet/HttpInspector.Adapter/HttpInspectorAdapter.cs:1415-1424 | a run in which every accepted message, the terminal included, is delivered and acknowledged, and the hub still shows the exchange incomplete |
| `BodyObservation.Observer.ObserveBytes` | adapters/dotnet/HttpInspector.Adapter/HttpBodyObservation.cs:29-65 | a chunk is kept, dropped with the whole buffer, or ends the watch, as specified |
| `BodyObservation.Observer.CompleteBody` | adapters/dotnet/HttpInspector.Adapter/HttpBodyObservation.cs:67-85 | ends the watch with the specified report, which CompletionReports spells out |
| `BodyObservation.Observer.FailBody` | adapters/dotnet/HttpInspector.Adapter/HttpBodyObservation.cs:87-107 | a failure reports once and captures nothing |
| `BodyObservation.Observer.DisposeObservation` | adapters/dotnet/HttpInspector.Adapter/HttpBodyObservation.cs:109-123 | disposal reports once and captures nothing |
| `BodyObservation.Observer.Finish` | adapters/dotnet/HttpInspector.Adapter/HttpBodyObservation.cs:125-136 | the first end wins and drops the buffer |
| `BodyObservation.AtMostOneReport` | adapters/dotnet/HttpInspector.Adapter/HttpBodyObservation.cs:125-136 | over every call sequence there is at most one report, exactly when the watch ended |
| `BodyObservation.CapturedIsEverything` | adapters/dotnet/HttpInspector.Adapter/HttpBodyObservation.cs:29-85 | a captured body is every observed chunk in order, within the maximum, of any comparable declared length |
| `BodyObservation.ChunkingIrrelevantIff` | adapters/dotnet/HttpInspector.Adapter/HttpBodyObservation.cs:54-59 | the reports do not depend on chunking if and only if the stream does not overrun a comparable declared length within the maximum |
| `BodyObservation.CompletionReports` | adapters/dotnet/HttpInspector.Adapter/HttpBodyObservation.cs:28-85 | completion reports the whole body if and only if it is not empty, within the maximum and of any comparable declared length; an empty one if and only if nothing came and no other length was declared; a body cut at its declared length exactly when a chunk ends there; else nothing usable |
| `BodyObservation.OtherEndsReport` | adapters/dotnet/HttpInspector.Adapter/HttpBodyObservation.cs:87-123 | a failure reports its own error, a disposal an empty body exactly when nothing came and none was to come, unless the declared length was reached before |
| `ContentDecoding.TryDecodeContentEncoding` | adapters/dotnet/HttpInspector.Adapter/HttpBodyObservation.cs:335-360 | the loop undoes the layers last first |
| `ContentDecoding.DecodesIffLayersFit` | adapters/dotnet/HttpInspector.Adapter/HttpBodyObservation.cs:335-405 | decoding returns the encoded content if and only if every uncovered layer is within the limit |
| `ContentDecoding.DecodesExactly` | adapters/dotnet/HttpInspector.Adapter/HttpBodyObservation.cs:335-405 | decoding yields content if and only if there are layers, each decoding into the next within the limit, with the content innermost |
| `ContentDecoding.CodingsInOrder` | adapters/dotnet/HttpInspector.Adapter/HttpBodyObservation.cs:335-360 | every part that is neither empty nor identity is one coding, in header order |
| `ContentDecoding.IdentityIsAbsent` | adapters/dotnet/HttpInspector.Adapter/HttpBodyObservation.cs:335-360 | an empty part or an identity coding is as good as absent |
| `ResultCapture.CellIsWholeOrCut` | adapters/dotnet/HttpInspector.Adapter/DatabaseResultCapture.cs:251-290 | a cell not marked cut holds its value whole |
| `ResultLaws.CellExactly` | adapters/dotnet/HttpInspector.Adapter/DatabaseResultCapture.cs:251-290 | a value is cut if and only if it is longer than its cell may be, and then shows its beginning and its true length |
| `ResultLaws.PackTells` | adapters/dotnet/HttpInspector.Adapter/DatabaseResultCapture.cs:177-203 | cell by cell: not read exactly when its column was not, too large exactly when the bytes so far and its own pass the maximum, else stored as read; truncation exactly when some cell is cut or too large |
| `ResultCapture.RunKeepsLimits` | adapters/dotnet/HttpInspector.Adapter/DatabaseResultCapture.cs:151-208 | over every call sequence rows, columns and counted bytes stay within limits and every row has one cell per column |
| `ResultCapture.RunHonest` | adapters/dotnet/HttpInspector.Adapter/HttpInspectorDbDataReader.cs:69-140 | at most one terminal; one without truncation comes from a reader that ran out of rows and shows every row and every last-read value whole |
| `ResultLaws.RunExact` | adapters/dotnet/HttpInspector.Adapter/HttpInspectorDbDataReader.cs:69-140 | in every run the counted bytes, rows and truncation mark are exactly what the fields offered and values read demand |
| `ResultLaws.WholeIff` | adapters/dotnet/HttpInspector.Adapter/HttpInspectorDbDataReader.cs:69-140 | in every run the result sent is not truncated if and only if the reader ran out of rows, fields and rows were within their limits, no value read last was too long, and all values read fit the bytes allowed |
| `ResultLaws.FirstEndingSends` | adapters/dotnet/HttpInspector.Adapter/HttpInspectorDbDataReader.cs:69-140 | the first ending call of a run sends its one terminal, a failure exactly when it failed, complete exactly when the rows ran out |
| `ResultCollector.Collector.BeginRow` | adapters/dotnet/HttpInspector.Adapter/DatabaseResultCapture.cs:151-158 | captures the schema, closes the row in progress and starts a blank one |
| `ResultCollector.Collector.CaptureCell` | adapters/dotnet/HttpInspector.Adapter/DatabaseResultCapture.cs:160-165 | records the value read in the row's array |
| `ResultCollector.Collector.PackRow` | adapters/dotnet/HttpInspector.Adapter/DatabaseResultCapture.cs:177-203 | the cell loop packs the row as specified; PackTells says which cells are stored, too large or not read |
| `ResultCollector.Collector.CompleteRow` | adapters/dotnet/HttpInspector.Adapter/DatabaseResultCapture.cs:167-208 | closes the row in progress or marks truncation |
| `ResultCollector.Collector.CaptureSchema` | adapters/dotnet/HttpInspector.Adapter/DatabaseResultCapture.cs:243-249 | captures the columns once, up to the limit |
| `ResultCollector.ObservingReader.Read` | adapters/dotnet/HttpInspector.Adapter/HttpInspectorDbDataReader.cs:93-105 | a read closes the row, and begins another or finishes |
| `ResultCollector.ObservingReader.Observe` | adapters/dotnet/HttpInspector.Adapter/HttpInspectorDbDataReader.cs:142-146 | a getter returns the value it records |
| `ResultCollector.ObservingReader.NextResult` | adapters/dotnet/HttpInspector.Adapter/HttpInspectorDbDataReader.cs:69-79 | a further result set ends the capture |
| `ResultCollector.ObservingReader.Close` | adapters/dotnet/HttpInspector.Adapter/HttpInspectorDbDataReader.cs:121-126 | closing ends the capture |
| `ResultCollector.ObservingReader.MoveNext` | adapters/dotnet/HttpInspector.Adapter/HttpInspectorDbDataReader.cs:148-159 | enumerating reads a row as a read does, the schema taken when the row begins |
| `ResultCollector.ObservingReader.DisposeReader` | adapters/dotnet/HttpInspector.Adapter/HttpInspectorDbDataReader.cs:128-134 | disposing ends the capture, unless the inner disposal throws |
| `ResultCollector.ObservingReader.Finish` | adapters/dotnet/HttpInspector.Adapter/HttpInspectorDbDataReader.cs:136-140 | the terminal is sent once, complete only after the rows ran out |
| `ResultCollector.ObservingReader.Fail` | adapters/dotnet/HttpInspector.Adapter/DatabaseResultCapture.cs:110-116 | a failure sends the terminal without a result |
| `ResultCapture.BuildReports` | adapters/dotnet/HttpInspector.Adapter/DatabaseResultCapture.cs:232-241 | a result without truncation comes from a reader that ran out of rows and shows every row with its last-read values whole; a missing row or a cut cell always reports truncation |
| `TopLevelSplit.SplitTopLevel` | src/domain/dataverse/parseDataverseMap.ts:138-167 | the loop over depth, quote and start computes the split |
| `TopLevelSplit.PartsFit` | src/domain/dataverse/parseDataverseMap.ts:138-167 | no part is empty or longer than the text |
| `TopLevelSplit.JoinedParts` | src/domain/dataverse/parseDataverseMap.ts:138-167 | pieces that hide the delimiter, joined, split back into themselves |
| `TopLevelSplit.SplitsExactly` | src/domain/dataverse/parseDataverseMap.ts:138-167 | text, quotes included, is cut at the first delimiter outside quotes and parentheses and on from behind it; without one it is a single part |
| `TopLevelSplit.QuotedStaysWhole` | src/domain/dataverse/parseDataverseMap.ts:50 | a comparison with a quoted value that contains the delimiter stays whole |
| `ExpandParser.PrintedParses` | src/domain/dataverse/parseDataverseMap.ts:119-131 | parsing a printed relation returns it |
| `ExpandParser.PrintedListParses` | src/domain/dataverse/parseDataverseMap.ts:114-131 | parsing a printed list of relations returns it: names, columns, nesting, order |
| `ExpandParser.EntryParses` | src/domain/dataverse/parseDataverseMap.ts:114-131 | an entry is dropped exactly when it is blank, unclosed or nameless; its name is the text before the parenthesis |
| `ExpandParser.FirstOptionCounts` | src/domain/dataverse/parseDataverseMap.ts:128-129 | an option's value is the rest of the first option with its prefix, empty when there is none |
| `ExpandParser.OptionsAreRead` | src/domain/dataverse/parseDataverseMap.ts:119-136 | the text of a relation with one column and one relation below it is read back, for all names |
| `XmlFormat.MarkupEnd` | src/domain/body-presentation/xmlPresentation.ts:39-55 | the loop finds where markup ends, quotes respected |
| `XmlFormat.Tokenize` | src/domain/body-presentation/xmlPresentation.ts:20-37 | the loop computes the tokens |
| `XmlFormat.Format` | src/domain/body-presentation/xmlPresentation.ts:62-83 | the loop lays out the lines |
| `XmlFormat.CreateXmlPresentation` | src/domain/body-presentation/xmlPresentation.ts:6-13 | the presentation of a text |
| `XmlFormat.TokensAreLossless` | src/domain/body-presentation/xmlPresentation.ts:20-37 | the tokens, concatenated, are the text |
| `XmlFormat.MarkupStable` | src/domain/body-presentation/xmlPresentation.ts:39-60 | what follows complete markup has no say in where it ends |
| `XmlFormat.PresentedExactlyWhenNested` | src/domain/body-presentation/xmlPresentation.ts:62-83 | a text is presented if and only if its markup is complete and its elements nest, each piece on a line of its own indented by its level |
| `XmlFormat.PiecesStandAtLevel` | src/domain/body-presentation/xmlPresentation.ts:65-81 | each line is its piece indented by its nesting level, a closing tag with its opening one |
| `XmlFormat.LaidOutExactlyWhenNested` | src/domain/body-presentation/xmlPresentation.ts:71-82 | the layout fails exactly when a tag closes nothing or is left open |
| `XmlFormat.PrettySaysTheSame` | src/domain/body-presentation/xmlPresentation.ts:62-83 | the output carries the same markup and trimmed text in order |
| `XmlFormat.PrettyStaysPretty` | src/domain/body-presentation/xmlPresentation.ts:6-13 | formatting a valid result again gives the identical text |
| `XmlTrees.TreeIsLaidOut` | src/domain/body-presentation/xmlPresentation.ts:6-83 | a document written out from a tree of elements, comments, CDATA, instructions and texts is valid and laid out from the tree: one piece per line, two spaces further in than the element around it |
| `RecomposeUrl.BuildAfterParseIff` | src/features/recompose/recomposeUrl.ts:4-18 | building after parsing returns the URL exactly unless a question mark has nothing behind it |
| `RecomposeUrl.ParseAfterBuildIff` | src/features/recompose/recomposeUrl.ts:4-43 | parsing after building returns base, fragment and ordered pairs if and only if the draft has no rows or a non-empty query |
| `RecomposeUrl.OnlyEmptyRowIsLost` | src/features/recompose/recomposeUrl.ts:15-18 | the one draft that is lost is a single row with empty text |
| `RecomposeUrl.RowsShowMeaning` | src/features/recompose/recomposeUrl.ts:24-46 | every parsed row keeps its spelling, split at the first equals sign, and shows its meaning: pluses as spaces, escapes decoded, or the text itself where decoding fails |
| `ClassIds.UniqueClassId` | src/domain/dataverse/renderDataverseClassDiagram.ts:80-86 | ends, by pigeonhole, at the candidate or its first free number |
| `ClassIds.CreateExpansionNode` | src/domain/dataverse/renderDataverseClassDiagram.ts:73-78 | names a subtree with fresh ids and records them |
| `ClassIds.CreateExpansionNodes` | src/domain/dataverse/renderDataverseClassDiagram.ts:68-71 | distinct ids over the whole tree, none of them REQUEST, ALL or EXPAND |
| `ClassIds.WordIsTaken` | src/domain/dataverse/renderDataverseClassDiagram.ts:68-86 | a word that is not reserved becomes an id whenever an expansion asks for it, and otherwise only as a numbered form of one asked for |
| `ClassIds.ExpansionTakesEntity` | src/domain/dataverse/renderDataverseClassDiagram.ts:68-86 | one expansion of the entity's own name takes the entity's class id |

## Left out

- LagReset.LagResetConverges: reads each detail right after its step; LateOrder.LateLagResetShows drops that assumption, and the order of batches.
- LateOrder.LateOrderConverges: its condition is proved sufficient for the order at the end; the exact condition, InOrderThroughoutIff, is for the order after every delta.
- Overtaking.OvertakingConverges: its condition is proved sufficient for any number of batches; the exact condition, BatchesSwapIff, is for two applied one after the other.
- Replication.EndToEnd: covers runs whose disconnects validate; the exact failing condition is Replication.DisconnectMirrorsIff.
- ByteConservation.RunConserves: covers runs without disconnects and without saturation, with the exact conditions of both beside it.
- ByteConservation.EvictsFewest: speaks of the stored bytes, so it needs an exact counter; Retention.Relief is the same least count for any counter.
- Recovery.RecoveryDominates: needs the terminal, if any, before the first recovery snapshot; LateTerminal.OutcomeIsLost shows why.
- Revisions, arrival sequences and observed lengths do not wrap; the checked addition of the body observer cannot overflow here.
- Validation looks at the fields that merging can break; the remaining checks are one opaque function.
- The gap between the first snapshot and the subscription of a new interface, and publication racing with mutation.
- Capture status: a status before a reset in the same batch is dropped, so the theorems are about entries and the tree.
- The database side of the interface, and the adapter's second queue for database messages, which follows the same rules.
- Exchange handles and states of the adapter are values keyed by id, not objects; aliasing of a handle is not modelled, and messages and exchanges share one id counter.
- Reply handling that arrives after shutdown, when nothing is pending any more.
- The interface's maps are maps: names such as `__proto__`, special to JavaScript objects, are ordinary keys here.
- Durations and sizes are whole numbers, so sums are exact; floating-point drift of incremental sums is not modelled.
- Array sorting is a stable insertion sort by the source's comparison.
- The tree's activity revision is carried but nothing is claimed about it.
- Matching one summary against filter terms is a parameter of the selection.
- Media types, character sets and text rendering of captured bodies; the stream wrappers that call the observer.
- A getter whose inner call throws records nothing, so it is no step here.
- Scalar and non-query database results, and number formatting of cells.
- Parsing of `$filter`, outer parentheses and quoted values; Mermaid text beyond class ids.
- The raw request editor, the replay client, sockets, routes, diagnostics, and everything that only displays.
- JSON building and wire encoding: a message carries its key, revision, event and an opaque rest.
