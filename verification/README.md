# mqlite verified model

A Dafny model of the parts of mqlite, an embedded MVCC document store with a write-ahead journal,
on which its guarantees rest, with machine-checked proofs of those guarantees.
`dafny verify dfyconfig.toml` verifies the whole project.

## What is modelled

**Journal.** `LogSlots` is the log manager: a class whose methods reserve byte ranges, write them with
positioned writes, mark them written and advance the contiguous ready frontier. `GroupCommit` puts any number of
writers and fsync callers over it as a state machine of atomic steps, with the operating system's cache and the
stable medium as separate byte strings, so that a power cut keeps the stable bytes and any choice of the rest;
`GroupCommitRuns` is what all its runs keep.
`JournalScan` and `CrashSafety` are the scan for the valid prefix, over an abstract record codec.
`RecoverySpec` says in functions which records of an accepted log count, in which order and what they write;
`Recovery` runs the passes as the source does (loops, a `ScanState` object that is updated, the main file rewritten page by
page) and is proved to do just that. `RecoveryImage` and `RecoveryCut` hold what follows: the image, the cut, the
frontier, the clock and the batch ids. `RecoveryAgain` is about recovering once more after a crash, and `Reopen` puts the
group-commit protocol on top of the journal that recovery left.

**Keys.** `Keys` and `NumberKeys` define the key encoding and the order of values, `KeyOrder` the small algebra by which
encodings of parts compose (an encoding *shows* an order when no suffix can change it), `KeySkipper` the
skipper, `CompoundKeys` compound keys and the unique-prefix range, `KeyCodec` the appending and skipping loops.

**MVCC.** `VersionChains` and `Snapshots` relate version chains to the history of all writes and prove
that readers see snapshots in every interleaving. `Pins` is overflow reference counting with forced expiry, `Seqlock`
the 96-bit timestamp cell, `Clock` the timestamp oracle, `Registry` and `DeferredFree` the read-view registry and the
page-lifetime queue.

**Queries.** `Calendar` is the civil-date conversion, against a calendar counted year by year and month by month.
`Filter` and `Planner` are filter evaluation and plan selection, `IndexRows` the keys that an index stores for a document,
`IndexBounds` the byte ranges of a scan and which matching documents it finds, `Accumulators` and `Group` the `$group` stage.

## What was found

Some statements that the source makes or relies on do not hold as they stand. Each has a lemma with the failing case and,
where named, one with the exact condition.

- Right after open everything below the resume LSN counts as durable, and a journal that recovery neither resets nor cuts
  has not been synced: an Ok comes back for bytes that a power cut takes: `Reopen.OkCanBeLost`, exactly when:
  `Reopen.ReopenDurableIff`.
- Batch ids can repeat after a torn checkpoint, and then the old frame is released by the new boundary:
  `RecoveryCut.TornFrameReleased`, exactly when: `RecoveryCut.NextBatchCollidesIff`.
- A drained frame behind its own boundary and an orphan is cut off the log: `RecoveryCut.DrainedFrameCanBeCut`,
  exactly when: `RecoveryCut.SurvivesIff`.
- A persisted frontier can lie above the resume LSN: `RecoveryCut.StraddledFrontierIsAbove`, exactly when:
  `RecoveryCut.FrontierBelowResumeIff`.
- The recovered clock can stay behind the checkpoint timestamp that is persisted: `RecoveryCut.CatalogHeaderAhead`, exactly
  when: `RecoveryCut.RecoveredTsCoversHeaderIff`.
- Recovering twice can set a page back: `RecoveryAgain.RecoveringTwiceCanRewind`, exactly when, for a journal about to be reset:
  `RecoveryAgain.RecoveringTwiceIff`, and for any other: `RecoveryAgain.RecoveringAgainIff`. With the frontier at
  most the header size it cannot: `RecoveryAgain.RecoveringTwice`.
- Distinct doubles can share a key: `NumberKeys.TiedFloats`, exactly when: `NumberKeys.FloatOrder`.
- Values outside the well-formed ones can share a key: `KeySkipper.KeyCollision`; well-formed ones cannot unless they compare
  equal: `Keys.KeysCompareAsValues`, which is one way only. The skipper has its exact condition: `KeySkipper.SkipExactIff`.
- A bare regular expression on the planned field loses matches: `Planner.ExtractionSafeIff`.
- An index scan passes over matching documents: a two-sided range over an array whose elements meet the two sides apart
  (`IndexBounds.TwoSidedRangeMisses`), an array that is equal as a whole and one that exists but is empty
  (`IndexBounds.WholeArrayMisses`), and documents a sparse index has no key for. Exactly which: `IndexBounds.MatchVisitedIff`,
  and for the chosen plan `IndexBounds.PlannedScanIff`. A lookup by `_id` has its own condition: `IndexBounds.PrimaryFetchIff`.
- Index and filter read different values for a path that ends in a position of an array, exactly then: `IndexRows.PathsAgreeIff`.

## Model

| member | source | states |
|---|---|---|
| `Bytes.WriteAtJoins` | src/journal/log_manager.rs:168-186 | a positioned write done in pieces leaves the file as one write of the whole |
| `LogSlots.LogManager.WriteAllAt` | src/journal/log_manager.rs:168-186 | partial writes end in the whole write or an error with some first part written |
| `LogSlots.LogManager.ReserveSlot` | src/journal/log_manager.rs:446-488 | a reservation starts at the old next LSN, and only while not poisoned and within 64 bits |
| `LogSlots.LogManager.WriteReserved` | src/journal/log_manager.rs:490-540 | bytes of the reserved length reach the reserved range; any failure poisons |
| `LogSlots.LogManager.MarkSlotWritten` | src/journal/log_manager.rs:542-576 | marking moves the ready frontier over every contiguous written slot |
| `LogSlots.LogManager.PoisonWith` | src/journal/log_manager.rs:809-833 | poisoning records the failure and gives up fsync leadership |
| `LogSlots.AdvanceTiled` | src/journal/log_manager.rs:552-571 | advancing keeps the slots tiling from ready to next and stops at a slot that is not written |
| `GroupCommitRuns.StepInv` | src/journal/log_manager.rs:446-727 | every atomic step of writers, leaders and followers keeps the invariant and moves no frontier back |
| `GroupCommitRuns.RunInv` | src/journal/log_manager.rs:446-727 | over every run ready and durable never decrease and ready never moves after a poison |
| `GroupCommitRuns.ReadyCatchesUp` | src/journal/log_manager.rs:446-576 | slots tile exactly the range from ready to next, the slot at ready is not written, and completion in any order ends with ready equal to next |
| `GroupCommitRuns.ReservedHasOwner` | src/journal/log_manager.rs:335-361 | each slot still reserved has a live unresolved handle, or one whose failure poisoned the manager |
| `GroupCommitRuns.OneThreadSyncs` | src/journal/log_manager.rs:614-727 | although poisoning clears the leader flag, at most one thread is past closing its sync target |
| `GroupCommitRuns.SyncedSurvives` | src/journal/log_manager.rs:614-685 | after `ensure_sync(t)` returned Ok every byte below `t` survives every later power cut |
| `GroupCommitRuns.SeedReturnsAtOnce` | src/journal/log_manager.rs:425-440 | right after open `ensure_sync` of the resume LSN returns Ok with nothing synced since |
| `GroupCommitRuns.DurableIff` | src/journal/log_manager.rs:425-440 | no run from open returns an Ok for bytes that a power cut can take, exactly when the medium had all bytes below the seed |
| `JournalScan.ReadAcceptedRecords` | src/journal/recovery.rs:410-437 | the scan loop returns exactly the accepted records and the cursor behind them |
| `JournalScan.ReadAt` | src/journal/recovery.rs:736-796 | a record is taken only if it lies completely between the cursor and the end of the file |
| `CrashSafety.DurableRecordsSurvive` | src/journal/recovery.rs:410-437 | after any run and any power cut the records at or below the durable frontier are accepted unchanged and in LSN order |
| `CrashSafety.CrashAcceptsPrefix` | src/journal/recovery.rs:758-796 | with an ideal checksum the scan reports no corruption and accepts exactly a first part of the issued records that has all durable ones |
| `CrashSafety.ReadsBack` | src/journal/recovery.rs:736-796 | a completely written record is read back as the record its writer encoded |
| `RecoverySpec.ScanLaid` | src/journal/recovery.rs:410-437 | accepted records lie side by side from the header to the cursor and all passed inner validation |
| `Recovery.CollectBoundaries` | src/journal/recovery.rs:446-490 | largest batch id, batch by start, largest timestamp and latest header above the frontier; an error exactly when a boundary is undecodable or timestamps regress |
| `Recovery.PartitionFrames` | src/journal/recovery.rs:500-537 | per batch with a boundary its frames in log order, and the lowest start of an orphan frame |
| `Recovery.ScanState.ApplyCommits` | src/journal/recovery.rs:550-637 | commits replayed in publication order write the catalogs' pages and raised headers; an error exactly on a repeated publish number or an undecodable catalog |
| `Recovery.ScanState.AddFrame` | src/journal/recovery.rs:597-606 | a logical frame is kept unless its timestamp was seen |
| `Recovery.ScanState.DrainBatches` | src/journal/recovery.rs:649-680 | each batch's frames are written once, at its first boundary above the frontier |
| `Recovery.ScanState.FinalizeHeader` | src/journal/recovery.rs:693-734 | truncatable exactly with a boundary above the frontier and no CRUD record; the boundary's header is written last, raised, its frontier rewound on truncation |
| `Recovery.RecoverJournal` | src/journal/recovery.rs:230-402 | image, header, journal, resume LSN, frames, clock, next batch id and whether the journal was fsynced are those of the specification, an error exactly when the log is not in order |
| `Recovery.ImageInOrder` | src/journal/recovery.rs:346-381 | the image is catalogs, then frames, then the boundary's header |
| `RecoveryImage.ReplayOrder` | src/journal/recovery.rs:557-580 | replayed are exactly the commits above the frontier, in strictly increasing publish order |
| `RecoveryImage.FramesByTimestamp` | src/journal/recovery.rs:597-606 | one logical frame per commit timestamp, and one for every replayed CRUD commit |
| `RecoveryImage.FramesFirstWin` | src/journal/recovery.rs:597-606 | each logical frame is that of the first publication with its timestamp |
| `RecoveryImage.OnlyCompletedBatches` | src/journal/recovery.rs:500-680 | a frame's page is written exactly when its batch has a boundary above the frontier; frames of unfinished batches never appear |
| `RecoveryAgain.RecoveringTwiceIff` | src/journal/recovery.rs:256-294 | recovering a truncatable journal again succeeds and changes no main file and no header exactly when all its commits are in order, none carries a later checkpoint timestamp, and every page byte of the whole log is the last one written above the old frontier |
| `RecoveryAgain.RecoveringAgainIff` | src/journal/recovery.rs:230-402 | from any part of the log left behind, a second recovery changes no main file exactly when every page byte it writes was left by the first and a header it writes encodes as the one there |
| `RecoveryAgain.AcceptedAgain` | src/journal/recovery.rs:230-402 | whatever is left of a log that was in order and not reset is in order for the second recovery |
| `RecoveryAgain.RecoveringTwiceCanRewind` | src/journal/recovery.rs:715-731 | with a frontier inside an accepted truncatable log a second recovery can write an old page image |
| `RecoveryCut.CutOnBoundary` | src/journal/recovery.rs:384-394 | the cut is a record boundary at or below the scan's cursor |
| `RecoveryCut.KeptEndIsMax` | src/journal/recovery.rs:222-226 | the kept mark is the largest end of a replayed commit or drained boundary |
| `RecoveryCut.SurvivesIff` | src/journal/recovery.rs:256-394 | a record is left exactly when the journal is not reset and no orphan is up to it or a kept record is at or after it, so a cut spares every kept record |
| `RecoveryCut.CutRescans` | src/journal/recovery.rs:928-938 | the journal left, reset or cut, ends at the resume LSN, and a new scan of it accepts exactly the records that end at or below it |
| `RecoveryCut.DrainedFrameCanBeCut` | src/journal/recovery.rs:649-680 | in a log that is in order and not reset, a drained frame that follows its boundary and an orphan is not in the journal that is left |
| `RecoveryCut.FrontierBelowResumeIff` | src/journal/recovery.rs:256-294 | the persisted frontier is at most the resume LSN exactly when the log is reset, a record is kept, or the incoming frontier is in the log and no orphan straddles it |
| `RecoveryCut.StraddledFrontierIsAbove` | src/journal/recovery.rs:384-394 | a frontier strictly inside an orphan ends above the resume LSN |
| `RecoveryCut.RecoveredTsCovers` | src/journal/recovery.rs:205-220 | the recovered clock is at least every replayed commit's, every boundary's and the header's timestamp |
| `RecoveryCut.RecoveredTsCoversHeaderIff` | src/journal/recovery.rs:618-628 | it covers the header that is persisted exactly when it covers every replayed catalog's header |
| `RecoveryCut.CatalogHeaderAhead` | src/journal/recovery.rs:618-628 | in a log that is in order a catalog's header can carry a later timestamp than the recovered clock |
| `RecoveryCut.LatestIsBoundary` | src/journal/recovery.rs:482-487 | the header persisted is the last boundary's above the frontier, and absent exactly when there is none |
| `RecoveryCut.HeaderIsLastCatalog` | src/journal/recovery.rs:621-632 | apart from timestamp and frontier the working header is the last replayed catalog's |
| `RecoveryCut.MaxSeqIsMax` | src/journal/recovery.rs:586-592 | the recovered publish number is the largest replayed |
| `RecoveryCut.NextBatchCollidesIff` | src/journal/recovery.rs:297-299 | the next batch id exceeds all boundaries', and meets a frame left in the journal exactly when the journal is not reset and an orphan with that id lies below a kept record |
| `RecoveryCut.TornFrameReleased` | src/journal/recovery.rs:297-299 | a torn checkpoint's frame can be drained by the boundary of a later batch with the same id |
| `MainFile.WriteAllByte` | src/journal/mod.rs:596-609 | after page writes each byte is that of the last write covering it, or the old one |
| `MainFile.HarmlessIff` | src/journal/mod.rs:596-609 | further page writes change no file exactly when every byte they leave was left by the writes before |
| `Reopen.ReopenedIsInit` | src/journal/recovery.rs:294-316 | what recovery hands to a fresh log manager is a state that the group-commit protocol starts from |
| `Reopen.ReopenDurableIff` | src/journal/recovery.rs:256-294 | on every medium and in every run an Ok holds after open, exactly when recovery reset the journal, cut a tail off or left no record |
| `Reopen.OkCanBeLost` | src/journal/recovery.rs:928-938 | a whole journal of one commit is not synced by recovery and an Ok for it can be lost |
| `KeyOrder.ShowsThen` | src/keys/mod.rs:288-393 | encodings put one behind the other show the lexicographic order of their parts |
| `KeyOrder.ShowsInverted` | src/keys/mod.rs:135-141 | inverting every byte reverses the order shown |
| `NumberKeys.FloatOrder` | src/keys/mod.rs:411-462 | for doubles in order the keys are in order or equal, and equal exactly on tied pairs, through saturation and truncated fractions |
| `NumberKeys.MixedOrder` | src/keys/mod.rs:411-486 | an integer against any double orders strictly, and equal values have equal keys |
| `NumberKeys.IntegerKey` | src/keys/mod.rs:465-486 | an integer and the double of the same value have the same key |
| `NumberKeys.IntegerOrder` | src/keys/mod.rs:465-486 | integers order as numbers, also where doubles have no room for them |
| `NumberKeys.NumberKeysCompare` | src/keys/mod.rs:411-486 | keys of integers and doubles in any mix compare as the numbers, and are equal only for equal numbers and tied doubles |
| `NumberKeys.TiedFloats` | src/keys/mod.rs:411-462 | two distinct doubles have the same key |
| `Keys.EncodingShows` | src/keys/mod.rs:288-393 | for well-formed values of any depth the encodings show the order of the values |
| `Keys.KeysCompareAsValues` | src/keys/mod.rs:102-107 | byte comparison of keys is the order of values: type rank, then value, documents field by field on name then value |
| `Keys.KeysArePrefixFree` | src/keys/mod.rs:288-393 | no well-formed key is a proper prefix of another, plain or inverted |
| `Keys.TextShows` | src/keys/mod.rs:521-545 | escaping of zero and one bytes keeps the order of strings |
| `KeyCodec.AppendValue` | src/keys/mod.rs:288-393 | the recursive encoder appends exactly the value's encoding |
| `KeyCodec.AppendText` | src/keys/mod.rs:521-545 | the escaping loop appends exactly the escaped text and its end mark |
| `KeyCodec.AppendFields` | src/keys/mod.rs:547-557 | the document loop appends all fields and the end mark |
| `KeyCodec.AppendItems` | src/keys/mod.rs:559-568 | the array loop appends all elements, each closed, and the end mark |
| `KeyCodec.SkipEncodedValue` | src/keys/mod.rs:196-219 | skipping on stored bytes in either direction is skipping on the plain bytes, errors included |
| `KeyCodec.SkipEncodedText` | src/keys/mod.rs:234-242 | the text loop stops behind the first zero byte or fails |
| `KeyCodec.SkipEncodedDocument` | src/keys/mod.rs:244-252 | the document loop skips names and values up to the end mark |
| `KeyCodec.SkipEncodedArray` | src/keys/mod.rs:254-267 | the array loop skips closed elements up to the end mark |
| `KeyCodec.SkipEncodedBinary` | src/keys/mod.rs:269-282 | the length is read big-endian and the data skipped, within the bytes |
| `KeySkipper.SkipValue` | src/keys/mod.rs:196-219 | on arbitrary bytes skipping ends past its start and within the bytes, or fails |
| `KeySkipper.SkipsValue` | src/keys/mod.rs:196-282 | on a well-formed value's encoding, whatever follows, the skipper stops exactly at its end |
| `KeySkipper.SkipExactIff` | src/keys/mod.rs:196-282 | for well-formed children the skipper is right for all suffixes exactly when the node has no empty name, no `MinKey` element, no oversized binary and is no `DbPointer` |
| `KeySkipper.KeyCollision` | src/keys/mod.rs:547-568 | two different arrays outside the well-formed values share one key |
| `CompoundKeys.CompoundKeysCompare` | src/keys/mod.rs:127-146 | byte order of compound keys is field-by-field order, reversed on descending fields |
| `CompoundKeys.EncodeCompoundKey` | src/keys/mod.rs:127-146 | the loop joins the fields' encodings with separators, inverting descending ones |
| `CompoundKeys.EndsWhereEncoded` | src/keys/mod.rs:154-166 | the skipper retraces the encoder over any number of fields in either direction |
| `CompoundKeys.CompoundPrefixRange` | src/keys/mod.rs:154-174 | the loop finds the separator before the trailing id, or fails |
| `CompoundKeys.PrefixRangeIsExact` | src/keys/mod.rs:154-174 | the range from one row contains another row's key exactly when all indexed fields are equal |
| `IndexRows.BuildIndexKeys` | src/storage/secondary_index.rs:115-185 | the loops build one key per element of the one array field, one key without arrays, none where a sparse index lacks a field, and fail exactly on two arrays |
| `IndexRows.KeysLead` | src/storage/secondary_index.rs:151-185 | a stored document's keys start with its leading values, each of them, and any other document has no keys |
| `IndexRows.PathsAgreeIff` | src/query/filter/util.rs:25-47 | filter and index read the same value of a document exactly when the path does not end in a position of an array |
| `IndexBounds.BoundsExact` | src/storage/paged_engine/index_read_helpers.rs:50-99 | a key is visited exactly when its leading value is within the limits used |
| `IndexBounds.VisitedIff` | src/storage/paged_engine/snapshot_ops/read_exec.rs:395-428 | any document is found exactly when it has keys and one leading value alone is within the limits |
| `IndexBounds.MatchVisitedIff` | src/storage/paged_engine/snapshot_ops/read_exec.rs:395-428 | a document that passes the condition is found exactly when it has keys and, for an array, one element does for the whole condition, one side of a range sufficing |
| `IndexBounds.PlannedScanIff` | src/query/planner.rs:134-160 | the same for the plan chosen for a filter and every document that the filter matches, which also matches the partial filter |
| `IndexBounds.PrimaryFetchIff` | src/storage/paged_engine/snapshot_ops/read_exec.rs:266-301 | a document that passes is fetched by `_id` exactly when its `_id` is no array or is equal as a whole |
| `IndexBounds.TwoSidedRangeMisses` | src/query/filter/operators.rs:66-84 | an array with one element below and one above a two-sided range passes the condition and is not found |
| `IndexBounds.WholeArrayMisses` | src/query/filter/operators.rs:44-53 | an array without nested arrays passes equality with itself and is not found, and an empty one passes `$exists` and is not found |
| `VersionChains.ReadsLatest` | src/mvcc/chain_snapshot.rs:281-296 | between horizon and frontier the first visible entry is the newest live write at or before the reader's timestamp |
| `VersionChains.ReadsOwnWrite` | src/mvcc/chain_snapshot.rs:284-286 | a transaction sees its own pending write |
| `VersionChains.InstallCouples` | src/storage/paged_engine/pending_install.rs:236-254 | an install over a settled head ends the head's time and keeps chain and history coupled |
| `VersionChains.SettledHead` | src/storage/paged_engine/pending_install.rs:65-111 | the conflict check leaves nothing pending below a new version |
| `VersionChains.AbortCouples` | src/storage/buffer_pool/latched_page.rs:509-558 | an abort takes the write out of the history and makes the one before it live again |
| `VersionChains.CommitCouples` | src/storage/buffer_pool/latched_page.rs:509-546 | flipping to committed changes nothing but the state |
| `VersionChains.PruneCouples` | src/storage/buffer_pool/partition.rs:568-593 | a reclaim loses only aborted writes and writes replaced at or below the floor |
| `VersionChains.PruneVisibleIff` | src/storage/buffer_pool/partition.rs:576-585 | a reclaim changes what a reader sees exactly when the entry it sees ended at or below the floor |
| `VersionChains.SeenEndsIff` | src/storage/buffer_pool/partition.rs:576-585 | the entry a reader sees is dropped exactly when a live write that follows the reader is not above the floor |
| `Snapshots.StepInv` | src/mvcc/read_view.rs:277-327 | installs, flips, frontier and epoch advances, registration, refinement and reclaims keep the invariant |
| `Snapshots.FloorIsSafe` | src/mvcc/registry.rs:148-154 | the reclaim floor is at or below every loaded read timestamp, conservative slots included |
| `Snapshots.SnapshotIsLatestWrite` | src/mvcc/chain_snapshot.rs:162-166 | in every reachable state every view reads, for every key, the newest live write at or before its timestamp out of all ever installed |
| `Snapshots.RepeatableSnapshot` | src/mvcc/chain_snapshot.rs:162-166 | a view finds the same version of every key after any run while it is open |
| `Snapshots.UnregisteredLosesIff` | src/storage/paged_engine/snapshot_ops/read_exec.rs:78-130 | in every reachable state a reclaim at any floor takes the version of an unregistered reader exactly when it sees one and a later live write is not above the floor; at the floor of an empty registry, when there is a later live write at all |
| `Registry.ReadViewRegistry.Register` | src/mvcc/registry.rs:61-66 | the slot is inserted or overwritten |
| `Registry.ReadViewRegistry.AttachAndRefine` | src/mvcc/registry.rs:119-137 | a present slot is raised, an absent one stays absent |
| `Registry.ReadViewRegistry.Unregister` | src/mvcc/registry.rs:141-146 | the slot is removed |
| `Registry.ReadViewRegistry.OldestRequired` | src/mvcc/registry.rs:148-154 | the fold gives the smallest slot, the maximum when there is none |
| `Pins.CountsAreHandles` | src/mvcc/version.rs:49-152 | in every interleaving a page's count is its number of handles, half-built clones included, and a page waiting to be freed has none and waits once |
| `Pins.WaitsAtZero` | src/mvcc/version.rs:144-152 | a page starts to wait exactly by the step that drops its last handle |
| `Pins.ZeroStaysZero` | src/mvcc/version.rs:98-142 | no clone brings a count back from zero |
| `Pins.ExpiryDrainsPins` | src/mvcc/read_view.rs:390-433 | when forced expiry returns no construction of that view is between pin and unpin |
| `Pins.PoisonedSnapshotIsEmpty` | src/mvcc/chain_snapshot.rs:71-111 | a construction whose re-check follows the poison store never becomes a snapshot, and when it is over every page's count is that of the others' handles |
| `Pins.PreCheckIsNotEnough` | src/mvcc/chain_snapshot.rs:78-90 | from every initial state there is a run in which a construction pins and clones after forced expiry has returned |
| `Clock.Successor` | src/mvcc/timestamp.rs:59-75 | the least greater timestamp, none exactly for the largest |
| `Clock.Tick` | src/mvcc/timestamp.rs:302-321 | a commit issues the least timestamp above the clock that is not behind the wall clock, and fails only when the millisecond has none left |
| `Clock.TimestampOracle.Commit` | src/mvcc/timestamp.rs:302-321 | the clock follows the wall or counts up, and fails only when exhausted |
| `Clock.TimestampOracle.SetMin` | src/mvcc/timestamp.rs:349-360 | the clock is raised to the floor and never lowered |
| `Clock.IssuedIncrease` | src/mvcc/timestamp.rs:302-360 | issued timestamps strictly increase for any sequence of wall clock readings and floors |
| `Clock.ClockAfterRecovery` | src/storage/paged_engine/state.rs:511-530 | after recovery every issued timestamp exceeds each replayed commit's, boundary's and the header's |
| `Seqlock.LoadIsAtomic` | src/mvcc/timestamp.rs:151-204 | every load returns one whole stored value that was current during the load, unless the 64-bit version wraps within it |
| `Seqlock.StepInv` | src/mvcc/timestamp.rs:167-204 | every atomic step of the writer and of any reader keeps the invariant |
| `DeferredFree.PageLifetimeQueue.PushEntry` | src/mvcc/deferred_free.rs:196-205 | the entry goes to the segment of its kind |
| `DeferredFree.PageLifetimeQueue.TakeEligible` | src/mvcc/deferred_free.rs:217-234 | exactly the overflow entries with an older fence leave, in order |
| `DeferredFree.PageLifetimeQueue.TakeEligibleRetired` | src/mvcc/deferred_free.rs:255-285 | exactly the retired entries with an older fence and no view below their reader fence leave; none without a registry |
| `DeferredFree.EventConserves` | src/mvcc/deferred_free.rs:196-285 | an event neither loses nor invents an entry, and all copies leave exactly when they are due |
| `DeferredFree.RunConserves` | src/mvcc/deferred_free.rs:196-285 | over every run entries pushed are those queued and those drained, and a drained entry was due at some event |
| `Calendar.CivilFromDays` | src/query/expr.rs:1784-1794 | for every integer day the date is a date of the proleptic Gregorian calendar and counts back to that day |
| `Calendar.DaysFromCivilCounts` | src/query/expr.rs:1819-1829 | the closed formula counts days as the calendar does, year by year and month by month |
| `Calendar.EveryDateOnce` | src/query/expr.rs:1771-1829 | every date belongs to exactly the day counted for it |
| `Calendar.CivilSteps` | src/query/expr.rs:1784-1794 | the day after any day has the next date |
| `Calendar.EpochDate` | src/query/expr.rs:1784-1794 | day zero, and no other, is 1970-01-01 |
| `Calendar.MillisFields` | src/query/expr.rs:1771-1815 | time fields are in range and recompose the milliseconds also before the epoch; the day of the year is the ordinal date |
| `Calendar.WeekdaySteps` | src/query/expr.rs:1796-1800 | weekdays advance by one modulo seven from a Thursday epoch |
| `Planner.PlanFindsMatches` | src/query/planner.rs:134-179 | every document matched by the filter meets the chosen plan's condition and the chosen partial index's filter, unless the planned field's condition is a bare regular expression |
| `Planner.OperatorsPass` | src/query/planner.rs:349-397 | a matched operator document passes the condition extracted from it |
| `Planner.FirstEligibleIndex` | src/query/planner.rs:139-160 | the first eligible index is taken, and a collection scan exactly when there is none |
| `Planner.PfeMatches` | src/query/planner.rs:172-179 | a document matched by a covering filter matches the partial filter |
| `Planner.ExtractionSafeIff` | src/query/planner.rs:337-346 | extraction is safe for all field values exactly when the condition is not a bare regular expression |
| `Planner.EveryPairMatches` | src/query/filter.rs:79-92 | a matched filter matches by each of its conditions |
| `Planner.OpMatches` | src/query/filter.rs:215-247 | a matched operator document matches by each of its operators |
| `Planner.PairsMatchIff` | src/query/filter.rs:79-92 | a filter matches exactly when each of its conditions does |
| `Planner.AndMatchIff` | src/query/filter.rs:140-149 | `$and` matches exactly when all its filters do |
| `Planner.OrMatchIff` | src/query/filter.rs:151-164 | `$or` matches exactly when one filter does before any fails |
| `Planner.NorNegatesOr` | src/query/filter.rs:151-178 | `$nor` is the negation of `$or`, errors included |
| `Planner.PairsJoin` | src/query/filter.rs:79-92 | joined conditions match as both filters, the first one first |
| `Accumulators.FoldPicks` | src/query/aggregate.rs:1159-1171 | `$first` is the first present value, `$last` the last value even if missing, `$push` the present values |
| `Accumulators.FoldWindow` | src/query/aggregate.rs:1205-1221 | `$firstN` and `$lastN` are the first and last n present values |
| `Accumulators.FoldExtremes` | src/query/aggregate.rs:1309-1323 | `$min` and `$max` are the first extreme by key order of the values neither missing nor null |
| `Accumulators.FoldSet` | src/query/aggregate.rs:1172-1180 | `$addToSet` has one value per key in order of first occurrence |
| `Accumulators.FoldSums` | src/query/aggregate.rs:1048-1079 | `$sum` is the exact total, an integer exactly while no double came and no prefix overflowed |
| `Accumulators.FoldMerges` | src/query/aggregate.rs:1181-1192 | `$mergeObjects` fails exactly on a non-object, and else each name has its latest value |
| `Accumulators.FoldCandidates` | src/query/aggregate.rs:1222-1229 | `$minN` and `$maxN` collect the values neither missing nor null with their keys |
| `Accumulators.NExtremes` | src/query/aggregate.rs:1288-1302 | the n results are sorted and no other candidate comes before any of them |
| `Group.RunGroup` | src/query/aggregate.rs:1339-1380 | one pass gives one group per distinct key with accumulators that fold exactly that key's rows; an error exactly when a row has one |
| `Group.CountsSum` | src/query/aggregate.rs:1345-1375 | group counts sum to the number of rows |
| `Group.KeysDistinct` | src/query/aggregate.rs:1354-1367 | no two groups have the same key |
| `Group.FirstSeenOrder` | src/query/aggregate.rs:1354-1367 | groups stand in the order in which their keys occur first |
| `Group.ArgsCount` | src/query/aggregate.rs:1369-1373 | an accumulator sees one value per row of its group |

## Left out

- Files, locks, symlinks, permissions and backup copying; the main file and the journal are byte strings.
- CRC-32C, BSON and the wire layout of records: the codec is a function parameter, and that only completely written
  records pass its checksum is a hypothesis of `CrashSafety.CrashAcceptsPrefix` alone.
- The file header's own codec: the header read back is taken to be the header written.
- `LogManager::reset_to`, which only tests reach with live slots; a handle is resolved at most once.
- Memory ordering weaker than sequential consistency, condition-variable timing, spin budgets and group-commit delays.
- A crash in the middle of writing the main file; a crash between that and the reset or the cut, or after it, is modelled. The flush flag.
- The history store, the B+ tree, the buffer pool, reconciliation and the publish sequencer; commit timestamps above the
  frontier, aborts only above it and a monotone frontier are conditions of the steps in `Snapshots`.
- Installs on secondary-index chains without an expected head, which skip the conflict check on pending heads.
- `ChainSnapshot::visible_range` and the history-candidate scan: pointwise uses of the visibility rule that is modelled.
- A panic of `OverflowRef::clone` at a count of 2^32 - 1: such a clone is not enabled in `Pins`.
- `Decimal128` keys go through a parsed double; only the double is modelled.
- Update in place of accumulators and of version chains: their states are values that each operation replaces.
- The recovered page count and the journal's checkpoint sequence number.
- Floating-point rounding in `$sum`; `$avg` and the standard deviations; assembling the output document of a group.
- Hinted plans, `$expr`, regular expressions, numerals in paths and the simple leaf operators of filters: function parameters or
  absent. `Filter` takes path lookup as a parameter; `IndexRows` has both lookups.
- `JournalManager::reserve_log_record_on`, batch cursors and other wrappers of the operations above.
- FrontierBelowResumeIff: assumes that replayed catalogs, like the boundaries the scan lets through, claim no frontier beyond their own end.
- RecoveringTwiceIff: assumes, as do the other members of `RecoveryAgain`, that every encoded header has the header page's size.
- MatchVisitedIff: assumes well-formed leading values and limits, outside of which different values can share a key.
- PlannedScanIff: assumes that index and filter read the same value; `PathsAgreeIff` says when they do.
- PfeMatches: conditions are equal when their model values are; a partial filter with NaN in it covers nothing in the source.
- FoldSums: doubles are exact reals; the source adds with rounding and its totals can differ in the last place.
- LoadIsAtomic: does not exclude a load during which 2^63 stores wrap the version counter.
- PrefixRangeIsExact: states nothing for an index without fields, where the source always fails.
