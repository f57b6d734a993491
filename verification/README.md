# Verified model of the code-system-graph caches, worklists and protocols

`code-system-graph` builds a federated code graph incrementally, from concurrent watchers and
supervised workers. Between its parsers, its SQL store and the operating system lies a set of caches,
worklists and small protocols, each of which has to agree with a much simpler specification. This
project models that layer in Dafny and proves the agreement. `dafny verify dfyconfig.toml` checks it.

The modules, by group:

- **Incremental extraction.** `Basics` (text, limits, sorting), `Artifacts` (fingerprints, key order),
  `Extractors` (documents and the batch codec), `FailureFence` (the parallel stage as interleaved
  steps), `FocusedExtraction` (reuse, planning, one job, the cold reference), `ExtractionContents` (what
  extraction keeps and drops), `FocusedAssembly` (the
  claim-once merge), `WarmScans` (warm against cold, for one scan), `ScanHistories` (any history of
  scans), `DifferingScans` (inputs on which they differ), `Degradations`, `StatCache` (the file-stat
  cache against a file system with timed writes), `Discovery`, `ArtifactDelta`, `ArtifactStore` (plan,
  delta and publication), `PublicationHistory` (histories over the published tables),
  `SnapshotIdentity` (the hashed byte stream), `SnapshotReuse` (the early return), `CheckpointCache` (the bounded memo).
- **Watching.** `WatchPipeline` and `WatchLoop` (changes from callback to pass, with worker
  replacement), `WatchScopes` (the watched scope and new directories), `WatchPasses` (what a pass goes
  back to), `WatchWitnesses` (concrete runs), `WatchRoots` (what is watched), `WatcherLease`.
- **Graph.** `RepositoryOwnership` (the containment worklist against reachability).
- **Supervision and serving.** `WorkerProgress`, `ProcessTree`, `PresentationCache`, `RateLimiter`,
  `ChunkedReaders`.
- **Byte fitting.** `MarkdownFitting`, `SchemaCatalog`, `MarkdownContents` (what the fitted text says and holds).

Concurrent code is a state machine whose steps are its atomic operations and critical sections; the
results hold for every run, that is every interleaving. Objects updated in place are classes, loops are
methods proved against functions or predicates of their inputs. The parsers, the JSON codec, the content
hash and the cache-key hash are uninterpreted functions; that the codec inverts itself and that hashes do
not collide are stated as hypotheses where they are used. Strings are byte sequences, 64-bit bounds and
saturation are written out where the code depends on them.

## Findings

Where the code does not do what its shortest description says, the model follows the code:

- The checkout to read from is found by repository id
  (`crates/code-system-graph-cli/src/focused_extraction.rs:132-143`), and linked worktrees and clones of
  one remote share that id. An artifact of the earlier alias is read from the later alias's checkout: the
  scan fails if the file is missing there, and otherwise stores the other content under the artifact's
  hash (`LinkedWorktreeReadsTheOther`). A plan reads all its artifacts in their own checkout if and only if
  each artifact to extract finds it by repository id (`PlanReadsOwnCheckoutsIff`), as with one checkout
  per repository id (`OneCheckoutPerRepository`).
- Extraction reads a file again and does not check the hash
  (`crates/code-system-graph-cli/src/focused_extraction.rs:446-499`). A write between fingerprinting and
  that read stores a batch of other content under the old hash, which a later scan uses again when the
  file is back (`EditedBeforeTheRead`). A scan is the cold one if and only if every reuse and every read is
  sound (`WarmEqualsCold`); still files in their own checkout are enough for the reads
  (`StillTreeReadsSoundly`).
- Extraction of a Rust `data.source` file that mentions a database crate depends on the nearest
  `Cargo.toml` (`crates/code-system-graph-cli/src/focused_extraction.rs:641-649`), but reuse does not ask
  for it. After a `Cargo.toml` moved, the old batch is used again (`MovedCrateRoot`).
- A fingerprint's size comes from the stat and its hash from the later read
  (`crates/code-system-graph-cli/src/fingerprint.rs:221-283`), and only the hash tells a change. A write
  in between records a stale size, which stays in the reused batch and in the published row
  (`StaleSize`, `StaleSizeStaysPublished`). At an unchanged crate root reuse is sound, and with agreeing
  displays publication is exact, if and only if sizes agree (`SameRootLeavesTheSize`,
  `FingerprintPublicationIsExact`).
- Reuse drops a batch that has no outputs and is not a fact-free source scan
  (`crates/code-system-graph-cli/src/focused_extraction.rs:391-396`), so the typed outputs of a warm and
  a cold scan differ exactly there. Batches, errors and degradations are the same
  (`OutputsEqualUnlessEmptyBatchReused`, `SourceFileWithoutObservations`).
- Publication upserts first and deletes last, with a row key that leaves out the display path
  (`crates/code-system-graph-store-sqlite/src/publication.rs:651-690`), while the plan's key includes it.
  This is harmless only because a display is computed from the very bytes in the row key
  (`NativeDisplaysAgree`); for an artifact whose display alone changed, the row would be written and then
  deleted (`DisagreeingPublication`).
- The early return for an unchanged snapshot id reports the extraction degradations of the scan it replaces
  (`EarlyReturnReportsTheScan`), but not the graph and corroboration degradations that scan would add
  (`crates/code-system-graph-cli/src/lib.rs:1478-1510` against `1676-1682`).
- A scope refresh whose reload fails after the pass is dropped (`FailedReloadForgetsRefresh`); this is the
  only way to lose one (`QuietMeansCaughtUp`).
- A replacement worker loads the watch scope for itself
  (`crates/code-system-graph-cli/src/sync_watch.rs:1007-1024`), after the main loop has loaded it. So a quiet
  watcher watches the scope of the last successful reload if and only if the last worker spawned loaded
  the same one (`QuietWatchesTheLastReload`, `ReplacementWatchesItsOwnLoad`).
- A wake-up whose changes an earlier one has already taken is sent on with no aliases, which the reader takes for
  the whole workspace (`crates/code-system-graph-cli/src/sync_watch.rs:743-768`): the pass is then not
  targeted although every event was (`LateWakeWidens`). An untargeted pass always goes back to such an empty take, at
  the worker or at the main loop, to an alias list too long for the protocol, to a refresh request or to a
  workspace event (`PassesAreTold`).
- A checkpoint over the quota is skipped and an older batch of its key stays; the count a put returns is
  taken before eviction (`Cache.Put`, `OversizedPutKeepsOlderBatch`).
- A progress total that overflows is written as the 64-bit maximum while the counter keeps its value
  (`AcceptedCountIsExactUnlessOverflow`); reports that fit 64 bits are counted exactly
  (`AcceptedCountIsTheSum`).
- `add_watch_entry` alone can leave nested recursive entries; the sort on loading prevents it
  (`AddRootIsExact`, `UnsortedRootsNest`).
- The nested catalog always prints header and preamble, so its bound holds if and only if these fit
  (`RenderNested`).
- A partial scan equals a full one if and only if no artifact of an unselected alias carries a selected
  repository id (`PartialScanEqualsFullScan`).
- The racy window suffices for stamps up to two seconds coarse and for no coarser ones (`StatHitIsCurrent`,
  `CoarserStampsBreakTheCache`).
- When a protocol line is too long, the length named in the error depends on the buffering; whether there
  is an error does not (`ReadBoundedLine`).

## Model

| member | source | states |
|---|---|---|
| Artifacts.KeyTotal | crates/code-system-graph-cli/src/focused_extraction.rs:69-76 | The artifact key order compares equal exactly on equal keys and is antisymmetric |
| Artifacts.KeyTransitive | crates/code-system-graph-cli/src/focused_extraction.rs:69-76 | The artifact key order is transitive, also in its strict form |
| Basics.SortByPermutes | crates/code-system-graph-cli/src/fingerprint.rs:107-109 | A sort by any total order gives an ordered permutation |
| Artifacts.SortSorts | crates/code-system-graph-cli/src/fingerprint.rs:107-109 | Sorting by artifact key gives a sorted permutation |
| Artifacts.SortDistinct | crates/code-system-graph-cli/src/lib.rs:1454-1458 | Sorting entries with distinct keys gives a strictly sorted list of the same entries |
| Artifacts.SortIsStable | crates/code-system-graph-cli/src/fingerprint.rs:106-109 | Entries with one key keep their input order, for every key |
| Artifacts.StrictlySortedUnique | crates/code-system-graph-cli/src/lib.rs:1454-1458 | A strictly sorted list is determined by its set of elements |
| Extractors.StoreThenLoad | crates/code-system-graph-core/src/batch.rs:54-132 | Whatever is stored under a budget is loaded back unchanged under that budget, through both limit checks and the count check |
| FailureFence.ReachableInv | crates/code-system-graph-cli/src/focused_extraction.rs:78-94 | In every interleaving of load, run and record steps: the fence names a failed job, skipped jobs lie above it, recorded failures do not lie below it |
| FailureFence.ScheduleNeverSkipsEarlierJobs | crates/code-system-graph-cli/src/focused_extraction.rs:193-208 | When all workers are done no job at or below the lowest failing index was skipped, and the fence ends at that index |
| FailureFence.FirstFailure | crates/code-system-graph-cli/src/focused_extraction.rs:78-94 | The reference position: the lowest failing job, or none when every job succeeds |
| FailureFence.ReportedErrorIsScheduleIndependent | crates/code-system-graph-cli/src/focused_extraction.rs:234-299 | The reported error is the one of the lowest failing job, whatever was skipped above it |
| FailureFence.SchedulesAgree | crates/code-system-graph-cli/src/focused_extraction.rs:193-208 | Any two complete schedules of the same jobs report the same error |
| FailureFence.RecordedFailureSparesLaterJobs | crates/code-system-graph-cli/src/focused_extraction.rs:78-94 | A job that asks after a lower job has recorded its failure is always skipped |
| FocusedExtraction.Reusable | crates/code-system-graph-cli/src/focused_extraction.rs:150-168 | Reuse takes the last checkpoint of the key if it matches hash, version and budget; else, for an unchanged key, the last published batch if it matches; else nothing |
| ExtractionContents.OtherContractsAreNotReused | crates/code-system-graph-cli/src/focused_extraction.rs:150-168 | A batch of another contract version, budget, hash or key is never reused |
| RepositoryOwnership.Initial | crates/code-system-graph-cli/src/repository_ownership.rs:74-78 | The first queue holds every node with a repository, so no inheritance is owed without a queued parent |
| FocusedExtraction.PlanJobs | crates/code-system-graph-cli/src/focused_extraction.rs:145-191 | The planning loop answers every focused artifact once and in order, reuses exactly the reusable ones, groups adjacent artifacts of one file maximally, and fails exactly when an artifact to extract has no checkout |
| FocusedExtraction.OneCheckoutPerRepository | crates/code-system-graph-cli/src/focused_extraction.rs:132-143 | With one checkout per repository id, the path found by repository id is the artifact's own checkout |
| FocusedExtraction.PlanReadsOwnCheckoutsIff | crates/code-system-graph-cli/src/focused_extraction.rs:145-191 | For every plan: all extract jobs read their artifacts' own checkout if and only if each artifact to extract finds its own checkout by repository id |
| FocusedExtraction.ExtractArtifact | crates/code-system-graph-cli/src/focused_extraction.rs:469-497 | One artifact of a file already read, with the crate root handed to the parser: the batch is fresh and carries the artifact, the contract version and the budget |
| ExtractionContents.ExtractionSucceedsWithinLimits | crates/code-system-graph-core/src/batch.rs:54-76 | Extraction succeeds if and only if parsing does and the documents are within both limits, and each failure names its own error |
| ExtractionContents.FactFreeHoldsNothing | crates/code-system-graph-cli/src/focused_extraction.rs:332-382 | An output is fact-free if and only if it comes from one of the four source scans and no document holds anything in any field |
| ExtractionContents.ExtractionKeepsWhatIsHeld | crates/code-system-graph-cli/src/focused_extraction.rs:480-497 | An output is left out if and only if it comes from one of the four source scans and no document holds anything; otherwise output and stored batch hold exactly the parsed documents |
| ExtractionContents.NotesAreExact | crates/code-system-graph-cli/src/focused_extraction.rs:469-497 | The notes of an extraction are exactly the lossy decoding, if it was one, and the incomplete data documents of a data artifact |
| ExtractionContents.IncompleteNotesAreExact | crates/code-system-graph-cli/src/lib.rs:4070-4081 | A complete document gives no note; each incomplete data document of a data artifact gives its own |
| ExtractionContents.ExtractorKinds | crates/code-system-graph-cli/src/lib.rs:4114-4193 | The document kind of every extractor |
| ExtractionContents.FocusedExtractors | crates/code-system-graph-cli/src/lib.rs:4100-4112 | Exactly the named extractors are focused |
| FocusedExtraction.Read | crates/code-system-graph-cli/src/focused_extraction.rs:446-499 | What extraction gives, from what the found checkout holds when the first artifact of the group is read: a fresh batch of the artifact, the contract version and the budget |
| FocusedExtraction.Warm | crates/code-system-graph-cli/src/focused_extraction.rs:384-410 | What a scan answers for an artifact resolves to a batch with its key: the reusable one, else a fresh one of its own that matches it |
| FocusedExtraction.StillTreeReadsSoundly | crates/code-system-graph-cli/src/focused_extraction.rs:446-499 | Where extracted files hold still in their own checkout, every read of the plan gives what cold extraction gives |
| FocusedExtraction.BatchDeterminesOutcome | crates/code-system-graph-cli/src/focused_extraction.rs:480-497 | Two extractions of one artifact that store the same batch have the same output and notes |
| FocusedExtraction.ReuseIsColdIffSound | crates/code-system-graph-cli/src/focused_extraction.rs:151-155 | A reused batch is the cold one if and only if it records the current size and extraction at the current crate root gives it |
| FocusedExtraction.SameRootLeavesTheSize | crates/code-system-graph-cli/src/focused_extraction.rs:151-155 | At an unchanged crate root, if and only if the size is the current one |
| FocusedExtraction.ExtractedBatchDecodes | crates/code-system-graph-cli/src/focused_extraction.rs:412-444 | Decoding a batch that was extracted, from whatever content and root, never fails and gives back its documents |
| FocusedExtraction.SoundReuseAnswers | crates/code-system-graph-cli/src/focused_extraction.rs:388-404 | A sound reuse answers with the cold batch, without notes, and with the cold output unless that has no documents |
| FocusedExtraction.GroupAnswers | crates/code-system-graph-cli/src/focused_extraction.rs:446-499 | A group extracted from one read gives the answer of each artifact, or the first of their errors |
| FocusedExtraction.JobAnswers | crates/code-system-graph-cli/src/focused_extraction.rs:384-410 | Every planned job gives the answers of its artifacts, or the first of their errors, whatever it reads |
| FocusedAssembly.MergeJob | crates/code-system-graph-cli/src/focused_extraction.rs:245-282 | The claim-once slots: an outcome always finds its slot full, the slot ends empty, and batches, outputs, notes and fresh batches are appended in order |
| FocusedAssembly.MergeResults | crates/code-system-graph-cli/src/focused_extraction.rs:232-299 | The merge loop never hits the double claim, and yields the batches, outputs, notes, fresh batches and first error of all results in job order |
| WarmScans.NeverClaimedTwice | crates/code-system-graph-cli/src/focused_extraction.rs:247-261 | Answers of artifacts with distinct keys never claim one cached batch twice |
| WarmScans.FirstErrorOfAll | crates/code-system-graph-cli/src/focused_extraction.rs:234-299 | The first failing job fails with the first error among the answers of the focused artifacts |
| WarmScans.EveryScanAnswers | crates/code-system-graph-cli/src/focused_extraction.rs:109-319 | Whatever the caches hold, whatever the files have become and whatever was skipped, a scan reports the first error among its answers, or one batch per focused artifact in key order with the outputs and notes of all; no batch is claimed twice |
| WarmScans.ReadIsColdIffSound | crates/code-system-graph-cli/src/focused_extraction.rs:446-499 | A read gave the cold batch if and only if it gave the cold result |
| WarmScans.BatchesAreColdIffSound | crates/code-system-graph-cli/src/focused_extraction.rs:300-319 | The stored batches are the cold ones if and only if every reuse and every read is sound |
| WarmScans.LooksColdIffSound | crates/code-system-graph-cli/src/focused_extraction.rs:300-319 | Batches, degradations and outputs with documents are the cold ones if and only if every reuse and every read is sound |
| WarmScans.WarmEqualsCold | crates/code-system-graph-cli/src/focused_extraction.rs:109-319 | Full and partial scans, any caches, any files, any fenced result: the scan shows what a cold scan shows if and only if every reuse and every read is sound, and then also reports the error a cold scan reports |
| WarmScans.EveryScheduleLooksCold | crates/code-system-graph-cli/src/focused_extraction.rs:109-319 | With sound reuse and extracted files that hold still in their own checkout, every complete interleaving of the parallel stage gives the cold scan's result |
| WarmScans.Assemble | crates/code-system-graph-cli/src/focused_extraction.rs:232-319 | The executable merge, for any planned scan: the answers or their first error, one batch each, never a double claim; the cold result when all is sound; exactly the fresh batches go to the checkpoint write |
| WarmScans.ReuseKeepsDocuments | crates/code-system-graph-cli/src/focused_extraction.rs:384-410 | Warm and cold typed outputs agree on every output that has documents |
| WarmScans.OutputsEqualUnlessEmptyBatchReused | crates/code-system-graph-cli/src/focused_extraction.rs:391-396 | Warm and cold output lists are equal if and only if no reusable batch without outputs comes from an extractor outside the four source scans |
| DifferingScans.SourceFileWithoutObservations | crates/code-system-graph-cli/src/focused_extraction.rs:391-396 | The difference is real: in a history of two sound scans, a source file without observations loses its empty output |
| WarmScans.StoredNotesAreColdNotes | crates/code-system-graph-cli/src/lib.rs:4061-4084 | The degradations read back from a stored batch are those its extraction reported |
| WarmScans.EarlierBatchesAreCheckpointed | crates/code-system-graph-cli/src/focused_extraction.rs:284-299 | Every fresh batch of every job before the first failure is handed to the checkpoint write |
| ScanHistories.StepKeepsBorn | crates/code-system-graph-cli/src/focused_extraction.rs:284-319 | A scan, successful or failed, leaves in the published table and the checkpoint cache only batches that a named read of some scan of the history extracted |
| ScanHistories.StillTreesReadSoundly | crates/code-system-graph-cli/src/focused_extraction.rs:446-499 | Scans whose extracted files hold still in their own checkout make the reads of a history sound |
| ScanHistories.KeptRootsLeaveTheSize | crates/code-system-graph-cli/src/focused_extraction.rs:151-155 | In a history, where the reads and crate roots of the extracting scans were sound and kept, all is sound if and only if sizes were kept |
| ScanHistories.EveryScanOfAHistoryLooksCold | crates/code-system-graph-cli/src/focused_extraction.rs:109-319 | From empty caches on, in any history of full and partial scans: where the reads of the extracting scans were sound and their crate roots kept, a scan gives the cold result when sizes were kept, and a successful scan shows it only then |
| ScanHistories.ReuseNeverFails | crates/code-system-graph-cli/src/focused_extraction.rs:388-397 | In a history the reuse of a batch never fails, whatever moved, grew or was read |
| DifferingScans.MovedCrateRoot | crates/code-system-graph-cli/src/focused_extraction.rs:641-649 | Two scans around a moved Cargo.toml: the second reuses the old batch and differs from a cold one whenever the parser tells the roots apart |
| DifferingScans.StaleSize | crates/code-system-graph-cli/src/fingerprint.rs:272-283 | Two scans after a size recorded before a write: the second reuses a batch with the stale size |
| DifferingScans.EditedBeforeTheRead | crates/code-system-graph-cli/src/focused_extraction.rs:446-499 | Two scans after a write between fingerprinting and the read: the second reuses a batch of other content, with its own tree still and roots and sizes kept |
| DifferingScans.LinkedWorktreeReadsTheOther | crates/code-system-graph-cli/src/focused_extraction.rs:132-143 | Two checkouts of one repository: an artifact of the earlier alias is read from the other checkout; the scan fails, or stores the other content under its hash |
| Degradations.FinalizeDependsOnTheSet | crates/code-system-graph-cli/src/lib.rs:4086-4098 | The bounded degradation list depends only on which degradations occurred |
| Degradations.FinalizeIsExact | crates/code-system-graph-cli/src/lib.rs:4086-4098 | The total is the number of distinct degradations; the list is all of them in order, or the first ones up to the bound with the number left out |
| Degradations.WarmDegradationsAreCold | crates/code-system-graph-cli/src/lib.rs:1676-1682 | A successful warm scan reports the total and the bounded list of the cold scan |
| WatchPipeline.TouchedRepositories.Record | crates/code-system-graph-cli/src/sync_watch.rs:88-95 | Recording joins aliases or widens to the workspace |
| WatchPipeline.TouchedRepositories.Take | crates/code-system-graph-cli/src/sync_watch.rs:97-103 | Taking empties the set and returns its aliases, or nothing when the pass must cover the workspace |
| WatchPipeline.TargetedPassCovers | crates/code-system-graph-cli/src/sync_watch.rs:1063-1074 | A targeted pass covers a touched alias if and only if no explicit repository narrows it away |
| WatchPipeline.PipeStepCarries | crates/code-system-graph-cli/src/sync_watch.rs:308-363 | No step of callback, event worker or reader drops a change |
| WatchPipeline.PipeStepInv | crates/code-system-graph-cli/src/sync_watch.rs:743-786 | Recorded changes always have a wake-up queued, about to be sent or being served, at the worker and at the main loop |
| WatchPipeline.DirectoryStep | crates/code-system-graph-cli/src/sync_watch.rs:743-768 | No step but a refresh settles a new directory |
| WatchPipeline.DirectoryStepInv | crates/code-system-graph-cli/src/sync_watch.rs:743-768 | A set directory flag always has a wake-up queued, about to be sent or being served |
| WatchLoop.StepInv | crates/code-system-graph-cli/src/sync_watch.rs:882-1061 | Every step of the whole system keeps that invariant, for the current and the replacement worker |
| WatchLoop.StepCarries | crates/code-system-graph-cli/src/sync_watch.rs:882-1061 | Every step keeps an undischarged change carried, also across the replacement of the worker |
| WatchLoop.NoChangeIsLost | crates/code-system-graph-cli/src/sync_watch.rs:882-1074 | In every interleaving a reported change stays carried until a pass selects its alias or the workspace, also when worker and replacement classify an event differently |
| WatchLoop.QuietCarriesNothing | crates/code-system-graph-cli/src/sync_watch.rs:1164-1205 | When only a new event could move the watcher, nothing is pending anywhere |
| WatchLoop.QuietMeansCaughtUp | crates/code-system-graph-cli/src/sync_watch.rs:882-1061 | A quiet watcher has covered every earlier change by a pass that started after it; a scope refresh was served unless a reload failed |
| WatchScopes.NoDirectoryIsLost | crates/code-system-graph-cli/src/sync_watch.rs:743-768 | In every interleaving a new directory stays owed by the worker that will remain until that worker walks the directories |
| WatchScopes.QuietHasWalked | crates/code-system-graph-cli/src/sync_watch.rs:743-768 | A quiet watcher has walked the directories after every one that was created |
| WatchScopes.ScopesFollowReloads | crates/code-system-graph-cli/src/sync_watch.rs:1007-1061 | In every run the main loop's scope is the one of the last successful reload, and the worker that will remain is the last one spawned: a changed scope is always acted on |
| WatchScopes.QuietWatchesTheLastReload | crates/code-system-graph-cli/src/sync_watch.rs:1007-1061 | A quiet watcher has no replacement left over and holds the last successfully loaded scope; its worker watches that scope if and only if the last worker spawned loaded it too |
| WatchScopes.SameLoadsAreWatched | crates/code-system-graph-cli/src/sync_watch.rs:1007-1061 | Where every spawned worker loads what the main loop loaded, the worker that will remain watches the scope of the last successful reload |
| WatchScopes.SameScopeKeepsTheWorker | crates/code-system-graph-cli/src/sync_watch.rs:1017-1028 | After a pass the worker is replaced if and only if the reload succeeded and a refresh was asked for or the scope changed; otherwise nothing but the main loop moves on |
| WatchScopes.ReplacementsCatchUp | crates/code-system-graph-cli/src/sync_watch.rs:1029-1059 | Between spawning a replacement and handing over to it there is a pass over the whole workspace |
| WatchPasses.PassesAreTold | crates/code-system-graph-cli/src/sync_watch.rs:1063-1074 | In every run a targeted pass is not empty and names only aliases that events named; a pass over the whole workspace goes back to a workspace event, a refresh request, an alias list too long for the protocol, or a take that found nothing, at the worker or at the main loop |
| WatchPipeline.NamesAllStep | crates/code-system-graph-cli/src/sync_watch.rs:743-786 | The only pipeline steps that widen a message are an empty take and an alias list too long for the protocol |
| WatchLoop.StepRank | crates/code-system-graph-cli/src/sync_watch.rs:882-1061 | Every step except a new event decreases a rank |
| WatchLoop.SettlesAfterTheLastEvent | crates/code-system-graph-cli/src/sync_watch.rs:882-1061 | After the last event the watcher takes boundedly many steps, so it becomes quiet |
| WatchWitnesses.FailedReloadForgetsRefresh | crates/code-system-graph-cli/src/sync_watch.rs:1007-1016 | A scope reload that fails after the pass drops the refresh request: a concrete run |
| WatchWitnesses.ReplacementWatchesItsOwnLoad | crates/code-system-graph-cli/src/sync_watch.rs:1007-1059 | A run that ends quiet with a worker watching whatever it loaded itself, while the main loop holds its own load |
| WatchWitnesses.LateWakeWidens | crates/code-system-graph-cli/src/sync_watch.rs:743-768 | Two changes of one repository are enough for a message about the whole workspace: a wake-up that finds nothing left to take is sent on with no aliases |
| WatchRoots.AddWatchEntry | crates/code-system-graph-cli/src/sync_watch.rs:1492-1512 | Coverage after adding an entry is exactly the old coverage joined with the new entry's, for every path and every list |
| WatchRoots.AddedCoverageIsTheUnion | crates/code-system-graph-cli/src/sync_watch.rs:1492-1512 | The same union for each branch of the addition |
| WatchRoots.AddRootIsExact | crates/code-system-graph-cli/src/sync_watch.rs:1492-1512 | Adding one more root keeps the list equal to the topmost roots and the uncovered configuration directory, if and only if the upgrade branch does not meet earlier roots under it |
| WatchRoots.LoadedRootsAreOrdered | crates/code-system-graph-cli/src/sync_watch.rs:484-485 | The load order is a permutation in which no root comes before a directory above it |
| WatchRoots.WatchEntries | crates/code-system-graph-cli/src/sync_watch.rs:557-571 | On loaded repositories the entries are exactly the topmost roots and the configuration directory unless a root holds it, sorted, without nested trees, and cover exactly what was asked for |
| WatchRoots.WhatIsReported | crates/code-system-graph-cli/src/sync_watch.rs:557-571 | A recursive entry covers everything below its path, the other kind its path and direct children, and neither anything else |
| WatchRoots.EntriesAreDetermined | crates/code-system-graph-cli/src/sync_watch.rs:557-571 | The resulting list depends only on its set of entries |
| WatchRoots.UnsortedRootsNest | crates/code-system-graph-cli/src/sync_watch.rs:1502-1507 | Without the sort the upgrade branch leaves one recursive entry inside another |
| StatCache.CollectDelta | crates/code-system-graph-cli/src/fingerprint.rs:81-124 | The collecting loop yields the new entries, the vanished ones of scanned checkouts and the hit count |
| StatCache.StepSound | crates/code-system-graph-cli/src/fingerprint.rs:221-271 | Every write, tick, stat, read and commit keeps every cached entry unable to mislead, given stamps at least as fine as the racy window |
| StatCache.StatHitIsCurrent | crates/code-system-graph-cli/src/fingerprint.rs:240-271 | In every run a stat hit returns the hash of the content the file has at that moment |
| StatCache.ReportedHashIsCurrent | crates/code-system-graph-cli/src/fingerprint.rs:240-283 | In every run, a request finished by a stat or by a read reports the hash of the content its file has at that step, and as a hit exactly when it was finished by the stat |
| StatCache.UnchangedFilesAreNotRead | crates/code-system-graph-cli/src/fingerprint.rs:240-258 | A stat finishes a request if and only if the loaded entry of the file has its size, time and identity |
| StatCache.SettledFilesAreRecorded | crates/code-system-graph-cli/src/fingerprint.rs:259-271 | A file is recorded with its stat and hash if and only if it is older than the racy window |
| StatCache.CommittedCacheIsExact | crates/code-system-graph-cli/src/work_state.rs:346-390 | After a commit every recorded stat stands in the cache, files that vanished from a scanned checkout are gone, and other checkouts are untouched |
| StatCache.CoarserStampsBreakTheCache | crates/code-system-graph-cli/src/fingerprint.rs:20-22 | With any coarser granularity some run returns the hash of overwritten content |
| RepositoryOwnership.OwnsIsLeast | crates/code-system-graph-cli/src/repository_ownership.rs:33-106 | Reachability from direct nodes is below every assignment closed under inheritance |
| RepositoryOwnership.OwnsItself | crates/code-system-graph-cli/src/repository_ownership.rs:42-54 | A direct node owns exactly its own repository |
| RepositoryOwnership.EdgeOrderIsIrrelevant | crates/code-system-graph-cli/src/repository_ownership.rs:33-106 | Ownership does not depend on the order or repetition of edges |
| RepositoryOwnership.OtherEdgesGiveNothing | crates/code-system-graph-cli/src/repository_ownership.rs:108-121 | An edge that is no containment, is unconfirmed, has a missing end, or joins kinds that do not inherit, such as artifact to document, changes no ownership |
| RepositoryOwnership.ContainmentGives | crates/code-system-graph-cli/src/repository_ownership.rs:60-68 | A confirmed containment of inheriting kinds gives its source's repositories to a target without one of its own |
| RepositoryOwnership.CollectChildren | crates/code-system-graph-cli/src/repository_ownership.rs:55-73 | The child map holds exactly the eligible confirmed containment edges; it gives up only when a poll says stop |
| RepositoryOwnership.VisitChildren | crates/code-system-graph-cli/src/repository_ownership.rs:85-103 | Visiting the children of a queued node keeps the state sound, and either changes nothing or shrinks the missing pairs |
| RepositoryOwnership.Resolve | crates/code-system-graph-cli/src/repository_ownership.rs:33-106 | The worklist terminates on every graph; unless stopped, every node ends with exactly the repositories that reach it, direct nodes with their own |
| Discovery.DedupLastWins | crates/code-system-graph-cli/src/fingerprint.rs:106-118 | Dedup with swap keeps, for every key, exactly the last fingerprint in list order |
| Discovery.SortAndDedup | crates/code-system-graph-cli/src/fingerprint.rs:106-118 | Stable sort then dedup gives a strictly sorted list of the last fingerprint of every artifact |
| Discovery.PartialMergeIsExact | crates/code-system-graph-cli/src/lib.rs:1446-1458 | A partial scan works on a strictly sorted list of the discovered artifacts and the previous ones with unselected repository ids |
| Discovery.PartialScanEqualsFullScan | crates/code-system-graph-cli/src/lib.rs:1446-1458 | With nothing else changed, that list is the full scan's if and only if no artifact of an unselected alias carries a selected repository id |
| ArtifactDelta.FingerprintMap | crates/code-system-graph-core/src/incremental.rs:80-97 | Every key of the list is present, mapped to the last fingerprint with that key |
| ArtifactDelta.PlanIsExact | crates/code-system-graph-core/src/incremental.rs:33-78 | The plan lists exactly the added, modified and deleted artifacts, strictly sorted |
| ArtifactDelta.PlanIgnoresVisitingOrder | crates/code-system-graph-core/src/incremental.rs:33-78 | Any two iteration orders of the maps give one plan |
| ArtifactDelta.FindArtifact | crates/code-system-graph-cli/src/lib.rs:1818-1827 | The binary search finds the artifact with a key exactly when there is one |
| ArtifactDelta.PlanDelta | crates/code-system-graph-cli/src/lib.rs:1798-1848 | Building the delta succeeds exactly when every added or modified artifact is current; it then upserts exactly those, removes the deleted and picks the unpublished batches |
| ArtifactStore.Store.ApplyDelta | crates/code-system-graph-store-sqlite/src/publication.rs:651-690 | Both tables become the old rows with the upserts and then without the deleted rows |
| ArtifactStore.AgreeingPublication | crates/code-system-graph-store-sqlite/src/publication.rs:651-690 | When displays agree, publication leaves one row per current artifact, the previous row where the hash is unchanged, and no other |
| ArtifactStore.FingerprintPublicationIsExact | crates/code-system-graph-store-sqlite/src/publication.rs:576-690 | The published rows become the current fingerprints if and only if artifacts that share a row share a display path and an unchanged hash has an unchanged size |
| ArtifactStore.NativeDisplaysAgree | crates/code-system-graph-core/src/registry.rs:247-255 | Displays computed from the stored bytes always agree, and give a sorted list one artifact per row |
| ArtifactStore.StaleSizeStaysPublished | crates/code-system-graph-core/src/incremental.rs:33-78 | A changed size under an unchanged hash gives an empty plan and leaves the stale row |
| ArtifactStore.DisagreeingPublication | crates/code-system-graph-store-sqlite/src/publication.rs:665-690 | What the order of upserts and deletes would do to an artifact whose display path alone changed: written, then deleted |
| ArtifactStore.BatchPublicationIsExact | crates/code-system-graph-store-sqlite/src/publication.rs:651-690 | The batch table becomes exactly the stored batches of the scan |
| ArtifactStore.AssemblyFeedsPublication | crates/code-system-graph-cli/src/focused_extraction.rs:310-318 | The assembly of any scan over tables it was loaded from meets every need of batch publication |
| ArtifactStore.SkippedBatchIsPublished | crates/code-system-graph-cli/src/focused_extraction.rs:310-318 | A batch left out of the delta was reused from the published table and stands there already |
| ArtifactStore.PublishedTables | crates/code-system-graph-cli/src/lib.rs:1688-1708 | Publishing any assembly leaves the kept fingerprint rows, current if and only if sizes agree, and the stored batches |
| ArtifactStore.PublishScan | crates/code-system-graph-cli/src/lib.rs:1791-1848 | Plan, delta and store together never fail, and leave exactly these tables |
| PublicationHistory.StepHolds | crates/code-system-graph-store-sqlite/src/publication.rs:651-690 | Every scan over the tables keeps one row per key, displays from bytes, and a focused artifact beside every batch |
| PublicationHistory.EveryPublicationIsCurrent | crates/code-system-graph-cli/src/lib.rs:1512-1708 | In any history of assembling and publishing, whatever happens to the files, every scan that publishes leaves one batch row per focused artifact and the kept fingerprint rows |
| PublicationHistory.PublicationsAreScans | crates/code-system-graph-cli/src/lib.rs:1512-1708 | A history over the tables is a history of scans |
| PublicationHistory.PublishedScansLookCold | crates/code-system-graph-cli/src/lib.rs:1512-1708 | So with sound reads, kept crate roots and kept sizes every scan over the tables gives the cold result |
| WatcherLease.LeaseTable.StartWatcher | crates/code-system-graph-cli/src/work_state.rs:392-462 | A start succeeds exactly when the row is not held by a live or possibly live owner, and then replaces the row |
| WatcherLease.LeaseTable.HeartbeatWatcher | crates/code-system-graph-cli/src/work_state.rs:526-550 | A heartbeat succeeds exactly for the active token and changes only the times |
| WatcherLease.LeaseTable.FinishWatcher | crates/code-system-graph-cli/src/work_state.rs:552-575 | A finish succeeds exactly for the owning token and records state and detail |
| WatcherLease.Exclusion | crates/code-system-graph-cli/src/work_state.rs:392-462 | Over any history, after A starts and before A finishes, no other start succeeds while each probe sees A or A's heartbeat is fresh |
| WatcherLease.ReplacedWatcherIsPowerless | crates/code-system-graph-cli/src/work_state.rs:526-575 | Once A is replaced, every later heartbeat or finish by A fails and leaves the table unchanged |
| WatcherLease.DeadOwnerIsReplaced | crates/code-system-graph-cli/src/work_state.rs:427-441 | A start succeeds on a held workspace if and only if it can no longer see the holder |
| WatcherLease.WorkspacesAreIndependent | crates/code-system-graph-cli/src/work_state.rs:392-575 | Operations on other workspaces leave a row unchanged |
| WatcherLease.FinishIsShown | crates/code-system-graph-cli/src/work_state.rs:552-575 | A finish succeeds exactly for the owning token and shows state, detail and time |
| WatcherLease.FinishReleases | crates/code-system-graph-cli/src/work_state.rs:552-575 | Over any history, after a finish to a state other than active and until the next start: the row shows that state and detail, every heartbeat fails, and any start with a representable time succeeds, whatever its probe says |
| WatcherLease.FreshForTwiceTheInterval | crates/code-system-graph-cli/src/work_state.rs:403-406 | A heartbeat counts as fresh for exactly twice the interval |
| WatcherLease.RenewalKeepsOthersOut | crates/code-system-graph-cli/src/work_state.rs:427-441 | A start or heartbeat keeps every other start out for twice the interval when the owner cannot be probed |
| WatcherLease.TimesAreRecorded | crates/code-system-graph-cli/src/work_state.rs:526-550 | Which times, process and detail a start and a heartbeat record, and which they keep |
| PresentationCache.SingleFlight | crates/code-system-graph-cli/src/mcp.rs:202-258 | In every interleaving one load at most is in flight, the ready slot holds no failed load, and every returned context was loaded for the requested snapshot or is unavailable |
| PresentationCache.UnavailableMeansOwnFailure | crates/code-system-graph-cli/src/mcp.rs:232-256 | In every run a request that returns unavailable has itself finished a load that failed |
| PresentationCache.OwnLoadIsReturned | crates/code-system-graph-cli/src/mcp.rs:232-256 | A request whose own load succeeded carries and returns the context of the snapshot it asked for |
| PresentationCache.StoredIsReady | crates/code-system-graph-cli/src/mcp.rs:249-252 | A stored context stays ready until one of another snapshot is stored |
| PresentationCache.ReadyIsServed | crates/code-system-graph-cli/src/mcp.rs:206-212 | Until then every request for that snapshot returns it at once and starts no load |
| PresentationCache.LockReturnsTheReady | crates/code-system-graph-cli/src/mcp.rs:206-226 | Under the lock a request returns exactly when its snapshot is ready, and starts a load exactly when it is not and nobody is loading |
| PresentationCache.NobodySleepsForEver | crates/code-system-graph-cli/src/mcp.rs:206-257 | While a request has not returned some step is possible: no waiter sleeps past the load it waits for |
| PresentationCache.StepRank | crates/code-system-graph-cli/src/mcp.rs:202-258 | Every step decreases a rank |
| PresentationCache.EveryRunIsBounded | crates/code-system-graph-cli/src/mcp.rs:202-258 | Every run is finite, with a bound fixed by its first state |
| PresentationCache.StuckMeansAnswered | crates/code-system-graph-cli/src/mcp.rs:202-258 | A run that cannot continue has answered every request |
| SnapshotIdentity.LittleEndianRoundTrip | crates/code-system-graph-cli/src/lib.rs:1765-1768 | A length written in little-endian bytes is read back |
| SnapshotIdentity.ReadWrittenField | crates/code-system-graph-cli/src/lib.rs:1765-1768 | A framed field followed by anything is read back with its rest |
| SnapshotIdentity.RecordIsPrefixFree | crates/code-system-graph-cli/src/lib.rs:1774-1787 | Equal streams that start with a record start with the same record, up to the display path, and have equal rests |
| SnapshotIdentity.StreamIsUniquelyDecodable | crates/code-system-graph-cli/src/lib.rs:1755-1789 | Two streams are equal if and only if manifest hash, budget and every fingerprint field but the display path are equal |
| SnapshotIdentity.EqualIdsMeanEqualInputs | crates/code-system-graph-cli/src/lib.rs:1459-1477 | What snapshot reuse relies on, for a collision-free hash |
| SnapshotReuse.EqualIdRepeats | crates/code-system-graph-cli/src/lib.rs:1459-1477 | A scan with the id of the last publication has its manifest, budget and artifacts, and an empty plan |
| SnapshotReuse.EverythingIsReusable | crates/code-system-graph-cli/src/lib.rs:1755-1759 | Every focused artifact of such a scan is reusable, from the table unless a checkpoint comes first |
| SnapshotReuse.NoCandidates | crates/code-system-graph-cli/src/lib.rs:1541-1553 | Where stored batches carry the sizes of their artifacts, no checkpoint is looked up |
| SnapshotReuse.RepeatedScanStoresTheSame | crates/code-system-graph-cli/src/lib.rs:1478-1510 | The scan that is not made would store the published batches again and publish none |
| SnapshotReuse.EarlyReturnReportsTheScan | crates/code-system-graph-cli/src/lib.rs:1478-1510 | The early return reports the total and list of extraction degradations of the scan it replaces, and fails only if that would |
| CheckpointCache.Evict | crates/code-system-graph-cli/src/work_state.rs:604-640 | Eviction removes exactly the shortest prefix in (last access, key) order that brings the total to quota |
| CheckpointCache.EvictionIsDetermined | crates/code-system-graph-cli/src/work_state.rs:604-640 | Ages, sizes and quota determine the result: two evictions of one table are equal |
| CheckpointCache.EvictsTheOldest | crates/code-system-graph-cli/src/work_state.rs:604-640 | Every removed row is older than every kept one |
| CheckpointCache.KeptPayloadIsWithinQuota | crates/code-system-graph-cli/src/work_state.rs:604-640 | The payload bytes that stay are within the quota: recorded sizes never understate them |
| CheckpointCache.PutsAreMeasured | crates/code-system-graph-cli/src/work_state.rs:282-312 | A put keeps every recorded size equal to the bytes of header and payload |
| CheckpointCache.NothingIsEvictedWithinQuota | crates/code-system-graph-cli/src/work_state.rs:604-640 | A table within its quota is left alone |
| CheckpointCache.WrittenRowsAreNew | crates/code-system-graph-cli/src/work_state.rs:282-312 | A key among the put batches that fit holds one of them, with its size and the current time; every other row is unchanged |
| CheckpointCache.OwnRowsGoLast | crates/code-system-graph-cli/src/work_state.rs:255-318 | A put evicts a row it has just written only when every row left carries that same time |
| CheckpointCache.LoadedRowsGoAfterOlderOnes | crates/code-system-graph-cli/src/work_state.rs:179-253 | A row that was loaded is not evicted before one that was last used earlier |
| CheckpointCache.Cache.Put | crates/code-system-graph-cli/src/work_state.rs:255-318 | A put writes what fits, counts it before eviction, evicts to quota, and keeps every row equal to the last accepted put of its key |
| CheckpointCache.Cache.Load | crates/code-system-graph-cli/src/work_state.rs:179-253 | A load returns the found batches in request order, touches them and drops rows over the payload maximum |
| CheckpointCache.LoadIsMemo | crates/code-system-graph-cli/src/work_state.rs:179-253 | Every returned batch is the last accepted put of that fingerprint, budget and version |
| CheckpointCache.FoundIsExact | crates/code-system-graph-cli/src/work_state.rs:204-250 | A load returns exactly the rows asked for that are within the payload maximum |
| CheckpointCache.PutThenLoad | crates/code-system-graph-cli/src/work_state.rs:179-318 | What a put wrote last and kept is what a load for it returns |
| CheckpointCache.OversizedPutKeepsOlderBatch | crates/code-system-graph-cli/src/work_state.rs:293-297 | A put over the quota is skipped and the older batch stays |
| ProcessTree.IsDescendant | crates/code-system-graph-cli/src/worker.rs:1187-1203 | Terminates on every parent map, cycles included, and is true exactly when the root is reachable by one or more links |
| ProcessTree.FullTrailIsATrap | crates/code-system-graph-cli/src/worker.rs:1187-1203 | The pigeonhole step: once every process has been passed, the chain can only repeat and never meets the root |
| ProcessTree.TreeMemory | crates/code-system-graph-cli/src/worker.rs:1177-1185 | The saturating fold equals the exact sum over the tree capped at the 64-bit maximum |
| ProcessTree.TreeMembers | crates/code-system-graph-cli/src/worker.rs:1177-1203 | The tree holds the root, its children and the children of its members, no threads, and nothing that does not descend from the root |
| ProcessTree.MemorySumSplits | crates/code-system-graph-cli/src/worker.rs:1177-1185 | The exact sum does not depend on the order of summation |
| WorkerProgress.AcceptedCountIsExact | crates/code-system-graph-cli/src/worker.rs:199-200 | When a result is accepted the supervisor's count equals the worker's total, for every interleaving and coalescing without a written overflow |
| WorkerProgress.UnitsAreTheReportedSum | crates/code-system-graph-cli/src/worker.rs:433-473 | The worker's total is the sum of the reports that did not overflow |
| WorkerProgress.WatchdogNeedsIncrease | crates/code-system-graph-cli/src/worker.rs:756-802 | Over any stretch of a run the count never decreases and the watchdog is renewed exactly when it strictly increases |
| WorkerProgress.LargerCountsRenew | crates/code-system-graph-cli/src/worker.rs:756-802 | A message raises the count and renews the watchdog if and only if it reports a larger count under the policy |
| WorkerProgress.StuckMeansAccepted | crates/code-system-graph-cli/src/worker.rs:756-802 | A run that cannot continue after the worker has reported has accepted the result |
| WorkerProgress.OverflowShows | crates/code-system-graph-cli/src/worker.rs:433-473 | A written overflow reaches the supervisor as the maximum before any result |
| WorkerProgress.AcceptedCountIsExactUnlessOverflow | crates/code-system-graph-cli/src/worker.rs:433-495 | The accepted count is the total if and only if no overflow was written, or the total is the maximum |
| WorkerProgress.AcceptedCountIsTheSum | crates/code-system-graph-cli/src/worker.rs:433-495 | When all reports together fit 64 bits, an accepted count is their sum |
| RateLimiter.Limiter.Check | crates/code-system-graph-cli/src/http_server.rs:276-307 | A check prunes, counts, evicts an oldest window when full, and keeps the map within its bound |
| RateLimiter.MapIsBounded | crates/code-system-graph-cli/src/http_server.rs:47-49 | The client map never exceeds 4096 entries in any run |
| RateLimiter.WindowIsLimited | crates/code-system-graph-cli/src/http_server.rs:276-307 | A client that is never evicted is admitted at most 60 times per window |
| RateLimiter.RefusedOnlyWhenExhausted | crates/code-system-graph-cli/src/http_server.rs:282-287 | Such a client is refused if and only if its window is open and has admitted it 60 times |
| RateLimiter.OpenWindowsStay | crates/code-system-graph-cli/src/http_server.rs:279-297 | A check keeps the window of another client exactly when it is open and not the one evicted |
| RateLimiter.VictimIsOldest | crates/code-system-graph-cli/src/http_server.rs:290-297 | A window is evicted only for a new client at a full map, and none that stays is older |
| RateLimiter.WindowsAreApart | crates/code-system-graph-cli/src/http_server.rs:276-307 | Two windows of such a client are equal or at least a minute apart |
| RateLimiter.IntervalIsLimited | crates/code-system-graph-cli/src/http_server.rs:276-307 | Such a client is admitted at most 120 times in any half-open minute |
| RateLimiter.EvictionResetsTheBudget | crates/code-system-graph-cli/src/http_server.rs:290-304 | Why the proviso is needed: an evicted client is admitted again at once |
| MarkdownFitting.DecimalIsInjective | crates/code-system-graph-cli/src/agent_markdown.rs:194-206 | A printed count says which count it is |
| MarkdownContents.DecimalRoundTrip | crates/code-system-graph-cli/src/agent_markdown.rs:194-206 | A printed count reads back as that count |
| MarkdownContents.KeptSaysAndContains | crates/code-system-graph-cli/src/agent_markdown.rs:208-251 | A bounded collection prints its total and its retained count, each behind its own label, and contains every retained item |
| MarkdownContents.CollectionIsHonest | crates/code-system-graph-cli/src/agent_markdown.rs:208-251 | Its truncation flag is set if and only if the source was truncated or items are missing |
| MarkdownContents.CompleteCollectionContains | crates/code-system-graph-cli/src/agent_markdown.rs:19-31 | A complete collection prints its total and all its items as retained, and contains every item |
| MarkdownContents.CompleteDocumentContains | crates/code-system-graph-cli/src/agent_markdown.rs:151-192 | A complete document contains every block |
| MarkdownFitting.LongerPrefixIsLonger | crates/code-system-graph-cli/src/agent_markdown.rs:208-251 | A longer item prefix never gives a shorter block, although the printed count and flag change length |
| MarkdownFitting.BoundedCollection | crates/code-system-graph-cli/src/agent_markdown.rs:208-251 | Nothing if no prefix fits; otherwise the longest fitting prefix with its true retained count |
| MarkdownFitting.FitDocument | crates/code-system-graph-cli/src/agent_markdown.rs:151-192 | Never over the maximum, complete when it fits, otherwise block by block with the longest prefixes that fit, and the notice whenever it fits |
| MarkdownFitting.AppendWhole | crates/code-system-graph-cli/src/agent_markdown.rs:260-265 | A whole block is kept exactly when it fits behind those kept before it |
| MarkdownFitting.FitAtomicBlocks | crates/code-system-graph-cli/src/agent_markdown.rs:253-269 | Never over the maximum, complete when it fits, otherwise the greedy choice of whole blocks and the notice whenever it fits |
| SchemaCatalog.PreambleGrows | crates/code-system-graph-cli/src/agent_markdown.rs:378-388 | Retaining more schemas never shortens the preamble |
| MarkdownContents.CatalogIsHonest | crates/code-system-graph-cli/src/agent_markdown.rs:276-286 | The preamble prints the declared total or the number present, whichever is larger, and the retained count, and its truncation flag is set exactly when schemas are missing or were declared to be |
| SchemaCatalog.KeepSchemas | crates/code-system-graph-cli/src/agent_markdown.rs:331-352 | A schema is kept exactly when it fits behind those kept before it with the preamble that counts it |
| SchemaCatalog.RenderNested | crates/code-system-graph-cli/src/agent_markdown.rs:271-376 | Within the maximum if and only if the header and the empty preamble are; complete when it fits, otherwise the greedy choice with its true count |
| SchemaCatalog.LongestRun | crates/code-system-graph-cli/src/agent_markdown.rs:429-436 | The longest run of the fence character in a text |
| SchemaCatalog.FenceMarker | crates/code-system-graph-cli/src/agent_markdown.rs:429-436 | The fence has at least three characters, does not occur in the text, and is not longer than needed |
| ChunkedReaders.ReadBoundedLine | crates/code-system-graph-cli/src/worker.rs:1140-1167 | For every split into buffers: the bytes up to the first newline or the end, or a rejection exactly when that segment with its newline is over the bound |
| ChunkedReaders.ReadLines | crates/code-system-graph-cli/src/worker.rs:1087-1112 | The lines read from a stream depend on its bytes only; an empty line ends it like the end of the stream |
| ChunkedReaders.LinesAreTheStream | crates/code-system-graph-cli/src/worker.rs:1087-1112 | Put back together with their newlines the lines are the beginning of the stream; what is left is nothing, an empty line or a line over the bound |
| ChunkedReaders.ReadToEndBounded | crates/code-system-graph-core/src/capability_dir.rs:514-540 | For every way the reads return it: the whole content, or a rejection exactly when it is over the limit |

## Left out

- The language, GraphQL, protobuf, SQL, infrastructure and documentation extractors: a parser is a function
  of budget, content, crate root, path and extractor name.
- Graph assembly, communities, impact, search ranking and traversal.
- SQLite itself: tables are maps, a transaction is one step, and its errors are not modelled, apart from
  timestamps and sizes that do not fit a signed 64-bit integer.
- JSON, BLAKE3 and path canonicalisation; the codec and the hashes are hypotheses.
- Forced scans, which publish all rows instead of a delta, and the refusal of a partial scan after a
  change of budgets.
- WarmScans.LooksCold keeps the typed outputs of all extractors in one key-ordered list, where the source
  has one vector per kind.
- WatchLoop.NoChangeIsLost: from the start of a catch-up on, an event that only the scope about to go
  finds relevant is not counted as a change.
- WatchLoop.QuietMeansCaughtUp: the same events are not counted, because the new scope says they do not
  matter.
- Poisoned mutexes, I/O errors of the pipes, and the handshake with a freshly spawned event worker: a
  replacement worker starts idle and ready, in one step.
- Time limits of the watcher (idle, session, minimum interval) and its retries: a run may end at any point.
- Failing passes: a pass that fails ends the watcher in the source, so no run continues after it.
- Request cancellation in the presentation cache.
- The time between sampling the clock and taking the lock in the rate limiter: calls are in clock order.
- Process spawning, signals, process groups, job objects, inotify and polling backends.
- Event classification (`event_scope`, `path_scope`) and ignore policies: an event arrives with its scope.
- The fields of one watched repository: a watch scope is its configuration, database and repository list, compared as
  a whole.
- Rendering of single Markdown blocks: blocks arrive as text. A fence character is one byte.
- ChunkedReaders.ReadBoundedLine reports on an error a length between the bound and the segment's length,
  because the source counts whole buffers up to the one that crossed the bound.
- CLI parsing, HTTP routing and headers, MCP tool wrappers, plugins, telemetry and freshness labels: they
  would only add easy members.
