# Verified core of the video media catalog

A Dafny model of the parts of the catalog where correctness is a matter of protocol rather than of
field copying, with machine-checked proofs of what those parts are for.

Three protocols carry most of the weight:

1. **The commit-last Silver writer.** `stage_and_commit` stores a run manifest, writes fifteen data
   tables by insert-only MERGE and publishes one commit marker last, and may be killed, raise or meet
   another writer at any database access.
   - `SilverStore` is the stored state: tables as append-only chains of tagged snapshots, run
     manifests, commit markers, the MERGE itself and the owned-snapshot check.
   - `WriterProtocol` is the protocol as an interleaved state machine: any number of writers, one
     access at a time, any of them stopping for good after any access.
   - `SilverWriter` says branch by branch what one call does under a script of MERGE fates;
     `SilverTables` is the writer object that does it step by step; `WriterRefinement` shows that every
     call, however interrupted, is a schedule of the state machine.
   - `WriterOverlap` says when submitters of one run wedge it. `WriterProgress`, `WriterResume`,
     `WriterRecovery` and `WriterIncremental` say when a call publishes, when an interrupted run recovers,
     alone and beside other runs, and that an incremental Identity run recognises its own publication.
     `WriterModes` says in terms of rows and tables alone what each kind of Identity write needs and stores.
   - `SilverReads` and `CommittedRuns` are the reading side: rows behind the commit fence and the
     digest of a committed-run set.
2. **Discovery and backfill of EIDR IDs.** `EidrPages`, `EidrDiscovery`, `EidrBackfill`,
   `EidrBackfillRun` and `EidrChain` take IDs through sharding, paging, publication, bounded batches,
   runs and chains of resumed runs, down to one simple meaning: each distinct ID looked up once, in
   (shard, ID) order. `RetryPacing` is the public provider behind the lookups.
3. **Connector publication.** `RecordShards` (greedy byte-bounded sharding), `RecordPartitions`
   (partitions in key namespaces and the flat record set), `RecordSetTree` (the three-level manifest
   tree), `CaptureWindows` (bounded windows over an inventory) and `CaptureCommits` (the watermark and
   receipt that commit a window, watermark first, as an interleaved protocol).

Beside them: `OaiHarvest` (the OAI-PMH resumption walk), `PlanEncoding` (the length-prefixed tuple
framing and the plan projection) and `SourceRemoval` (removal under arbitrary callback failure).
`Prelude` and `Ordering` hold shared result types, sorting and string order.

`dafny verify dfyconfig.toml` checks the whole project.

## What the code does not do

Five properties one might expect of the code are false, and the model keeps the code as it is:

- A run without an Identity generation that writes Identity rows cannot be resumed once its Identity
  tables are staged: the key preflight (`community_iceberg.py:642-667`) collides with the run's own
  rows. `WriterResume.RecoversIffNoIdentityRows` gives the exact condition,
  `WriterResume.IdentityRunCanStick` the failing script.
- Two overlapping submitters of one run can each pass both rounds of checks of a table before the other's MERGE.
  The table then has two tagged snapshots with rows of the run, and no later call can ever commit it
  (`WriterOverlap.OverlapCanWedge`, `WriterProtocol.WedgedRunNeverCommits`). It happens exactly if two MERGEs of the
  run into one table take effect (`WriterOverlap.WedgedIffTwoMerges`), and never without such an overlap
  (`WriterOverlap.SerialWritersNeverWedge`).
- A backfill run whose provider reports fewer retries than extra attempts, which `EidrExactLookupResult` allows,
  fails after the batch's watermark is already published. `EidrChain.FailsIffUnderreportedInReach` gives the exact
  condition, `EidrChain.SilentRetriesFail` a provider.
- The repeated-token check of the OAI-PMH harvest is per capture, so a chain of resumed captures need not end.
  `OaiHarvest.ChainsGoOnIffNoEnd` says for which sources it goes on, `OaiHarvest.CircleEscapesResumedCaptures` names
  one, and `OaiHarvest.RepeatStopsCapture` says when a single capture is stopped.
- A refused capture-window commit has already stored its source watermark, so a watermark need not belong
  to a committed window. `CaptureCommits.BackedIffSlotAgrees` gives the exact condition,
  `CaptureCommits.LosingWatermarkStays` an input.

## Assumptions

- SHA-256 and `deterministic_key` are injective. Where an identity is only compared, its hashed fields
  stand for it (a run ID is `RunKey` of the run); where bytes matter, the hash is a function parameter,
  and only the finitely many inputs of the statement at hand are asked not to collide.
- One Iceberg MERGE is atomic and serialisable, and a MERGE of a non-empty frame appends one tagged
  snapshot even when it inserts nothing.
- All submissions of one run carry the same merge keys for a table (`KeyPlan`, `CarriesPlan`, `Obeys`);
  a plan has as many keys as the run's counts say (`PlanFitsCounts`).
- Clocks, providers, HTTP responses, callbacks, page contents, byte sizes and crash points are
  parameters. Time is a real number.

## Model

| member | source | states |
|---|---|---|
| SilverStore.MergeRowsInserts | src/video_media_catalog/community_iceberg.py:275-290 | an insert-only MERGE keeps every stored row, adds exactly the missing keys, and each added row comes from the frame under its own key |
| SilverStore.OwnedSnapshots | src/video_media_catalog/iceberg.py:122-229 | the snapshots that carry a run's tag and some of its rows: all of them, no other, each once |
| SilverStore.OwnedWithinPlan | src/video_media_catalog/community_iceberg.py:1233-1244 | a run never owns more rows of a table than it has planned keys, and as many only if it owns exactly those |
| SilverStore.MergeKeepsGoodLog | src/video_media_catalog/community_iceberg.py:241-296 | one MERGE of a validated frame keeps every key unique in its table, under its owner's plan, and only appends to the snapshot chain |
| SilverTables.CommunityCatalogTables.InsertNewRows | src/video_media_catalog/community_iceberg.py:241-296 | the row-by-row insert has the effect of the MERGE on the one table it touches and reports the frame's distinct keys |
| SilverTables.CommunityCatalogTables.PrepareDataframes | src/video_media_catalog/community_iceberg.py:516-554 | the preparation loop gives each table its validated frame, reuses completed tables only where allowed, and fails on the first bad table |
| SilverTables.CommunityCatalogTables.StripExistingIdentityKeys | src/video_media_catalog/community_iceberg.py:556-640 | a counted Identity table without a frame is an error; otherwise the strip loop yields the rebuilt run, the re-owned frames and the foreign-owner verdict of the strip specification |
| SilverTables.CommunityCatalogTables.PreflightIdentityKeys | src/video_media_catalog/community_iceberg.py:642-667 | the preflight loop refuses with the first missing frame or key collision, and otherwise passes |
| SilverTables.CommunityCatalogTables.StageDataTable | src/video_media_catalog/community_iceberg.py:669-772 | staging changes its one table by at most one MERGE and ends as the specification says, for each fate of that MERGE |
| SilverTables.CommunityCatalogTables.EnsureRunManifest | src/video_media_catalog/community_iceberg.py:859-888 | no stored manifest is replaced and no other run's is touched; a conflict is reported exactly if another manifest is stored under the run's key, and success means that the run's own is stored |
| SilverTables.CommunityCatalogTables.SealRun | src/video_media_catalog/community_iceberg.py:405-442 | at most one marker is added, only for a run without one, and only over tables that each hold exactly the run's declared rows from the one snapshot it records; a published outcome is the stored marker |
| SilverTables.CommunityCatalogTables.StageAndCommit | src/video_media_catalog/community_iceberg.py:298-442 | the whole call leaves the catalog and returns the outcome that `Attempt` gives, under every script of fates |
| WriterProtocol.StepKeepsInvariant | src/video_media_catalog/community_iceberg.py:343-442 | every step of every writer, from submission through two rounds of checks per table to the marker, keeps the invariant: unique planned keys, true manifests, consistent private reads, fenced markers |
| WriterProtocol.CommitFenceHoldsForever | src/video_media_catalog/community_iceberg.py:343-442 | from an empty catalog, under every interleaving and all crash points, a marker implies its manifest and exactly its planned rows in every table, and still does after any continuation |
| WriterProtocol.WedgedRunNeverCommits | src/video_media_catalog/community_iceberg.py:774-820 | a run with two tagged snapshots of its rows in one table stays uncommitted under every continuation |
| WriterRefinement.DropKeysKeys | src/video_media_catalog/community_iceberg.py:602-613 | the left-anti join keeps exactly the rows whose keys are not reusable |
| WriterRefinement.StrippedFramesValid | src/video_media_catalog/community_iceberg.py:556-640 | stripped and re-owned frames pass the frame validation of the rebuilt run, though the code does not validate them again |
| WriterRefinement.AttemptIsSchedule | src/video_media_catalog/community_iceberg.py:298-442 | every call, interrupted anywhere, is a schedule of the interleaved protocol, with both rounds of checks before each MERGE |
| WriterRefinement.AttemptKeepsInvariant | src/video_media_catalog/community_iceberg.py:298-442 | hence every call keeps the commit fence and only grows the catalog |
| WriterRefinement.ReturnedCommitIsFenced | src/video_media_catalog/community_iceberg.py:343-442 | a commit returned on any path is the stored marker of a run whose every table is complete |
| WriterOverlap.MergeDoublesIff | src/video_media_catalog/community_iceberg.py:745-750 | a MERGE of own rows gives a table a second snapshot of the run exactly if one is there already |
| WriterOverlap.WedgedIffTwoMerges | src/video_media_catalog/community_iceberg.py:669-772 | over every schedule from an empty catalog a run has two such snapshots in a table if and only if two of its MERGEs into the table took effect |
| WriterOverlap.SecondMergeOverlaps | src/video_media_catalog/community_iceberg.py:705-721 | of two such MERGEs the later one is by another writer, which passed its last checks before the earlier one and waited at the table since |
| WriterOverlap.SerialWritersNeverWedge | src/video_media_catalog/community_iceberg.py:669-772 | writers of one run that never exist at the same time never wedge it, whatever other runs do |
| WriterOverlap.OverlapCanWedge | src/video_media_catalog/community_iceberg.py:705-749 | for every submission with source records that the code lets through on an empty catalog, two exact submitters can wedge the run, each past both rounds of checks before the other's MERGE |
| WriterProgress.AppendedSnapshotFound | src/video_media_catalog/iceberg.py:122-229 | the owned-snapshot check accepts exactly the snapshot that a first MERGE of new keys appends |
| WriterProgress.FoundAddedExactly | src/video_media_catalog/iceberg.py:122-229 | a found snapshot is the only one that the run tagged with rows, and what it added to its predecessor is exactly the run's rows, as many as expected |
| WriterProgress.PublishesIffKeysNew | src/video_media_catalog/community_iceberg.py:343-442 | an undisturbed write of a run with no rows yet publishes if and only if no incoming key is already stored |
| WriterResume.StageFromSucceeds | src/video_media_catalog/community_iceberg.py:397-403 | the staging loop completes when each table, on its own, can be staged |
| WriterResume.RetryPrepares | src/video_media_catalog/community_iceberg.py:516-554 | after any interrupted attempts a retry finds each table's frame again or finds the table complete |
| WriterResume.AttemptStaysPartway | src/video_media_catalog/community_iceberg.py:669-772 | an attempt interrupted anywhere leaves each table untouched or complete, and a marker only over complete tables |
| WriterResume.CrashResumeConverges | src/video_media_catalog/community_iceberg.py:343-442 | after any interrupted attempts one undisturbed retry ends with the rows, manifest and marker of a single undisturbed attempt, with at most one tagged snapshot per table |
| WriterResume.IdentityRunCanStick | src/video_media_catalog/community_iceberg.py:642-667 | with Identity rows and no generation, a crash before the marker makes every later retry fail and change nothing |
| WriterResume.RecoversIffNoIdentityRows | src/video_media_catalog/community_iceberg.py:642-667 | without a generation a publishable run recovers from every sequence of crashes if and only if it writes no Identity rows |
| WriterRecovery.SerialRunWritesOnce | src/video_media_catalog/community_iceberg.py:669-772 | beside any other runs, a run whose writers do not overlap writes each table at most once, in one snapshot that adds exactly its planned keys that nobody had |
| WriterRecovery.RetryPublishesBesideOthers | src/video_media_catalog/community_iceberg.py:343-442 | after any interleaving of other runs' writers with killed attempts of a run that do not overlap, an undisturbed retry publishes if and only if no other run owns a planned key of the run, and the run then owns exactly its planned keys |
| WriterIncremental.StripLosesNoKey | src/video_media_catalog/community_iceberg.py:578-613 | stored keys with the stripped keys are stored keys with the incoming keys |
| WriterIncremental.StrippedMergeIsExact | src/video_media_catalog/community_iceberg.py:578-613 | with no foreign owner the stripped frame is disjoint from the table and its MERGE adds exactly the rebuilt count |
| WriterIncremental.NoForeignOwnerNoCollision | src/video_media_catalog/community_iceberg.py:642-667 | when the strip reports no foreign owner the key preflight that follows cannot fail |
| WriterIncremental.StripRebuilds | src/video_media_catalog/community_iceberg.py:614-640 | the rebuilt run depends on the run, its keys and the pinned owners, not on row order or payloads |
| WriterIncremental.RetryRecognisesItself | src/video_media_catalog/community_iceberg.py:364-391 | over any later grown catalog the original submission rebuilds the same run ID and returns the published commit, writing nothing, though its rows are now owned outside the pinned lineage |
| WriterIncremental.RetryAfterAnyHistory | src/video_media_catalog/community_iceberg.py:364-391 | the same after any history of calls of other runs or of itself, however interrupted |
| WriterIncremental.CleanIncrementalPublishes | src/video_media_catalog/community_iceberg.py:364-442 | with current heads, no foreign owner and an unused rebuilt ID an undisturbed incremental call publishes the rebuilt run |
| WriterModes.OthersAreInvalid | src/video_media_catalog/community_iceberg.py:312-341 | a submission whose kind, generation, mode, counts, heads or lineage do not fit the writer, field by field, is refused without touching the catalog |
| WriterModes.CommittedIsReturned | src/video_media_catalog/community_iceberg.py:344-346 | a well-formed submission of a committed run is answered with the stored commit and writes nothing |
| WriterModes.FirstWritePublishesIff | src/video_media_catalog/community_iceberg.py:348-442 | a full or curation write publishes if and only if its run has left no trace, each table's rows are as declared with distinct primary keys, and the tables fit: pristine Identity tables for a full write; current heads and no stored incoming key for a curation. It then adds exactly the caller's rows, payloads included, with their manifest and commit; otherwise nothing is stored, however MERGEs end |
| WriterModes.StaleHeadsStoreNothing | src/video_media_catalog/community_iceberg.py:220-239 | if a pinned head is not the latest snapshot of some Identity table, nothing is stored and only an earlier commit can be returned, in every mode |
| WriterModes.IncrementalPublishesIff | src/video_media_catalog/community_iceberg.py:364-442 | an incremental write publishes if and only if its run has left no trace, its rows are as declared, and its rebuilt run is committed already, or has left no trace either while heads are current and every stored row with an incoming key belongs to the pinned lineage; it adds exactly the incoming rows with new keys, under the rebuilt run |
| WriterModes.CompleteRunNeedsNoRows | src/video_media_catalog/community_iceberg.py:536-545 | once every table of a shared run without Identity rows is complete, its next call publishes without frame or factory and writes no table |
| WriterModes.WedgedTableIsRefused | src/video_media_catalog/community_iceberg.py:774-820 | a table to which two snapshots added rows of a run is refused by every later call of that run, which leaves it as it is |
| SilverReads.PushdownPreservesRows | src/video_media_catalog/community_iceberg.py:1175-1208 | filtering rows and commits first and then semi-joining gives the rows of the plain join with deduplicated commits, filtered afterwards; only the empty filter is refused |
| SilverReads.ReadMultiplicity | src/video_media_catalog/community_iceberg.py:1175-1208 | a read returns each stored row as often as it is stored if its run is committed and, with a filter, named by it, and no other row; only the empty filter is refused |
| SilverReads.DuplicateCommitDoublesRows | src/video_media_catalog/community_iceberg.py:1180 | without the deduplication a run listed twice would show its rows twice |
| SilverReads.ReaderSeesWholeRuns | src/video_media_catalog/community_iceberg.py:1122-1208 | a read through the catalog's commits shows no row of an uncommitted run and, from a run's pinned snapshot on, exactly that run's planned keys |
| CommittedRuns.BuildCommittedRunDigest | src/video_media_catalog/community_snapshot.py:392-427 | the loop over sorted buckets accepts exactly unique two-digit buckets with positive counts, valid digests and the declared sum |
| CommittedRuns.AcceptedBuckets | src/video_media_catalog/community_snapshot.py:397-420 | accepted buckets have distinct names of two hex digits, positive counts with the declared sum, and well-formed digests |
| CommittedRuns.DigestShape | src/video_media_catalog/community_snapshot.py:397-420 | a digest is the prefix "sha256:" and 64 lower-case hex digits, and nothing else |
| CommittedRuns.HonestSummaryAccepted | src/video_media_catalog/community_iceberg.py:1018-1075 | for every hash that yields digests the summary succeeds exactly for valid, distinct run IDs; the bucket-sum check never rejects it |
| CommittedRuns.DigestDecidesSetEquality | src/video_media_catalog/community_iceberg.py:1043-1073 | equal run sets, in any row order, have one count and digest; equal counts and digests mean equal run sets, or two different inputs of this comparison that one hash maps to one digest |
| EidrPages.ValidateManifest | src/video_media_catalog/eidr_backfill.py:543-562 | the one-pass validator, which compares neighbours and per-shard last keys, decides the global property: contiguous ordinals, ordered pages, disjoint ranges, honest total |
| EidrPages.SelectLookupItems | src/video_media_catalog/eidr_backfill.py:1850-1913 | reads only the pages that overlap the range, succeeds exactly if those are stored, valid and as their pointers describe them, and returns the whole range |
| EidrPages.SelectionIsSlice | src/video_media_catalog/eidr_backfill.py:1885-1913 | a selection is a slice of the joined pages, wherever the page boundaries fall |
| EidrDiscovery.IterDiscoveredRows | src/video_media_catalog/eidr_backfill.py:634-658 | yields the sorted, deduplicated IDs, each with its shard and the page its position in the shard gives |
| EidrDiscovery.AcceptsExactlyIterated | src/video_media_catalog/eidr_backfill.py:753-779 | the publisher accepts a row list if and only if it is what the iterator yields for those IDs |
| EidrDiscovery.PublishDiscovered | src/video_media_catalog/eidr_backfill.py:685-809 | succeeds exactly for acceptable rows within the page, byte and manifest bounds, and then returns their manifest over stored pages |
| EidrDiscovery.PublishedManifestValid | src/video_media_catalog/eidr_backfill.py:780-789 | the manifest of accepted rows passes its own validator, every page reads back, and the pages list exactly the rows' IDs |
| EidrDiscovery.PublishedPagesAreFull | src/video_media_catalog/eidr_backfill.py:646-658 | within a shard published pages are numbered from zero without a gap, and every page that another one follows holds exactly the page size |
| EidrDiscovery.PageRoundTrip | src/video_media_catalog/eidr_backfill.py:634-809 | for any IDs, page size, start and limit the range read back is that slice of the (shard, ID)-sorted distinct IDs |
| EidrBackfill.ProviderResults | src/video_media_catalog/eidr_backfill.py:1980-2011 | succeeds exactly if the provider gives one valid, bounded result per requested ID and no other, and returns them in request order |
| EidrBackfill.OrderIsUnique | src/video_media_catalog/eidr_backfill.py:2008-2011 | there is only one such order, whatever order the provider answered in |
| EidrBackfill.RunExactLookupBatch | src/video_media_catalog/eidr_backfill.py:2075-2401 | succeeds exactly under the stated bounds, watermark, page, answer and record-shard conditions, and then commits the next range: a proper result for each of its IDs in order, their sums, and a capture exactly if an ID was found |
| EidrBackfill.ResumesOwnManifest | src/video_media_catalog/eidr_backfill.py:2561-2566 | a published watermark resumes its own manifest where its batch ended, and no other manifest |
| EidrBackfill.LookupsAccepted | src/video_media_catalog/eidr_backfill.py:1980-2011 | a provider that is a function of the ID always passes the answer checks and comes back as the lookups themselves |
| EidrBackfill.AllIdsDistinct | src/video_media_catalog/eidr_backfill.py:543-562 | a valid manifest over readable pages lists no ID twice, within a page or across pages |
| EidrBackfillRun.EntryValidIffBalanced | src/video_media_catalog/eidr_backfill.py:1586-1597 | a committed batch's run entry is valid if and only if its retries equal its attempts minus its items |
| EidrBackfillRun.BalancedIffEach | src/video_media_catalog/eidr_backfill.py:1594-1597 | the retry equation over a batch of valid results holds exactly if every single result has one retry per extra attempt |
| EidrBackfillRun.RunManifestAccepted | src/video_media_catalog/eidr_backfill.py:1692-1773 | a run's batches tile its range without repeats, stay within all bounds and add up, so its manifest passes the full validator |
| EidrBackfillRun.BatchesFillBounds | src/video_media_catalog/eidr_backfill.py:2599-2603 | after n batches a run stands n batch sizes past its start, cut off at the ID bound and at the end of the list |
| EidrBackfillRun.PlannedEndIsClosedForm | src/video_media_catalog/eidr_backfill.py:2576-2603 | the planned end is as many full batches as the batch bound and the clock allow, cut off at the ID bound and at the end of the list |
| EidrBackfillRun.BoundsAreTight | src/video_media_catalog/eidr_backfill.py:2508-2540 | the largest admissible parameters are accepted; more of any, or none of it, is refused |
| EidrBackfillRun.RunExactLookupManifest | src/video_media_catalog/eidr_backfill.py:2496-2714 | the run loop terminates, respects every bound, names the right stop reason and returns a valid manifest; when only retry accounting can fail it ends at its planned end, or right after publishing its first unbalanced batch |
| EidrChain.FunctionalProviderNeverFails | src/video_media_catalog/eidr_backfill.py:2576-2656 | with stored pages, a monotone clock and a provider that is a function of the ID, only retry accounting can stop a run |
| EidrChain.RunCountsResults | src/video_media_catalog/eidr_backfill.py:2632-2656 | found, not found, attempt, retry and rate-limit counts of a run are those of all results in its receipts together |
| EidrChain.PacedProviderBalances | src/video_media_catalog/eidr_backfill.py:1594-1597 | one retry per extra attempt balances every batch of every run |
| EidrChain.FailsIffUnderreportedInReach | src/video_media_catalog/eidr_backfill.py:2576-2656 | a run with a provider that is a function of the ID fails if and only if some ID within its planned range has a lookup with fewer retries than extra attempts; its watermark is published by then |
| EidrChain.SilentRetriesFail | src/video_media_catalog/eidr_backfill.py:973-996 | with a provider that reports two attempts and no retry, every run that starts a batch fails after publishing the batch's watermark |
| EidrChain.BackfillIsMapOfLookup | src/video_media_catalog/eidr_backfill.py:2568-2656 | for any IDs, page size and chain of runs, however batched, bounded and stopped, the joined receipts are the lookups of the first IDs in order, each once, and of all IDs on exhaustion |
| RetryPacing.EidrPublicProvider.Throttle | src/video_media_catalog/eidr_public_provider.py:427-436 | records one request, at least the minimum interval after the previous one, whatever the clock does in between |
| RetryPacing.EidrPublicProvider.RetryDelay | src/video_media_catalog/eidr_public_provider.py:438-449 | Retry-After is obeyed up to its bound; otherwise the wait lies within the cap |
| RetryPacing.EidrPublicProvider.BackoffDoubles | src/video_media_catalog/eidr_public_provider.py:446-449 | without Retry-After the first wait is the initial backoff and each later wait doubles the one before, up to the cap |
| RetryPacing.EidrPublicProvider.LookupOne | src/video_media_catalog/eidr_public_provider.py:308-416 | answers exactly if the first response that is not retried comes within the attempt bound and is an answer: found with its body, not found for a missing record or an alias; then retries are attempts minus one and every 429 met is counted. It gives up exactly after retryable responses only. Each attempt is one paced request, sent after the wait the response before it asked for |
| RetryPacing.EidrPublicProvider.LookupExact | src/video_media_catalog/eidr_public_provider.py:291-306 | a batch that answers meets the run batch's retry equation, with one request per attempt and at most the attempt bound per ID |
| RetryPacing.SpacedSpan | src/video_media_catalog/eidr_public_provider.py:427-436 | n requests span at least n - 1 minimum intervals |
| RecordShards.GreedyIsAdmissible | src/video_media_catalog/connector_publish.py:272-335 | the shards hold exactly the input records in order, none empty, each within the byte limit |
| RecordShards.GreedyIsOptimal | src/video_media_catalog/connector_publish.py:272-335 | no contiguous cut of the records within the limit uses fewer shards |
| RecordShards.GreedyIsMaximal | src/video_media_catalog/connector_publish.py:328-329 | a shard is closed only if the next record does not fit into it |
| RecordShards.ShardBoundIsExact | src/video_media_catalog/connector_publish.py:280-281 | the shard bound is met if and only if some admissible cut meets it |
| RecordShards.ShardBytesAreRecordLines | src/video_media_catalog/connector_publish.py:272-335 | the shard payloads, joined, are the bytes of all record lines |
| RecordShards.EnvelopeKeyIndex.Add | src/video_media_catalog/connector_publish.py:124-139 | a key is added once; a second insertion is reported |
| RecordShards.PublishEnvelopeShards | src/video_media_catalog/connector_publish.py:246-339 | the one-pass writer succeeds exactly when every record is bound, in its namespace, new and within the limit, the count is as declared and the greedy cut meets the shard bound; the uploaded objects, in order, are then the bytes of all record lines, and each shard entry names its own object, records and end keys |
| RecordPartitions.PublishPartition | src/video_media_catalog/connector_publish.py:342-420 | stores shards that hold the records' bytes and then the checkpoint bound to the batch, replaces nothing, reuses an identical replay and refuses a divergent one |
| RecordPartitions.ResumeFindsPublished | src/video_media_catalog/connector_publish.py:496-541 | a published partition is loaded again unchanged after any other publications, and refused for another batch, policy, acquisition or namespace or with any of its shards missing |
| RecordPartitions.FinalizePartitions | src/video_media_catalog/connector_publish.py:544-629 | succeeds exactly for contiguous, bound partitions with unique labels, prefix-free namespaces, distinct URIs and the declared count, and joins their shards in index order |
| RecordPartitions.FinalizesIff | src/video_media_catalog/connector_publish.py:559-601 | a list of partitions finalises exactly if in some order its indexes count from zero, all carry the batch's binding, labels differ, no record ID fits two namespaces, object URIs differ, and objects and records are as many as allowed and declared |
| RecordPartitions.PrefixFreeIffNoCommonId | src/video_media_catalog/connector_publish.py:571-579 | neither namespace is a prefix of the other exactly if no record ID can lie in both |
| RecordPartitions.FinalizeIgnoresOrder | src/video_media_catalog/connector_publish.py:559-562 | the order in which partitions are passed does not matter |
| RecordPartitions.LocalChecksGiveGlobalUniqueness | src/video_media_catalog/connector_publish.py:315-324 | per-partition key indexes, the namespace check and prefix-free namespaces make all envelope keys of the flat set distinct and put each record ID into one partition, whatever shard limit each partition had |
| RecordPartitions.PublishedPartitionsFinalize | src/video_media_catalog/connector_publish.py:559-601 | for published partitions only disjointness, the object limit and the declared count decide; their URIs never clash |
| RecordSetTree.ResolveRecordSet | src/video_media_catalog/community_cli.py:308-393 | accepts exactly the trees in which every level is present, valid, bound to the root, ordered and honestly totalled, and returns the flat shard list |
| RecordSetTree.AcceptedTreeIsBound | src/video_media_catalog/community_cli.py:318-352 | in an accepted tree every manifest at every level is stored, bound to the root and in order among its siblings, and every shard holds records |
| RecordSetTree.AcceptanceConservesTotals | src/video_media_catalog/community_cli.py:344-380 | an accepted tree has strictly increasing shard indexes and distinct URIs, and record, shard and byte totals and key bounds agree at all three levels |
| RecordSetTree.TreeRoundTrip | src/video_media_catalog/community_cli.py:308-393 | any strictly indexed list with unique URIs, cut into partitions and epochs in any way with honest totals, resolves back to exactly that list |
| CaptureWindows.PlanWindows | src/video_media_catalog/connector.py:308-372 | plans exactly for bounded unique keys, a positive limit and an ordered window, and yields the ceiling-division windows |
| CaptureWindows.PlansAreValid | src/video_media_catalog/connector.py:249-266 | every planned window passes the plan validator |
| CaptureWindows.ValidIffPlanned | src/video_media_catalog/connector.py:249-266 | a plan over its whole inventory is valid exactly if it is, but for its cursor, the window the planner gives to its index |
| CaptureWindows.PlanSelects | src/video_media_catalog/connector.py:338-372 | each planned window repeats its inventory and window, counts its place, selects its part of the tiling, and has a cursor that repeats what it selects |
| CaptureWindows.WindowsTileInventory | src/video_media_catalog/connector.py:338-372 | the windows, in order, are the inventory, each as long as its plan declares; none is empty or over the limit unless the inventory is empty |
| CaptureWindows.SelectWindow | src/video_media_catalog/connector.py:375-395 | returns the only plan when no cursor is given, the only plan with the cursor otherwise, and refuses every ambiguous or unknown choice |
| CaptureWindows.CursorSelectsItsWindow | src/video_media_catalog/connector.py:375-395 | cursors are distinct, so selecting with a window's cursor returns that window |
| CaptureWindows.EachKeyInOneWindow | src/video_media_catalog/connector.py:338-372 | a key falls into one window only |
| CaptureCommits.ControlStore.PublishCommit | src/video_media_catalog/connector_publish.py:766-798 | succeeds exactly for a receipt that is no failure, whose batch is stored and whose slot is free or already its own; says what every interrupted call leaves stored |
| CaptureCommits.ReceiptFenceHoldsForever | src/video_media_catalog/connector_publish.py:766-798 | under every interleaving of captures, stopped anywhere, a stored receipt lies in the slot of its window and implies its stored batch and a stored watermark with the same product, window, cursor, position, configuration, image and policy; the first receipt of a slot is never replaced |
| CaptureCommits.StoredPositionsAreBounded | src/video_media_catalog/connector.py:158-168 | no schedule stores a watermark with a reversed window, without a position, or with one outside its length bound |
| CaptureCommits.CallIsSchedule | src/video_media_catalog/connector_publish.py:766-798 | every call, interrupted anywhere, is a schedule of that interleaved protocol |
| CaptureCommits.RetryConverges | src/video_media_catalog/connector_publish.py:766-798 | after any interrupted calls one undisturbed retry leaves the objects of a single undisturbed call, and succeeds if and only if that one would |
| CaptureCommits.BackedIffSlotAgrees | src/video_media_catalog/connector_publish.py:783-793 | a call keeps every stored watermark backed by a receipt if and only if its slot is free or holds a receipt of the same watermark |
| CaptureCommits.LosingWatermarkStays | src/video_media_catalog/connector.py:510-521 | two captures of one window to its end under different configurations share a slot: the second is refused with its watermark already stored |
| CaptureCommits.PlannedWindowsAllCommit | src/video_media_catalog/connector.py:338-372 | unless cursor digests of the plan collide, its cursors give as many distinct receipt slots as windows, so each window commits its own receipt |
| OaiHarvest.CaptureWindow | src/video_media_catalog/europeana_oai.py:1287-1355 | a capture succeeds exactly if the bounds are valid, a resume watermark names this window, configuration, image and policy and a cursor, and some clean token walk from there stops at a page, record or list bound; it returns that walk, whose first page is the one the start token fetches, with its totals and the next token; a token met before is an error |
| OaiHarvest.ResumedCallsAreOneWalk | src/video_media_catalog/europeana_oai.py:1261-1297 | the pages and records returned by calls that are each resumed from the token the one before returned are those of one walk from the first page |
| OaiHarvest.ResumedCallsHarvestAll | src/video_media_catalog/europeana_oai.py:1261-1355 | if the last such call reports the end of the list, together they have harvested exactly what one walk over the whole list yields |
| OaiHarvest.FinishedWalkNeverRepeats | src/video_media_catalog/europeana_oai.py:1299-1355 | over a fixed token-to-page map a walk that reaches the end of the list fetches every token once |
| OaiHarvest.ChainIsWalk | src/video_media_catalog/europeana_oai.py:1176-1196 | the pages of any chain of captures, each resumed from the previous cursor, join to one walk |
| OaiHarvest.SplitHarvestIsOneHarvest | src/video_media_catalog/europeana_oai.py:1299-1355 | a chain that reaches the end has the pages and records of the one complete walk, each page fetched once |
| OaiHarvest.ChainsGoOnIffNoEnd | src/video_media_catalog/europeana_oai.py:1176-1196 | over a source that serves its pages, chains of captures of every length succeed if and only if no token walk reaches the end of the list |
| OaiHarvest.RepeatedTokenNeverEnds | src/video_media_catalog/europeana_oai.py:1299-1355 | a walk that comes back to a token it has used never reaches the end of the list |
| OaiHarvest.RepeatStopsCapture | src/video_media_catalog/europeana_oai.py:1351-1353 | a single capture whose bounds reach the page with a token met before always fails |
| OaiHarvest.CircleEscapesResumedCaptures | src/video_media_catalog/europeana_oai.py:1290 | two tokens in a circle are such a source: resumed captures succeed any number of times, while a capture that may take three pages fails |
| PlanEncoding.FrameFields | src/video_media_catalog/execution_contracts.py:158-170 | feeds exactly the framing of the fields, or refuses a field of 2^31 bytes or more |
| PlanEncoding.ParseRoundTrip | src/video_media_catalog/execution_contracts.py:158-170 | every framing can be read back, so the encoding determines the tuple |
| PlanEncoding.FrameBytes | src/video_media_catalog/execution_contracts.py:158-170 | a frame is the field's length in four bytes, most significant first, and the field |
| PlanEncoding.PartitionReadsBack | src/video_media_catalog/execution_contracts.py:700-715 | a partition descriptor is read back, field by field in the order of hashing, from its projection; numbers are decimal texts without leading zeros, flags the texts "true" and "false" |
| PlanEncoding.ProjectionReadsBack | src/video_media_catalog/execution_contracts.py:797-809 | the projection's three counted lists delimit themselves: request, input manifest, partition digests, dependencies, barriers and coverage are read back from it |
| PlanEncoding.PlanDigestDeterminesPlan | src/video_media_catalog/execution_contracts.py:797-809 | unless two of the finitely many inputs hashed for the two plans collide, the plans have one digest if and only if request, input manifest, partitions, dependencies, barriers and coverage are equal |
| SourceRemoval.BuildPlan | src/video_media_catalog/community_release.py:563-606 | builds a plan exactly when one with these inputs can pass the plan validator and an executable one is confirmed, and the plan it builds passes |
| SourceRemoval.ExecuteRemoval | src/video_media_catalog/gold_removal.py:23-88 | the callbacks are called in the planned order; a valid receipt is issued exactly if the rebuild callbacks return well-formed IDs, says COMPLETED exactly when every planned action succeeded, lists exactly the purged targets, the replacement IDs and what failed |
| SourceRemoval.FenceBeforeEverything | src/video_media_catalog/gold_removal.py:45-66 | nothing is purged or rebuilt before the fence is installed, each target is attempted exactly once and in order when purging starts, and rebuilds only follow success |

## Left out

- Spark, Iceberg SQL text, S3, SQLite, HTTP, XML and temporary files: only their effects are modelled (atomic MERGE, content-addressed objects, a uniqueness set, scripted responses, a monotone clock).
- SilverStore.OwnedSnapshots: does not model the rollback boundary and the current-ancestor filter, because the chain holds writer snapshots only and nothing here rolls one back.
- `rollback-failed-run` and snapshots without a run tag or made by compaction: the snapshot chain holds writer snapshots only.
- `preflight_snapshot_metadata`: it reads metadata and discards it.
- The order in which the strip reports foreign-owner tables: only whether there is one decides the call.
- Null and column checks of `_validate_run_frame`: frames are typed rows here.
- WriterResume.CrashResumeConverges: covers attempts of one run without calls of other runs in between, where the whole catalog converges; WriterRecovery.RetryPublishesBesideOthers covers other runs.
- WriterIncremental.RetryAfterAnyHistory: takes whole calls as history (WriterIncremental.RetryRecognisesItself takes any later catalog), and assumes that no different submission strips down to exactly the original run, and that resubmissions pin the same lineage.
- RunKey identity and generation compatibility tables: digests of the table mapping are not modelled.
- Complete-feed proofs, authorization evidence, object media types, sizes and timestamps of the EIDR batch: the run loop always passes no proof, and the rest are local checks on one value.
- EidrPages.SelectLookupItems: a pointer's object reference is taken to pin its content, so a download either fails or returns that content.
- EIDR discovery as a Spark frame (`eidr_backfill.py:812-896`): only the local iterator is modelled.
- URI, DNS-label, whitespace and credential text checks, and RFC 3339 parsing: single-value string rules.
- `DiscoveredEidrId.discovered_id`, envelope timestamps and other derived or copied fields.
- RetryPacing.EidrPublicProvider.Throttle: sleeping is taken to last at least as long as asked, and rounding of floating-point time is not modelled.
- The Europeana client's own retry loop and throttle: the same shape as the EIDR provider's.
- OaiHarvest.CaptureWindow: publishing the captured records, receipt and watermark after the loop goes through `RecordShards` and `CaptureCommits`, which are modelled on their own.
- `expand_eidr_source_silver_inputs` and the Silver epoch manifest validator: a filter over one list and checks on one value.
- `ReceiptSet` validation, plan request and semantic digests in `execution_contracts.py`: the same framing over other field lists.
- PlanEncoding.FrameFields: fields are UTF-8 bytes already; the encoding of text is not modelled.
- Empty and duplicate texts in the receipt's error list: failures are values here.
- Source mappers, registry constants, rights profiles, identity resolution, Gold transforms, Temporal workflows and command lines: field copying, plumbing, or code outside these protocols.
