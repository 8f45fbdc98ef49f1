# Verified model of the distributed file store

This project models the metadata, placement, caching and upload logic of the distributed file
store as Dafny classes and state machines, and proves what that logic guarantees for every input,
every schedule and every run. `dafny verify dfyconfig.toml` checks all of it.

The store cuts files into chunks addressed by their hash, places chunks on storage nodes with a
consistent hash ring, counts references from file versions to chunks, replicates and repairs
chunks, and puts caches in front of chunk reads and permission checks. One module models one
component:

- `ConsistentHashRing`, `RingMovement`, `RingHistory`, `VirtualNodes`: the placement ring; lookups
  against a plain clockwise reading, what one change of membership moves, what a ring remembers.
- `MetadataStore`, `ReferenceCounts`, `VersionManager`, `Conservation`, `ByteConservation`,
  `VersionNumbering`: the tables, the operations on versions, and the conservation of counts and bytes
  over whole runs. `RefcountInterleaving`, `SeparateCalls` and `SoloRuns` take the same operations one store
  call at a time, overlapping in any way, `CollectionInterleaving` together with garbage collection;
  `OverlappingPrunes` and `HarmfulSweeps` are runs that go wrong.
- `NodeSelection`, `QuorumWrite`, `ReplicaRepair`, `ReplicationService`: choosing nodes, writing to a quorum,
  verifying and repairing replicas under any pattern of failing calls.
- `UploadManager`: upload sessions. `ChunkManager`: cutting and reassembling.
- `CdnGateway`, `AccessControl`, `OverlappingChecks`, `CircuitBreaker`: the LRU chunk cache, the permission
  cache, with checks one at a time and overlapping with changes, the breaker.
- `Common`, `Collections`, `Sorting`, `Sums`: shared vocabulary.

How the outside world appears in the model: SHA-256 is a function parameter, and every claim that
needs it to be free of collisions says so; clocks are parameters of the calls; each call to a node or to the
tables is one step, and where calls may fail an oracle parameter, or the schedule, decides which do;
the chunk size, the cache capacity, the TTLs and the virtual node count are parameters; random
identifiers are drawn by the caller. Objects that the code updates in place are classes whose
methods are tied to functions of the old state; the theorems are about those functions and their runs. The main
operations also state their effect entry by entry, without those functions.

Where the code and its documentation disagree the model follows the code. The exact condition under which
the promise holds is proved, and a lemma gives a run or an input on which it fails:

- Requirement 3.4 asks that deleting a file lowers the counts of its chunks. `deleteFile` cascades over the
  versions without touching the counts; `Conservation.DeleteFileConserves` shows this is harmless exactly
  when the versions list no chunks, and `Conservation.DeletingBreaksCounts` is a run where it is not.
- Requirement 3.6 asks for accurate counts throughout. Finalizing an upload stores a version without counting
  it (`Conservation.FinalizeConserves`, `Conservation.FinalizingBreaksCounts`), and creating a version skips
  chunks without a row (`Conservation.CreateVersionConserves`, `Conservation.UnregisteredChunkBreaksCounts`);
  `Conservation.AlwaysConservedIffAllSafe` says which runs stay exact.
- Requirement 7.2 asks for sequential version numbers. The next number is the count of stored versions plus
  one, so it follows the latest exactly when no lower number was pruned
  (`VersionNumbering.NextFollowsLatestIff`). After a prune, creations succeed only up to the first number that
  is taken (`VersionNumbering.CreationsStopAtTaken`); a file pruned down to version 2 gets no other version
  until it is deleted (`VersionNumbering.PrunedToTwoStaysThere`). A reused number is the file's current version
  without being the highest, and the next prune may delete it (`VersionNumbering.PruneKeepsCurrentIff`,
  `VersionNumbering.PruneDeletesCurrent`).
- Prunes that overlap may take a count twice: two prunes of one file give up the chunks of a version that both
  list, and leave a count of zero for a chunk that a stored version lists (`OverlappingPrunes.TwoPrunesLoseCount`).
  For calls that overlap in any way the counts stay balanced exactly when no prune meets a zero count and each
  deletes under its key the chunks it gave up (`RefcountInterleaving.AlwaysBalancedIff`); that holds whenever no
  prune lists a version that another call in flight is counting or pruning (`SeparateCalls.ApartRunsAreEffective`).
- A garbage collection may take a chunk that a stored version lists. Between operations the condition against it
  is that each listed orphan still counts zero (`Conservation.StaleCollectConservesIff`,
  `Conservation.StaleListBreaksCounts`). While versions are being created or pruned a zero count is not enough,
  even on a fresh listing (`HarmfulSweeps.SweepDuringCreate`), and a sweep that deletes the copies but not the row
  leaves a chunk that a later version may list without any copy (`HarmfulSweeps.VersionWithoutCopy`). Every chunk
  that a stored version lists keeps its row and a copy exactly when each sweep hits a chunk with a zero count and
  nothing outstanding, and each version is inserted while its chunks have both
  (`CollectionInterleaving.AlwaysServedIff`).
- A session whose deletion failed after it was marked expired is never removed by any later cleanup
  (`UploadManager.ExpiredIsNeverCleaned`, `UploadManager.CleanupRemovesIff`,
  `UploadManager.FailedDeletionLeavesSession`).
- `replicateChunk` may return a location whose row could not be recorded (`QuorumWrite.LocationsRecordedIff`,
  `QuorumWrite.LocationWithoutRow`).
- Repair looks at a fixed number of candidates before it asks whether they are known, so it may stop short of
  three replicas (`ReplicaRepair.RepairReachesFactorIff`) although a usable node is left on the ring
  (`ReplicaRepair.RepairStopsShort`).
- A check that cannot read a replica counts it as corrupted, so the cleanup deletes an intact copy exactly when its
  check fails and its deletion succeeds (`ReplicaRepair.CleanupDestroysIff`). A repair loses every intact copy
  exactly when that holds for all of them (`ReplicaRepair.RepairLosesAllIff`), as for three intact copies whose
  checks all fail (`ReplicaRepair.FailedChecksDestroyCopies`).
- The CDN cache may serve a chunk that the origin has lost or changed (`CdnGateway.StaleHit`). An answer is what the
  origin has exactly when no live entry gives it or what was fetched last is still current
  (`CdnGateway.AnswerIsExactIff`), and it is never older than one TTL (`CdnGateway.AnswersAreRecent`).
- A check in flight during a revocation may cache an answer that no longer holds
  (`OverlappingChecks.RevocationOvertaken`). With no change under way a cached answer is wrong exactly when its
  check had read the rows before a change that altered the answer, and cached it after
  (`OverlappingChecks.StaleIffStraddled`).
- Two nodes that collide on a point make the ring depend on the order of adds
  (`RingHistory.AddOrderIrrelevantIff`, `RingHistory.AddRemoveRestoresIff`, `RingHistory.CollidingAddsDiffer`).
- A breaker with a threshold below 1 starts closed all the same (`CircuitBreaker.ClosedMeansBelowIff`,
  `CircuitBreaker.UnusedBreakerIsClosed`).

Permission cache keys join user and file with a colon. They tell all questions apart because file ids are UUIDs
(docker/init-db.sql:105), which have no colons; `AccessControl.KeysAgreeIff` says what the keys tell apart without
that, and `AccessControl.ColonsCollide` that they would not tell all questions apart.

## Model

| member | source | states |
|---|---|---|
| `ConsistentHashRing.HashRing.AddNode` | src/consistent-hash-ring.ts:29-45 | the node owns exactly the points of its virtual nodes 0 to count - 1 besides what it had, a count of 0 standing for the default; all other points keep their owner, and the sorted keys stay in step |
| `ConsistentHashRing.HashRing.RemoveNode` | src/consistent-hash-ring.ts:52-71 | exactly the points the node owns go, the others keep their owner |
| `ConsistentHashRing.HashRing.Clear` | src/consistent-hash-ring.ts:201-205 | the ring is empty again |
| `ConsistentHashRing.HashRing.FindStartIndex` | src/consistent-hash-ring.ts:124-149 | the binary search ends at the first point not below the target, or at 0 when all are below |
| `ConsistentHashRing.HashRing.GetNodes` | src/consistent-hash-ring.ts:81-115 | the walk returns the first count entries of the distinct owners read clockwise, on every valid ring, colliding points and empty ids included; they are distinct members |
| `ConsistentHashRing.RotationIsClockwise` | src/consistent-hash-ring.ts:94-110 | starting at the search result and wrapping reads all points from the least one at or after the hash, then the smaller ones |
| `ConsistentHashRing.ClockwiseNodesFacts` | src/consistent-hash-ring.ts:90-114 | the clockwise list names every owner of a point exactly once |
| `ConsistentHashRing.LookupIsNearestFirst` | src/consistent-hash-ring.ts:81-115 | a lookup has the smaller of count and the number of nodes, and each node in it has a point that comes, clockwise from the hash, before every point of every node not returned by then |
| `Sorting.LexLessAt` | src/consistent-hash-ring.ts:124-149 | hashes are compared at their first difference, and a proper prefix comes first |
| `RingMovement.RemovalOnlyDeletesNode` | src/consistent-hash-ring.ts:52-71 | after a removal the full clockwise order is the old one with the node deleted |
| `RingMovement.RemovalMovesOnlyNode` | src/consistent-hash-ring.ts:52-115 | every lookup keeps its other nodes in order and gains at most one in place of the removed node |
| `RingMovement.AdditionMovesOnlyNode` | src/consistent-hash-ring.ts:29-115 | after a fresh collision-free add, deleting the node gives the old order back; a lookup loses at most its last node, and changes only if the new node is in it |
| `RingHistory.HistoryIndependence` | src/consistent-hash-ring.ts:29-71 | runs without collisions that end with the same members and largest counts end in the same ring and answer every lookup alike |
| `RingHistory.AddOrderIrrelevantIff` | src/consistent-hash-ring.ts:36-41 | two adds commute exactly when the nodes share no point |
| `RingHistory.AddRemoveRestoresIff` | src/consistent-hash-ring.ts:29-71 | a fresh add followed by a removal restores the ring exactly when the add took over no point |
| `RingHistory.CollidingAddsDiffer` | src/consistent-hash-ring.ts:36-41 | with two nodes on one point the order of adds decides which of them every lookup finds |
| `RingHistory.LookupLength` | src/consistent-hash-ring.ts:81-115 | without collisions a lookup returns min(count, number of nodes) distinct members |
| `VirtualNodes.VirtualNodeIdInjective` | src/consistent-hash-ring.ts:37 | a virtual node identifier determines its node and its number |
| `VirtualNodes.DecimalValue` | src/consistent-hash-ring.ts:37 | the number written into an identifier reads back as itself, in digits and without leading zeros |
| `VirtualNodes.DigestCollisionFree` | src/consistent-hash-ring.ts:37-40 | a digest without collisions on the identifiers in play keeps the nodes' points apart |
| `MetadataStore.Store.CreateFileVersion` | src/metadata-store.ts:145-160 | the insert fails on a taken key or a missing file, and then changes nothing |
| `MetadataStore.Store.DeleteFile` | src/metadata-store.ts:133-136 | the file goes, by the cascade exactly its versions go, and no count changes |
| `MetadataStore.Store.ListFileVersions` | src/metadata-store.ts:171-175 | exactly the numbers under which the file has a version, each once, descending |
| `MetadataStore.Store.CreateChunk` | src/metadata-store.ts:183-197 | inserts or leaves the existing row alone |
| `MetadataStore.Store.GetOrphanedChunks` | src/metadata-store.ts:246-250 | exactly the chunks that count zero |
| `VersionManager.DeduplicationEngine.IncrementReference` | src/deduplication-engine.ts:55-64 | raises the count by one, or refuses a chunk without a row |
| `VersionManager.DeduplicationEngine.DecrementReference` | src/deduplication-engine.ts:73-89 | lowers the count by one, or refuses a missing row or a zero count |
| `VersionManager.Manager.CreateVersion` | src/version-manager.ts:22-77 | the insert decides; on success the version stored has the list as given, its size and the clock, under the number after the count, the file points at it, and each registered chunk gains its multiplicity in the list; otherwise nothing changes |
| `VersionManager.Manager.PruneVersions` | src/version-manager.ts:122-148 | a version of the file goes exactly when it was created more than retentionDays times 86400000 milliseconds ago and a higher-numbered version is stored; the others stay as they are, the number of those gone is returned, and each count falls by their occurrences, never below zero |
| `VersionManager.BackgroundJobs.GarbageCollect` | src/background-jobs.ts:63-86 | a chunk row goes exactly when it counts zero and its deletion succeeds, its replica rows with it; a copy on a node goes exactly when the chunk counts zero and that deletion succeeds; the number of rows removed is returned |
| `ReferenceCounts.OccurrencesZeroIff` | src/deduplication-engine.ts:97-99 | a chunk occurs zero times exactly when no stored version lists it |
| `ReferenceCounts.PruneTwiceIsOnce` | src/version-manager.ts:122-148 | pruning again at the same clock finds nothing and changes nothing |
| `ReferenceCounts.PruneKeepsLatest` | src/version-manager.ts:126-132 | the highest-numbered version survives, so no history is emptied |
| `Conservation.CreateVersionConserves` | src/version-manager.ts:42-60 | creating a version keeps counts equal to occurrences exactly when the insert fails or every listed chunk has a row |
| `Conservation.FinalizeConserves` | src/upload-manager.ts:218-242 | finalizing an upload keeps the counts exactly when it stores no version or an empty list |
| `Conservation.DeleteFileConserves` | src/metadata-store.ts:133-136 | deleting a file keeps the counts exactly when its versions list nothing |
| `Conservation.RegisterConserves` | src/metadata-store.ts:183-197 | registering a chunk keeps the counts exactly when it is already there or starts at zero |
| `Conservation.PruneConserves` | src/version-manager.ts:131-144 | pruning keeps the counts and takes off exactly the occurrences of the deleted versions |
| `Conservation.CollectConserves` | src/background-jobs.ts:63-86 | collection keeps the counts, deletes no chunk a stored version lists, and leaves no zero count when no deletion fails |
| `Conservation.CollectKeepsCopies` | src/background-jobs.ts:69-76 | no copy of a listed chunk is swept from any node |
| `Conservation.StaleCollectConservesIff` | src/background-jobs.ts:64-79 | with nothing in flight, deleting an outdated list of orphans keeps the counts exactly when each still counts zero |
| `Conservation.DeletingBreaksCounts` | src/metadata-store.ts:133-136 | a run that creates a version and deletes its file ends with a count no version accounts for |
| `Conservation.FinalizingBreaksCounts` | src/upload-manager.ts:218-242 | a run that finalizes an upload ends with a version no count accounts for |
| `Conservation.UnregisteredChunkBreaksCounts` | src/version-manager.ts:53-60 | a run that creates a version of an unregistered chunk ends with a listed chunk without a row |
| `Conservation.StaleListBreaksCounts` | src/background-jobs.ts:64-79 | a chunk listed as an orphan and then used by a version is deleted from under it |
| `Conservation.AlwaysConservedIffAllSafe` | src/version-manager.ts:22-148 | counts equal occurrences at every point of a run exactly when every operation in it was safe when it ran |
| `ByteConservation.DoubleCounting` | src/deduplication-engine.ts:163-167 | summing bytes chunk by chunk or version by version gives the same total |
| `ByteConservation.RunConservesBytes` | src/version-manager.ts:31-50 | in every safe run, size times count summed over chunks is the recorded size summed over stored versions |
| `ByteConservation.RatioAfterRun` | src/deduplication-engine.ts:158-174 | the reported ratio is stored-version bytes over unique bytes, 1 when there are no bytes, and at least 1 right after a collection without failures |
| `VersionNumbering.NextFollowsLatestIff` | src/version-manager.ts:27-29 | the next number is the latest plus one exactly when the stored numbers are 1 to n |
| `VersionNumbering.CreationsStopAtTaken` | src/version-manager.ts:27-50 | in every run that neither prunes nor deletes the file, creations succeed, one number after the other, exactly until the first taken number, and none after it |
| `VersionNumbering.PrunedPrefixBlocksIff` | src/version-manager.ts:27-50 | with numbers p+1 to n left, p at least 1, the next creation has no effect exactly when 2p <= n |
| `VersionNumbering.PruneCanBlockForEver` | src/version-manager.ts:27-50 | a file left with version 2 alone keeps exactly that version in every run that does not delete it |
| `VersionNumbering.PrunedToTwoStaysThere` | src/version-manager.ts:22-148 | creating two versions and pruning reaches that state, and every run from there stays in it until the file is deleted |
| `VersionNumbering.PruneKeepsCurrentIff` | src/version-manager.ts:122-148 | pruning keeps the file's current version exactly when it is the highest-numbered or not older than the cutoff |
| `VersionNumbering.PruneDeletesCurrent` | src/version-manager.ts:22-148 | a run after which the file's current version is one that pruning deleted |
| `VersionNumbering.VersionsAreSequential` | src/version-manager.ts:27-50 | in every run that does not prune the file its versions are numbered 1 to n and the next number is free |
| `RefcountInterleaving.AlwaysBalancedIff` | src/version-manager.ts:42-60 | for calls overlapping in any way, on one file or several: count plus increments to come plus decrements made for versions not yet deleted equals the occurrences at every moment exactly when every prune finds a positive count to decrement and deletes under its key the chunks it gave up |
| `RefcountInterleaving.StepBalancedIff` | src/deduplication-engine.ts:55-89 | the same for one store call |
| `RefcountInterleaving.QuiescentIsConserved` | src/version-manager.ts:131-144 | with nothing in flight the counts are exact exactly when they are balanced |
| `SeparateCalls.BeginPruneApartIff` | src/version-manager.ts:123-132 | a prune keeps the calls in flight on versions of their own exactly when none of them is at work on a version it lists |
| `SeparateCalls.ApartRunsAreEffective` | src/version-manager.ts:131-144 | in runs of calls kept apart in that way every step is effective and the counts stay balanced |
| `SeparateCalls.InterleavedConservation` | src/version-manager.ts:42-60 | at every moment of such runs the balance holds and no count is negative |
| `SeparateCalls.NoUpdateRefused` | src/deduplication-engine.ts:55-89 | in such runs no decrement ever meets a missing row or a zero count and no increment is swallowed |
| `OverlappingPrunes.TwoPrunesLoseCount` | src/version-manager.ts:122-148 | a run of two creations and two overlapping prunes that ends with a zero count for a chunk a stored version lists |
| `CollectionInterleaving.AlwaysServedIff` | src/background-jobs.ts:63-86 | in every interleaving of calls kept apart with collections, every chunk that a stored version lists keeps its row and a copy throughout exactly when each sweep that deletes either hits an idle chunk and each insert finds both for its chunks |
| `CollectionInterleaving.AlwaysRegisteredIff` | src/background-jobs.ts:63-86 | the rows of listed chunks and of those a version about to be inserted names stay throughout exactly when each sweep hits an idle chunk that no such version names |
| `CollectionInterleaving.UnlistedIff` | src/deduplication-engine.ts:97-99 | a chunk is listed by no stored version exactly when its count, the increments to come and the decrements made early are all zero |
| `CollectionInterleaving.SweepKeepsRegisteredIff` | src/background-jobs.ts:67-79 | the condition on rows for one sweep in any state of such runs |
| `CollectionInterleaving.CollectedConservation` | src/background-jobs.ts:63-86 | in such runs the balance of counts, outstanding updates and occurrences holds at every moment, collections included |
| `CollectionInterleaving.CollectAlone` | src/background-jobs.ts:63-86 | the listing and the sweeps, run with nothing in between, remove exactly the rows and copies that the collection run as one step does |
| `CollectionInterleaving.QuietUnusedIff` | src/background-jobs.ts:63-86 | with nothing in flight a zero count suffices |
| `HarmfulSweeps.SweepDuringCreate` | src/version-manager.ts:42-60 | a run in which a freshly listed chunk that counts zero is swept while a stored version lists it |
| `HarmfulSweeps.VersionWithoutCopy` | src/background-jobs.ts:69-78 | a run without overlap that ends with a stored version listing a registered chunk without a copy |
| `SoloRuns.CreateAloneIsCreated` | src/version-manager.ts:22-77 | the call-by-call form of creating a version, run alone, ends where the atomic one does |
| `SoloRuns.PruneAloneIsPruned` | src/version-manager.ts:122-148 | the call-by-call form of pruning, run alone, ends where the atomic one does |
| `NodeSelection.FirstPass` | src/replication-service.ts:127-145 | the first pass takes the first node of each zone, up to count |
| `NodeSelection.SecondPass` | src/replication-service.ts:148-165 | the second pass adds the other nodes in order, up to count |
| `NodeSelection.SelectionSize` | src/replication-service.ts:122-167 | the selection is min(count, active candidates) distinct candidates |
| `NodeSelection.SelectionZones` | src/replication-service.ts:122-167 | it spans min(count, zones present) zones |
| `NodeSelection.SelectionIsZoneOptimal` | src/replication-service.ts:122-167 | no choice of that many of the same candidates spans more zones |
| `NodeSelection.ActiveNodesAre` | src/replication-service.ts:113-120 | the filter keeps exactly the candidates that are registered and active, as many nodes and zones as there are of them |
| `NodeSelection.SelectionPrefersRingOrder` | src/replication-service.ts:122-167 | an active candidate is passed over for a later one only if an earlier active candidate is in its zone and none is in that of the later one |
| `ReplicationService.Service.SelectStorageNodes` | src/replication-service.ts:104-168 | over the candidates from the ring that are registered and active: the smaller of count and their number, in the smaller of count and their zones, distinct, none left out unless the selection is full, and none passed over against ring order except for its zone |
| `QuorumWrite.QuorumIsDurable` | src/replication-service.ts:48-93 | for every schedule and failure pattern, a call that returns leaves at least two distinct selected nodes with the data and a row, and returns exactly the distinct nodes whose write succeeded |
| `QuorumWrite.QuorumFailsIff` | src/replication-service.ts:86-91 | the quorum error means that three or more nodes were selected and fewer than two completed write and record; fewer than three selected is the other error |
| `QuorumWrite.QuorumFailsBySchedule` | src/replication-service.ts:86-91 | the same read off the schedule: fewer than two known selected nodes whose first write to settle succeeded and whose recording after it did |
| `QuorumWrite.RowsFollowSchedule` | src/replication-service.ts:57-78 | rows are added exactly for the nodes that complete, and locations are exactly those whose first write to settle succeeded |
| `QuorumWrite.DisksFollowSchedule` | src/replication-service.ts:55-80 | a disk holds the data after a first write that succeeded, what a failed one left or what was there before, and is untouched on nodes not written to |
| `QuorumWrite.LocationsRecordedIff` | src/replication-service.ts:57-78 | every returned location has a row exactly when, for each known selected node without a row before, the schedule does not let the recording fail after the write succeeded |
| `QuorumWrite.LocationWithoutRow` | src/replication-service.ts:57-78 | a schedule after which three locations are returned and two have a row |
| `ReplicationService.Service.ReplicateChunk` | src/replication-service.ts:34-94 | refused without effect exactly when fewer than three of the six nearest candidates are registered and active; otherwise three of them in as many zones as possible are written to, the rows and locations are those of the schedule, and a call that returns leaves at least two ring nodes with data and row, with locations that are known active ring nodes holding the data; everything else is untouched |
| `ReplicationService.Service.VerifyReplicas` | src/replication-service.ts:176-208 | under any failures a node with a row is reported exactly when it is unknown, its check fails, it has no copy, or the digest of its copy is not the chunk hash; the counts add up |
| `ReplicationService.Service.RemoveCorrupted` | src/replication-service.ts:219-229 | under any failures exactly the reported copies and rows whose calls succeed go, a row only if deleting its copy did not throw |
| `ReplicationService.Service.ReadHealthy` | src/replication-service.ts:238-257 | the bytes of a replica that was not reported and can be read, or nothing when there is none |
| `ReplicationService.Service.WriteReplicas` | src/replication-service.ts:274-293 | under any failures what each write leaves, and a row exactly where write and record succeed on a known node |
| `ReplicationService.Service.ReReplicate` | src/replication-service.ts:215-294 | the exact outcome under every pattern of failing calls: when the call returns; exactly which nodes have a row afterwards; every row added, and where no removal fails every row left, is on a known node whose copy has the chunk hash as its digest; checked replicas with the right digest keep row and copy; other chunks are untouched |
| `ReplicaRepair.CleanupDestroysIff` | src/replication-service.ts:188-229 | after the cleanup an intact copy with a row is gone exactly when its node is known, its check failed and its deletion succeeded |
| `ReplicaRepair.RepairLosesAllIff` | src/replication-service.ts:215-294 | a repair that lists the replicas loses every intact copy with a row exactly when that holds for each of them, and then it throws |
| `ReplicaRepair.RepairLosesGoodIff` | src/replication-service.ts:215-294 | the same for replicas on known nodes, copy and row: none is left exactly when every check fails and every deletion succeeds |
| `ReplicaRepair.FailedChecksDestroyCopies` | src/replication-service.ts:188-229 | three intact copies whose checks all fail are all deleted and the repair throws |
| `ReplicaRepair.HealthyStay` | src/replication-service.ts:215-294 | whatever fails, a replica whose check came back positive keeps its copy and row through the whole repair |
| `ReplicaRepair.NewRowsAreIntact` | src/replication-service.ts:274-289 | whatever fails, every row the repair writes is on a known node with an intact copy |
| `ReplicaRepair.RepairLeavesOthers` | src/replication-service.ts:215-294 | whatever fails, copies and rows of other chunks are untouched |
| `ReplicaRepair.RepairedRowsAreGood` | src/replication-service.ts:215-294 | after a repair every row, other than one of a reported replica that could not be removed, names a known node with an intact copy; without failures every row does |
| `ReplicaRepair.RepairReachesFactorIff` | src/replication-service.ts:266-293 | whatever fails, a repair with something to copy from and fewer than three healthy replicas reaches three rows besides those exactly when enough candidates were free and each one it turned to is known, registered and takes its copy and row |
| `ReplicaRepair.RowsAfterIff` | src/replication-service.ts:215-294 | whatever fails, a node has a row afterwards exactly when it kept its own, or the repair copied, turned to it in ring order within the number needed, and it is known, registered and took its copy and row |
| `ReplicaRepair.RepairStopsShort` | src/replication-service.ts:266-278 | a ring of four nodes on which a repair stops at two rows though a known and registered node is free |
| `ReplicaRepair.RepairRestores` | src/replication-service.ts:215-294 | without failures, with an intact replica and three ring nodes, all known and registered, at least three rows remain and all are intact |
| `ReplicaRepair.RepairIsIdempotent` | src/replication-service.ts:231-235 | where three rows remain and all are intact and checked, repairing changes nothing |
| `ReplicaRepair.RingOffersCandidates` | src/consistent-hash-ring.ts:81-115 | a ring of three nodes offers at least three distinct candidates from the ring |
| `UploadManager.Manager.CreateSession` | src/upload-manager.ts:35-73 | an active session that expires 604800000 milliseconds later, or a refusal without effect for a taken id |
| `UploadManager.Manager.ResumeSession` | src/upload-manager.ts:80-115 | succeeds exactly for active sessions in time, returns exactly the accepted sequence numbers, and gives each error exactly in its case |
| `UploadManager.Manager.MarkChunkUploaded` | src/upload-manager.ts:123-153 | each rejection exactly in its case and order; otherwise the row is added under the first hash for the slot |
| `UploadManager.Manager.IsUploadComplete` | src/upload-manager.ts:160-173 | the answer is yes exactly when every sequence number from 0 to n-1 has a row |
| `UploadManager.CompleteMeansAllReceived` | src/upload-manager.ts:144-172 | as many rows as chunks exactly when all numbers from 0 to n-1 are received |
| `UploadManager.FinalizedList` | src/upload-manager.ts:231-233 | the finalized list has one entry per chunk, entry i being the hash received for i |
| `UploadManager.FinalizedListIsFirstHashes` | src/upload-manager.ts:144-242 | entry i is the hash of the first accepted attempt for i |
| `UploadManager.FinalizationIgnoresOrder` | src/upload-manager.ts:123-242 | orders and retry patterns with the same first hashes finalize the same list |
| `UploadManager.ConsistentUploadsFinalizeContent` | src/upload-manager.ts:123-242 | a client that always sends the right hashes gets its own list, in whatever order it sent them |
| `UploadManager.Manager.FinalizeUpload` | src/upload-manager.ts:180-248 | each error in the code's order; on success version 1 lists for each sequence number the hash received for it, with their summed sizes and the clock, the file belongs to the session's user and points at it, the session is completed, and nothing else changes |
| `UploadManager.StepLifecycle` | src/upload-manager.ts:123-274 | no operation returns a session to active, completed sessions are frozen, rows are never lost or replaced, and only an accepted chunk of an active session in time adds one |
| `UploadManager.SessionOverRun` | src/upload-manager.ts:123-274 | the same over whole runs, as long as the session is there |
| `UploadManager.CompletedIsFrozen` | src/upload-manager.ts:135-137 | over every run a completed session stays, with its rows, as it is |
| `UploadManager.CleanupIsExact` | src/upload-manager.ts:253-274 | cleanup without failures removes exactly the active sessions past expiry, with their rows |
| `UploadManager.CleanupRemovesIff` | src/upload-manager.ts:253-274 | under any failures a session past expiry is removed exactly when it is still active and its two calls succeed |
| `UploadManager.ExpiredIsNeverCleaned` | src/metadata-store.ts:436-440 | over every run a session that is no longer active stays, inactive and with its rows; no cleanup removes it |
| `UploadManager.FailedDeletionLeavesSession` | src/upload-manager.ts:260-273 | one failed deletion leaves the session through every run that follows, where a deletion that succeeds removes it |
| `UploadManager.Manager.CleanupExpiredSessions` | src/background-jobs.ts:91-107 | the loop under any failures: a session goes, with its rows, exactly when it is active, past expiry and its calls succeed; one whose deletion alone fails is left expired; the number removed is returned |
| `ChunkManager.ChunkFile` | src/chunk-manager.ts:22-54 | describes the slices of the buffer, in order; `ChunkManager.DescribedAt` says what each record holds |
| `ChunkManager.ChunkFileStream` | src/chunk-manager.ts:112-163 | for every fragmentation describes the slices of the whole; a broken stream yields nothing |
| `ChunkManager.DescribedAt` | src/chunk-manager.ts:33-51 | record i carries the number i, the digest and the length of the bytes from i times the chunk size up to one chunk size later or the end |
| `ChunkManager.SliceSizes` | src/chunk-manager.ts:33-45 | all slices but the last have the chunk size, the last is not empty and not larger |
| `ChunkManager.SliceCount` | src/chunk-manager.ts:33-51 | there are as many slices as the size over the chunk size, rounded up |
| `ChunkManager.ConcatSlices` | src/chunk-manager.ts:33-51 | the slices put together are the file |
| `ChunkManager.AssemblyStream.Read` | src/chunk-manager.ts:175-184 | one chunk after the other, then the end |
| `ChunkManager.Assemble` | src/chunk-manager.ts:172-185 | a reader of the stream gets the chunks concatenated |
| `ChunkManager.RoundTrip` | src/chunk-manager.ts:22-185 | cutting and assembling is the identity, and cutting again gives the same metadata |
| `CdnGateway.Gateway.FindLeastRecent` | src/cdn-gateway.ts:128-135 | the scan finds an entry that no other was used before |
| `CdnGateway.Gateway.PutCache` | src/cdn-gateway.ts:125-144 | makes room when full, then stores the entry with its expiry |
| `CdnGateway.Gateway.GetChunk` | src/cdn-gateway.ts:36-46 | a live entry answers and is renewed; otherwise the origin's bytes of that moment, for 64 lower-case hexadecimal digits, answer and are stored for one TTL, or the request fails and stores nothing; other entries stay, except that a full cache gives up one that was used no later than the rest; capacity is kept |
| `CdnGateway.Gateway.GetChunkRange` | src/cdn-gateway.ts:64-82 | exactly the bytes startByte to endByte of what a request answers, or the first applicable error, each exactly in its case |
| `CdnGateway.CapacityIsKept` | src/cdn-gateway.ts:127-137 | in every history the cache stays within capacity and never holds the key that eviction skips |
| `CdnGateway.AnswersAreRecent` | src/cdn-gateway.ts:36-46 | while the nodes change in any way, an answer is what the origin has then, or had at an earlier request for the chunk at most one TTL ago, and a request fails only when the origin has nothing then |
| `CdnGateway.AnswerIsExactIff` | src/cdn-gateway.ts:36-46 | in every history an answer is what the origin has then exactly when no live entry gives it, or what was last fetched of the chunk is what the origin has then |
| `CdnGateway.RecentAnswerIsExactIff` | src/cdn-gateway.ts:36-46 | within one TTL: exactly when the hash is not among the most recently answered ones up to capacity, or what was last fetched is current |
| `CdnGateway.FixedOriginIsExact` | src/cdn-gateway.ts:36-46 | while the origin keeps what it has of a chunk, its requests are answered as if there were no cache |
| `CdnGateway.StaleHit` | src/cdn-gateway.ts:37-38 | a history in which a chunk is served after the node lost it |
| `CdnGateway.Gateway.InvalidateCache` | src/cdn-gateway.ts:51-58 | drops exactly the chunks registered for the version, and the registration |
| `CdnGateway.CacheHoldsMostRecent` | src/cdn-gateway.ts:114-144 | with a strictly increasing clock and no expiry, after any requests, failed ones among them, the cache holds exactly the most recently answered distinct hashes, up to capacity |
| `CdnGateway.EvictsLeastRecentlyRequested` | src/cdn-gateway.ts:125-137 | whatever leaves the cache in such a run was the least recently answered hash in it |
| `AccessControl.KeysAgreeIff` | src/access-control.ts:33 | cache keys agree exactly when the operations do and user and file join to the same text |
| `AccessControl.KeyInjective` | src/access-control.ts:33 | without colons in file ids a key determines its question |
| `AccessControl.ColonsCollide` | src/access-control.ts:33 | with colons in file ids two questions may share a key |
| `AccessControl.Control.CheckPermission` | src/access-control.ts:28-61 | the cached answer while it lives; otherwise no for a file without a row, yes for its owner, and for others read with a Read row, write and share with a Write row, delete with a Delete row, and that answer is cached for 300000 milliseconds |
| `AccessControl.Control.GrantPermission` | src/access-control.ts:67-90 | only the owner of an existing file grants; the single permission row is replaced and the target's cache entries are forgotten |
| `AccessControl.Control.RevokePermission` | src/access-control.ts:96-111 | only the owner revokes; the row goes and the target's cache entries are forgotten |
| `AccessControl.ChecksAreUncached` | src/access-control.ts:28-111 | in every run of checks, grants and revocations each check answers as if there were no cache |
| `AccessControl.AnswersAreRecent` | src/access-control.ts:28-61 | with files created and deleted too, an answer is the uncached answer now or at some step less than one TTL ago |
| `OverlappingChecks.StaleIffStraddled` | src/access-control.ts:28-111 | for checks and changes overlapping in any way on fixed files: with no change under way, a cached answer is wrong exactly when its check read the rows before a grant or revocation that altered the answer and cached it after |
| `OverlappingChecks.RevocationOvertaken` | src/access-control.ts:28-111 | a run in which a check in flight caches an allow after the revocation has returned |
| `OverlappingChecks.CheckAlone` | src/access-control.ts:28-61 | a check taken apart, with nothing in between, is the check run as one step |
| `OverlappingChecks.ChangeAlone` | src/access-control.ts:67-111 | a grant or revocation by the owner taken apart, with nothing in between, is the one run as one step |
| `AccessControl.GrantWorks` | src/access-control.ts:80-89 | right after a grant the target is allowed exactly the matching operations |
| `AccessControl.RevokeWorks` | src/access-control.ts:107-110 | right after a revocation a user who is not the owner is denied everything |
| `AccessControl.DeletionForgetsPermissions` | docker/init-db.sql:104-112 | deleting a file takes its permissions with it, so a file created anew under its id is open to its owner only |
| `CircuitBreaker.CountsFollowHistory` | src/error-handling.ts:98-109 | for every interleaving the failure count is the number of failures after which no success has finished, and the stored time is that of the last failure, both by position in the completion order |
| `CircuitBreaker.TrailingRun` | src/error-handling.ts:98-109 | those failures are all the failures from some cut on that is the start or comes right after a success, with no success from there |
| `CircuitBreaker.StateFollowsHistory` | src/error-handling.ts:75-109 | for thresholds of at least 1 the state is closed below the threshold, half-open once a probe has started after the timeout, open otherwise |
| `CircuitBreaker.ClosedMeansBelowIff` | src/error-handling.ts:98-109 | "closed exactly below the threshold" holds on all runs exactly for thresholds of at least 1 |
| `CircuitBreaker.RejectedIff` | src/error-handling.ts:75-82 | a start is rejected exactly when the failures reached the threshold, the timeout since the latest has not passed and no probe is in flight |
| `CircuitBreaker.CircuitBreaker.Begin` | src/error-handling.ts:76-82 | admission and the move to half-open |
| `CircuitBreaker.CircuitBreaker.Execute` | src/error-handling.ts:75-92 | one call without overlap is a start followed by its completion |

## Left out

- PostgreSQL pooling, transactions, SQL text and row mapping: only the effect of each statement on its table is modelled; columns no decision depends on (names, content types, ports, user ids of versions) are dropped.
- Store failures in the middle of an atomic create or prune: only the key and file checks of the insert, and the deletions of a collection, can fail there.
- Storage nodes are sets of chunk hashes in the garbage collection model and maps to bytes in the repair model.
- `RefcountInterleaving.AlwaysBalancedIff`: reading the versions and chunk sizes of a new version is one step, because sizes do not affect counts, and store calls in flight do not fail.
- `CollectionInterleaving.AlwaysServedIff`: the calls on versions are kept apart as `SeparateCalls` says, the node deletions and the row deletion of one sweep are one step, one collection runs at a time, and a chunk has a copy or none, wherever it is.
- `QuorumWrite.QuorumIsDurable`: no other operation deletes the copies or rows of the same chunk while the writes are in flight.
- `ReplicationService.Service.ReReplicate`: one repair runs at a time, with nothing else writing or deleting copies or rows of the chunk.
- `CdnGateway.CacheHoldsMostRecent`: one clock reading serves a whole request, entries used at the same instant are evicted in any order where the code follows insertion order, and a run fits in one TTL without invalidations. `CdnGateway.AnswersAreRecent` needs no bound on the run and allows invalidations.
- `AccessControl.AnswersAreRecent`: checks run one at a time, so an evaluation and the caching of its answer see the same rows; `OverlappingChecks` takes them apart, for files that do not change.
- `CircuitBreaker.StateFollowsHistory`: a run may contain completions without a start, which only makes the statement more general.
- Strings are compared character by character where JavaScript compares UTF-16 code units; the two agree on hexadecimal digests. Fractional node counts and sequence numbers are not modelled.
- HTTP routing, encryption and key handling, monitoring, performance helpers, retries, error logging and hash validation: thin wrappers, sums or calls into foreign code.
- Geo-aware node choice and cache statistics of the CDN gateway, file assembly from storage, listing all chunks, the replica integrity job and the heartbeat check: stubs, unfinished code or single comparisons.
- Load balance and other statistical claims: they depend on how hashes are distributed.
