# DysonFS: a verified model of its core algorithms and protocols

DysonFS stores files as database rows over pooled object storage. This project models the parts of it that
are algorithms or protocols rather than plumbing, and proves what they are for.

- **File forest and permission cache** (`ParentGraph`, `FileForest`, `ForestInvariants`, `ForestEffects`, `ForestRuns`,
  `FileService`, `BatchPurge`, `AllRowsGraph`). Rows are a map from id to row with a soft-delete flag; a transaction is one
  step. The nearest live ancestor with a row for a permission decides access; answers are cached, each cached key belonging
  to one invalidation group per ancestor. Over every run of lookups, access changes, moves, deletes, purges and creations
  the live forest stays acyclic, so the ancestor query (which has no cycle guard) ends, and a cached answer is the
  recomputed one. Purges reference-count shared objects.
- **Module resolution** (`ModuleResolver`): a greatest fixpoint computed by deletion in any iteration order, then Kahn's
  algorithm with sorted ties.
- **Pool migration** (`PoolMigration`, `PoolMigrationRuns`, `PoolMigrationWorker`): copy, repoint, count, delete, with any
  number of workers crashing anywhere.
- **Uploads** (`DirectUpload`, `DirectUploadStore`, `ChunkedUpload`, `ChunkedUploadService`, `ChunkedUploadRaces`,
  `ChunkedUploadMixing`, `ChunkedUploadRetry`): the compare-and-set race of completion and expiry; out-of-order, retried and
  interleaved part writes into one staged file, and what a completion reads from it meanwhile.
- **Derivative cache** (`RecencyCache`, `CacheHistory`, `MemoryCache`, `DiskSweep`, `SweepGuarantee`): map and list refine a
  bounded recency sequence, whose answers are told from the history of operations alone; the oldest-first sweep.
- **Locks** (`FileLocks`, `WopiLocks`): timed mutual exclusion, and the WOPI lock operations (section 3.3.5.1 of MS-WOPI)
  that span up to three transactions.
- **Quota and query canonicalisation** (`Sums`, `UploadQuota`, `CanonicalQuery`, `CanonicalText`, `CanonicalBytes`): per-file rounded sums over
  overlapping scopes; the SigV4 canonical query as a complete invariant of the parameter multiset (percent-encoding as in
  sections 2.1 and 2.3 of RFC 3986).

`Common`, `Text` and `Sorting` hold shared datatypes, Go's string order and trimming, and what a sort guarantees.
Code that updates state in place is modelled by classes and loops, each proved against a pure function of the old state;
the theorems are about those functions. `dafny verify dfyconfig.toml` checks everything.

## Where the code does less than one would expect

Each of these comes with a failing input, concrete or constructed, and with the exact condition for all inputs.

- A move looks only at live descendants, so it keeps the parent graph over *all* rows acyclic exactly when its target is
  outside the full subtrees of the live rows it moves (`AllRowsGraph.MoveKeepsAllAcyclicIff`), and among all steps only such
  a move closes a cycle (`AllRowsGraph.StepKeepsAllAcyclicIff`; `ForestRuns.DeletedRowsCanCloseACycle` reaches one).
- Batch purge removes the whole selection if and only if no two selected rows contain each other
  (`BatchPurge.BatchPurgeIff`); on the reachable cycle it removes nothing (`AllRowsGraph.BatchPurgeMissesACycle`).
- `UpdateFilePermissions` stores the rows it is handed and invalidates one group: the cache stays coherent exactly when
  all rows name that file (`ForestRuns.UpdateAclCoherentIff`, `ForestRuns.ForeignAclGoesStale`).
- `OverwriteFile` soft-deletes derived children without invalidation: coherent exactly when those children have no live
  children (`ForestRuns.OverwriteCoherentIff`, `ForestRuns.OverwriteGoesStale`).
- The reference count of a migration misses rows of other pools on the same backend and rows without `storage_key`
  (`PoolMigration.MoveKeepsReadableIff`, `PoolMigration.MoveCanLoseAFile`,
  `PoolMigration.MoveCanLoseAFileWithoutStorageKey`).
- UNLOCK_AND_RELOCK releases and acquires in two transactions (`WopiLocks.RelockIff`, `WopiLocks.RelockCanLoseTheLock`).
- Expired files whose removal fails are not counted against the disk budget: a sweep meets its goal for the directory, under
  every budget, exactly when no such file takes up space or nothing unexpired could be removed
  (`SweepGuarantee.SweepFitsOrStuckIff`, `SweepGuarantee.SweepLeavesTooMuch`).
- A gRPC completion that cannot persist removes the staged file but keeps the counted chunks: the next completion accepts
  as soon as the last part is uploaded again. Its file is what the client sent, before or after, exactly when every part
  that was not sent again was nothing but zeros (`ChunkedUploadRetry.ExactAfterFailedPersistIff`,
  `ChunkedUploadRetry.ExactOverWholeLifeIff`, `ChunkedUploadRetry.ZerosAreAccepted`).
- Concurrent uploads of one part can leave a mixture of their data (`ChunkedUploadRaces.RacesCanMixData`). They always
  leave one of them whole exactly when every bytewise mixture of them is one of them
  (`ChunkedUploadMixing.WholePartIff`); for two uploads, exactly when they differ in at most one byte
  (`ChunkedUploadMixing.TwoUploadsIff`).
- The upload check charges a given multiplier, while usage is billed at the pool's. Two HTTP routes check at the flat rate
  1.0 (`internal/handler/routes.go:2128`, `internal/handler/routes.go:2647`). The check is safe for the files of a pool
  exactly when it charges no less than the pool's multiplier (`UploadQuota.RateIsSafeIff`, `UploadQuota.CheckIsSafeIff`,
  `UploadQuota.FlatRateOverruns`).
- The 64-bit sum in the part count can wrap around; the count is then never positive and the task never completes
  (`ChunkedUpload.PlannedChunksMeaning`, `ChunkedUpload.WrappedCountNeverCompletes`).
- The canonical query reads every invalid byte as U+FFFD, as it reads U+FFFD itself. A query shares its canonical string
  with one of other bytes exactly when a decoded parameter of it contains U+FFFD (`CanonicalBytes.SharedIff`,
  `CanonicalBytes.InvalidBytesCollide`).

## Model

| member | source | states |
|---|---|---|
| `ParentGraph.WalkEndsIffAcyclic` | internal/service/service.go:815-845 | a recursive walk to the parents without a cycle guard ends from every row exactly when the parent graph has no cycle |
| `ParentGraph.BelowIsDescendants` | internal/service/service.go:1868-1909 | the recursive descendant query (a fixpoint computation) returns exactly the rows from which a start row is reached upwards |
| `ParentGraph.RedirectAcyclicIff` | internal/service/service.go:1811-1852 | moving any batch under a target keeps an acyclic graph acyclic if and only if the target is not in a moved subtree: the guard is exact |
| `ParentGraph.AboveIsAChain` | internal/service/service.go:815-845 | the ancestors of a row form one chain |
| `ForestInvariants.AncestorsAreTheLiveRowsAbove` | internal/service/service.go:815-845 | the ancestor query returns exactly the live rows on the upward path, for live rows only |
| `ForestInvariants.AncestorsFollowTheWalk` | internal/service/service.go:815-845 | its n-th entry is the n-th step of the upward walk (depth order) |
| `ForestInvariants.AncestorsDistinct` | internal/service/service.go:815-845 | no ancestor is listed twice |
| `ForestInvariants.SubtreesAreLeast` | internal/service/service.go:1868-1909 | told by single rows: the two descendant queries return the least sets that hold the start rows and, with a row, every row (every live one, for the live query) directly below it |
| `ForestInvariants.NearestSourceMeaning` | internal/service/service.go:889-927 | the answer is the nearest chain entry that carries a row for the permission, with all its rows and nothing nearer; none exactly when no entry carries one |
| `ForestInvariants.ForgetKeepsOthers` | internal/service/service.go:808-813 | an answer that survives an invalidation is unchanged, was in none of the removed groups, and its own groups are untouched |
| `ForestInvariants.CoherentAfterForget` | internal/service/service.go:1911-1927 | an edit followed by the invalidation of a set of ids keeps the cache coherent when every file whose chain avoids those ids keeps its chain and its rows |
| `ForestInvariants.ResolveKeeps` | internal/service/service.go:1075-1101 | a cached lookup keeps the whole invariant: acyclic live forest, existing objects, coherent cache with complete groups |
| `ForestInvariants.UpdateAclKeeps` | internal/service/service.go:625-639 | so does an access update whose rows name the file |
| `ForestInvariants.MoveKeepsForest` | internal/service/service.go:1811-1852 | any batch moved to any target keeps the live forest acyclic |
| `ForestInvariants.MoveKeeps` | internal/service/service.go:1811-1852 | and keeps the cache coherent: the invalidated groups are enough |
| `ForestInvariants.DeleteKeeps` | internal/service/service.go:1661-1678 | deleting a subtree keeps the invariant |
| `ForestInvariants.PurgeKeeps` | internal/service/service.go:1710-1763 | purging a subtree, deleted rows included, keeps the invariant |
| `ForestInvariants.CreateKeeps` | internal/service/service.go:1470-1506 | creating a row with a fresh id under a live folder (or as a root with its own access row) keeps the invariant |
| `ForestInvariants.PurgeKeepsRefs` | internal/service/service.go:1710-1763 | after a purge every row, live or deleted, still refers to an existing object |
| `ForestInvariants.PurgeReleasesExactly` | internal/service/service.go:1929-1963 | a purge deletes an object exactly when a removed row referred to it and no remaining row does |
| `ForestInvariants.OverwriteKeepsRefs` | internal/service/service.go:3073-3140 | an overwrite keeps every object reference valid |
| `ForestInvariants.OverwriteKeepsForest` | internal/service/service.go:3073-3140 | and the live forest acyclic |
| `ForestEffects.InheritanceEquation` | internal/service/service.go:889-927 | a live file's own rows decide, and without any its parent's answer is its own |
| `ForestEffects.DecisionMeans` | internal/service/service.go:815-927 | the whole access decision read off the columns: nothing decides for a missing or deleted row, exactly its own rows for the permission decide for a live one that has some, and otherwise its parent's answer is its own |
| `ForestEffects.LookupChangesOnlyTheCache` | internal/service/service.go:1075-1101 | a lookup leaves its answer cached, and changes no other entry, no answer, no row and no object |
| `ForestEffects.UpdateAclTakesEffect` | internal/service/service.go:625-639 | after an access update the file is decided by exactly the new rows for a permission, or inherits as before when there is none |
| `ForestEffects.UpdateAclSparesOthers` | internal/service/service.go:625-639 | files that do not inherit from it keep their answers |
| `ForestEffects.UpdateAclChangesOnlyItsRows` | internal/service/service.go:625-639 | an access update replaces the file's access rows by the given ones; every other access row, file row and object stays |
| `ForestEffects.RefusedIff` | internal/service/service.go:1823-1832 | a move is refused exactly when the target is a row to be moved or reaches one upwards along live rows |
| `ForestEffects.MoveChangesOnlyParents` | internal/service/service.go:1834-1842 | an accepted move writes the parent of the live rows of the batch; every other column of theirs, every other row, the access rows and the objects stay |
| `ForestEffects.MoveTakesEffect` | internal/service/service.go:1811-1852 | a moved row's ancestors are itself and then the target's ancestors as they were |
| `ForestEffects.MoveSparesOthers` | internal/service/service.go:1811-1852 | a row outside the moved subtrees keeps its ancestors |
| `ForestEffects.DeleteTakesEffect` | internal/service/service.go:1661-1678 | exactly the rows that did not have the deleted row among their ancestors stay live, with their ancestors |
| `ForestEffects.DeleteChangesOnlyMarks` | internal/service/service.go:1661-1678 | a delete writes deletion marks only: every other column, the access rows and the objects stay, and no mark is taken back |
| `ForestEffects.PurgeTakesEffect` | internal/service/service.go:1710-1763 | exactly the rows on whose upward path, deleted rows included, the purged row lies are removed, with their access rows; the rows that stay are unchanged, and the live ones keep their ancestors |
| `ForestEffects.PurgeLeavesNoOrphans` | internal/service/service.go:1737-1739 | a purge drops the access rows of exactly the rows it removes |
| `ForestEffects.CreateTakesEffect` | internal/service/service.go:1470-1506 | a new row inherits from its parent, or as a root is decided by its own access row; no live file's ancestors change |
| `ForestEffects.OverwriteMeans` | internal/service/service.go:3073-3140 | an overwrite is accepted exactly for a live file that is no folder and an object that is there; by columns, the file gets the object, its children are marked deleted, and no other column and no other row changes |
| `ForestEffects.OverwriteTakesEffect` | internal/service/service.go:3073-3140 | an overwrite changes nothing in the file but its object, soft-deletes exactly its live children and changes nothing else in any row, and deletes the old object exactly when no row refers to it any more |
| `ForestRuns.StepKeepsInv` | internal/service/service.go:1036-1101 | each of the steps keeps the invariant |
| `ForestRuns.RunKeepsInv` | internal/service/service.go:1036-1101 | so does every run of them, of any length and mix |
| `ForestRuns.RunAnswersAreFresh` | internal/service/service.go:1075-1101 | after every run a lookup of a live file answers as if there were no cache, and the ancestor query ends from every row |
| `ForestRuns.OverwriteKeeps` | internal/service/service.go:3073-3140 | an overwrite whose discarded children are leaves keeps the invariant |
| `ForestRuns.OverwriteGoesStale` | internal/service/service.go:3073-3140 | with a live grandchild there is a coherent state in which the overwrite leaves a stale cached answer |
| `ForestRuns.OverwriteCoherentIff` | internal/service/service.go:3073-3140 | the exact condition: coherent from every coherent state if and only if no discarded child has a live child |
| `ForestRuns.ForeignAclGoesStale` | internal/service/service.go:625-639 | a row naming another file leaves a stale cached answer of that file |
| `ForestRuns.UpdateAclCoherentIff` | internal/service/service.go:625-639 | the exact condition: coherent from every coherent state if and only if all rows name the file |
| `ForestRuns.DeletedRowsCanCloseACycle` | internal/service/service.go:1811-1852 | two accepted moves that close a cycle in the graph over all rows while the invariant holds |
| `AllRowsGraph.MoveKeepsAllAcyclicIff` | internal/service/service.go:1811-1852 | a move keeps the graph over all rows, deleted ones included, acyclic if and only if it is refused, goes to the root, or its target is outside the full subtrees of the live rows it moves |
| `AllRowsGraph.StepKeepsAllAcyclicIff` | internal/service/service.go:1811-1852 | of all steps only such a move can close a cycle, and it always does |
| `AllRowsGraph.RunKeepsAllAcyclic` | internal/service/service.go:1811-1852 | runs without such a move keep the graph over all rows acyclic |
| `AllRowsGraph.BatchPurgeAfterRun` | internal/handler/routes.go:1599-1620 | after such a run a batch purge removes exactly the union of the selected subtrees |
| `AllRowsGraph.BatchPurgeMissesACycle` | internal/handler/routes.go:1714-1747 | two accepted moves reach rows on which a batch purge of two selected folders removes nothing, although their subtrees are the whole table |
| `BatchPurge.TopLevelMembers` | internal/handler/routes.go:1714-1747 | the filter keeps exactly the selected rows that are in no other selected row's subtree |
| `BatchPurge.SubtreesAfterPurge` | internal/service/service.go:1710-1763 | a purge takes its own subtree out of every other subtree and nothing else |
| `BatchPurge.PurgeAllRows` | internal/handler/routes.go:1607-1618 | purging ids one after another removes exactly the union of their original subtrees |
| `BatchPurge.PurgeAllObjects` | internal/service/service.go:1710-1763 | and deletes exactly the objects of removed rows that no remaining row refers to, however they are shared |
| `BatchPurge.RootsAreDisjoint` | internal/handler/routes.go:1714-1747 | the chosen roots have pairwise disjoint subtrees |
| `BatchPurge.NoPurgeMeetsARemovedRow` | internal/handler/routes.go:1607-1618 | each root still exists when its turn comes |
| `BatchPurge.MutualPairIsMissed` | internal/handler/routes.go:1714-1747 | two selected rows that contain each other are both left behind |
| `BatchPurge.BatchPurgeIff` | internal/handler/routes.go:1599-1620 | a batch removes exactly the union of the selected subtrees if and only if no two selected rows contain each other |
| `BatchPurge.BatchPurgeOverForest` | internal/handler/routes.go:1599-1620 | over a forest it always does |
| `FileServiceModel.FileService.RemoveGroup` | internal/service/service.go:808-813 | removing a group removes the group and every key it held, nothing else |
| `FileServiceModel.FileService.InvalidatePermissionCaches` | internal/service/service.go:1911-1927 | the loop over ids removes exactly those groups and their keys |
| `FileServiceModel.FileService.CacheLookup` | internal/service/service.go:1036-1073 | a stored answer is put in the group of every ancestor |
| `FileServiceModel.FileService.ResolveInheritedFilePermissions` | internal/service/service.go:1075-1101 | the cached answer if there is one, else the computed one, which is then cached with its groups |
| `FileServiceModel.ResolveAllMissing` | internal/service/service.go:929-1034 | looking up only the files missing from the cache, once each, leaves the state that looking up every file in turn leaves |
| `FileServiceModel.ResolveAllKeepsAnswers` | internal/service/service.go:1075-1101 | lookups never change an answer |
| `FileServiceModel.RankedSourceIsNearest` | internal/service/service.go:954-975 | the batch query, which ranks sources by depth, picks the source of the single-file query |
| `FileServiceModel.FileService.LoadInheritedFilePermissionsBatch` | internal/service/service.go:929-1034 | pointwise equal to the single-file lookup, and the same resulting cache, for every id list and every split into cached and missing |
| `FileServiceModel.FileService.SplitCached` | internal/service/service.go:935-952 | the cached answers, and the missing ids once each in order |
| `FileServiceModel.FileService.LoadMissing` | internal/service/service.go:954-1030 | one source query and one row query give every missing file its own answer |
| `FileServiceModel.FileService.CacheInheritedFilePermissionsBatch` | internal/service/service.go:1036-1073 | caching a batch equals caching its files one by one |
| `FileServiceModel.FileService.UpdateFilePermissions` | internal/service/service.go:625-639 | the new state is the specified one, without conditions on the rows handed in |
| `FileServiceModel.FileService.MoveBatch` | internal/service/service.go:1811-1852 | refused exactly when the target is below the batch; otherwise the live rows of the batch get the new parent and are counted; no other column and no other row changes |
| `FileServiceModel.FileService.DeleteFile` | internal/service/service.go:1661-1678 | the new state; record-not-found exactly when the row is not live |
| `FileServiceModel.FileService.PurgeFile` | internal/service/service.go:1710-1763 | the loop over the removed rows' objects comes to the declarative purge; record-not-found exactly when there is no such row |
| `FileServiceModel.FileService.PurgeObjectIfDereferenced` | internal/service/service.go:1929-1963 | the object goes exactly when no row of either kind refers to it |
| `FileServiceModel.FileService.CreateWorkspaceFolder` | internal/service/service.go:1470-1506 | the new state and every parent error |
| `FileServiceModel.FileService.CreateWorkspaceUploadedFile` | internal/service/service.go:3015-3059 | a file over a stored object: the new state, every parent error, then the refusal of a hidden pool |
| `FileServiceModel.FileService.OverwriteFile` | internal/service/service.go:3073-3140 | accepted exactly for a live file that is no folder and a stored object; the file gets the object, its live children are marked deleted, no other column changes; the old object goes when nothing refers to it |
| `FileServiceModel.FilterTopLevelBatchFiles` | internal/handler/routes.go:1714-1747 | the map-filling loops compute the top-level selection, in order |
| `FileServiceModel.BatchDeleteFiles` | internal/handler/routes.go:1599-1620 | the count is the number of roots, and the removed rows are the union of the selected subtrees exactly when no two selected rows contain each other |
| `ModuleResolver.Cascade` | internal/module/resolve.go:97-115 | deleting modules with a missing dependency, in any iteration order, ends with the greatest closed subset of the seed; the warnings name exactly the dropped modules, each with a dependency that is not selected |
| `ModuleResolver.GreatestClosedIsUnique` | internal/module/resolve.go:97-115 | so the result does not depend on the iteration order |
| `ModuleResolver.KeptIffRequirementsSeeded` | internal/module/resolve.go:97-115 | the cascade keeps a module exactly when everything it requires, directly or not, is seeded |
| `ModuleResolver.RequiredModulesSurvive` | internal/module/resolve.go:70-115 | under a valid configuration, when Required modules require only known Required ones, every module flagged Required survives |
| `ModuleResolver.SelectionMeans` | internal/module/resolve.go:70-115 | told by the factories and the two configuration lists: the selection is the largest set of modules that are Required, allowlisted, or default when there is no allowlist, that are not disabled, and that depend on nothing outside the set |
| `ModuleResolver.SucceedsMeans` | internal/module/resolve.go:26-128 | resolution succeeds exactly when names are given, distinct and known, no Required module is disabled, and no modules that could run together depend on each other in a circle |
| `ModuleResolver.ResolutionMeans` | internal/module/resolve.go:70-128 | the resolution: that selection, the least start order in which every dependency comes first, and one warning for every wanted module that cannot run, naming a dependency that does not |
| `ModuleResolver.CountRequirements` | internal/module/resolve.go:133-146 | the counters and the dependents lists, with repeated requirements counted repeatedly, or a requirement outside the selection |
| `ModuleResolver.Release` | internal/module/resolve.go:161-167 | decrementing a placed module's dependents queues exactly those whose counter reaches zero, once each |
| `ModuleResolver.PlaceAll` | internal/module/resolve.go:148-168 | the loop places at each step the least available module, until none is available |
| `ModuleResolver.GreedyIsLeast` | internal/module/resolve.go:148-168 | such an order is lexicographically least among all dependency orders |
| `ModuleResolver.StuckIsTheRest` | internal/module/resolve.go:170-179 | what cannot be placed is exactly the greatest set in which every member requires a member |
| `ModuleResolver.StuckIffCycle` | internal/module/resolve.go:170-179 | that set is empty exactly when the selected dependency graph has no cycle |
| `ModuleResolver.OrderedHasNoCycle` | internal/module/resolve.go:132-181 | a graph with a dependency order has no cycle |
| `ModuleResolver.TopologicalOrder` | internal/module/resolve.go:132-181 | the lexicographically least permutation of the selection with dependencies first, or a requirement outside the selection, or the sorted list of all modules stuck behind a cycle |
| `ModuleResolver.LeastOrderIsUnique` | internal/module/resolve.go:132-181 | the order depends only on which modules each one requires: repetitions in Requires change nothing |
| `ModuleResolver.SameDependenciesSameOrders` | internal/module/resolve.go:138-146 | repeating a requirement changes no dependency order |
| `ModuleResolver.IndexFactories` | internal/module/resolve.go:27-39 | the index of the factories, or an empty or duplicate id that is really there |
| `ModuleResolver.Normalize` | internal/module/resolve.go:41-59 | the trimmed, non-blank names of a list, all known, or an unknown one |
| `ModuleResolver.RemoveDisabled` | internal/module/resolve.go:90-95 | disabled modules leave the selection, or a disabled Required module is reported |
| `ModuleResolver.Resolve` | internal/module/resolve.go:26-128 | from the factories and the two lists to that resolution: success exactly for a sound configuration without a circle, the largest selection, its least start order and its warnings; otherwise the error, a circle only for a sound configuration |
| `PoolMigration.MoveKeepsReadableIff` | internal/worker/worker.go:251-303 | one move keeps every live file readable if and only if the key holds no other live content at the target and no live file that the count misses reads the deleted blob |
| `PoolMigration.MoveCanLoseAFile` | internal/worker/worker.go:287-301 | a move that deletes the blob another pool on the same disk still reads |
| `PoolMigration.MoveCanLoseAFileWithoutStorageKey` | internal/worker/worker.go:287-301 | the same for a row that names its key only through its object |
| `PoolMigrationRuns.RepointKeeps` | internal/worker/worker.go:284-286 | repointing a row whose bytes are at the target keeps the invariant |
| `PoolMigrationRuns.PutKeeps` | internal/worker/worker.go:280-282 | so does writing a file's bytes to the target |
| `PoolMigrationRuns.DeleteKeeps` | internal/worker/worker.go:287-301 | so does deleting a source blob once the count was zero, whatever happened since |
| `PoolMigrationRuns.StepKeeps` | internal/worker/worker.go:175-303 | every atomic step of every worker, crash, deletion and upload, into whichever pool, keeps the invariant |
| `PoolMigrationRuns.EveryRunKeepsFilesReadable` | internal/worker/worker.go:175-303 | at every point of every interleaving of any number of workers, with crashes, restarts and uploads into any pool, every live file is readable; a completed task has left nothing in scope of the rows its last query looked at, and nothing at all of an explicit list |
| `PoolMigrationRuns.CompletedOnlyAfterNoneLeft` | internal/worker/worker.go:222-249 | however a run from an unfinished task goes: when the task ends completed there was a moment in the run at which every live file still in the source pool was one that the task's list of files leaves out, and the rows recorded are those of that moment |
| `PoolMigrationRuns.CompletedMeansNoneLeft` | internal/worker/worker.go:222-249 | while no upload adds to the task, every live file still in the source pool of a completed task is one that its list of files leaves out |
| `PoolMigrationRuns.FreshTaskStarts` | internal/worker/worker.go:209-221 | a fresh task over readable files starts in the invariant |
| `PoolMigrationRuns.UninterruptedMove` | internal/worker/worker.go:251-303 | the atomic steps of one worker, one after another, are the whole move of the file, and nothing of it when the source blob is missing |
| `PoolMigrationRuns.CompletesIff` | internal/worker/worker.go:222-235 | a free worker marks the task completed exactly when every live file still in the source pool is left out by the task's list |
| `PoolMigrationWorker.MoveFileMeans` | internal/worker/worker.go:251-303 | one move told by columns and blobs: it fails exactly when the blob to copy is missing; the row changes its pool and nothing else; between two backends the bytes are at the target, and the source gives them up exactly when no live row of the source pool names the key in storage_key |
| `PoolMigrationWorker.MoveFileShrinksPending` | internal/worker/worker.go:222-249 | a move takes exactly its file off the pending set |
| `PoolMigrationWorker.MoveFileKeepsSound` | internal/worker/worker.go:251-303 | under the same assumptions a move never fails and keeps every live file readable |
| `PoolMigrationWorker.Worker.MoveFileToPool` | internal/worker/worker.go:251-303 | the effect on rows and blobs; nothing changes when the source blob is missing |
| `PoolMigrationWorker.Worker.FirstPending` | internal/worker/worker.go:226-234 | the least live file of the source pool in scope, or none exactly when every live file of the source pool is left out by the task's list |
| `PoolMigrationWorker.Worker.RunPoolMigration` | internal/worker/worker.go:209-249 | returns Ok exactly with every live file still in the source pool left out by the task's list; counts the moved files; every row is as it was or was moved, its pool and nothing else; on a sound world it always gets there and keeps every live file readable |
| `DirectUpload.StepKeeps` | internal/service/transfer.go:321-369 | every step of any completer or sweeper keeps the invariant of the task |
| `DirectUpload.RunKeeps` | internal/service/transfer.go:303-369 | so does every interleaving |
| `DirectUpload.RaceIsSafe` | internal/handler/routes.go:2332-2452 | in every interleaving at most one compare-and-set takes the task out of Uploading, at most one file is created, by a completer that won, and the source of a created file is never deleted by the sweep |
| `DirectUpload.UpdatedAtNeverGoesBack` | internal/service/service.go:3713-3726 | recorded activity never moves backwards |
| `DirectUpload.RefreshedIsNotExpired` | internal/service/transfer.go:321-339 | a task refreshed after a sweep computed its cutoff is not expired by that sweep, however late it claims |
| `DirectUpload.ExpiredOnlyWhenStale` | internal/service/transfer.go:291-339 | a task is expired only after the whole expiry age without activity |
| `DirectUpload.CompletionIff` | internal/handler/routes.go:2357-2452 | an uninterrupted completion creates its file exactly when the task awaits completion and its object, or its listed parts, have the declared size |
| `DirectUpload.UploadThenComplete` | internal/handler/routes.go:2357-2452 | the object or all parts uploaded, an uninterrupted completion and its last update make a completed task with exactly one file |
| `DirectUpload.FailedFileFailsTheTask` | internal/service/service.go:3713-3726 | a claim whose file cannot be created ends in a failed task without a file |
| `DirectUpload.CrashAfterClaimSticks` | internal/service/service.go:3713-3722 | a completion that dies between its claim and its file leaves the task Processing under every later run: nobody takes it up, expires it or creates its file |
| `DirectUpload.SweepIff` | internal/service/transfer.go:303-369 | an uninterrupted sweep expires the task and deletes its object exactly when it has been Uploading without activity for the expiry age |
| `DirectUploadStore.PlannedPartsCover` | internal/handler/routes.go:1960-1966 | the planned parts cover the file and one fewer would not |
| `DirectUploadStore.PartsFitIff` | internal/handler/routes.go:2381-2401 | the part check accepts exactly parts numbered from 1, as many as cover the size with a last one that is not empty, whose sizes add up to it |
| `DirectUpload.TotalSizeSplits` | internal/handler/routes.go:2381-2401 | the size of parts is the sum over the parts, however they are split |
| `DirectUploadStore.SweepMeans` | internal/service/transfer.go:303-369 | a sweep fails exactly the tasks that are Uploading and idle for longer than the age, changes no other task, and deletes exactly their source and derivative objects |
| `DirectUploadStore.CompletedSurvivesSweeps` | internal/service/transfer.go:303-369 | a task that no longer waits for completion, as after an answered one, is never touched by any number of later sweeps, and keeps its objects unless another waiting task has them too |
| `DirectUploadStore.CheckParts` | internal/handler/routes.go:2381-2401 | accepted exactly when the parts are as many as planned, numbered 1, 2, 3, ... and of the declared total size, with which check fails |
| `DirectUploadStore.UploadStore.MarkProcessing` | internal/service/service.go:3713-3726 | succeeds exactly for a task in Uploading, and changes only that row |
| `DirectUploadStore.UploadStore.ExpireStaleUploadTask` | internal/service/transfer.go:321-369 | claims exactly a stale task in Uploading, and deletes exactly its objects |
| `DirectUploadStore.UploadStore.ExpireStaleUploadTasks` | internal/service/transfer.go:303-319 | the sweep fails exactly the stale tasks, deletes exactly their objects, and every other file keeps its object |
| `DirectUploadStore.UploadStore.CompleteDirectUpload` | internal/handler/routes.go:2341-2455 | a task that has its file answers with it; an upload of the declared size becomes a new file or replaces the one to be overwritten, and the task has failed when that fails; anything refused changes no task and no file |
| `ChunkedUpload.PlannedChunksMeaning` | internal/grpcsvc/upload_service.go:146-153 | the 64-bit part count is the least number of parts that covers the file, unless the sum wraps around, and then it is no count that can ever be reached |
| `ChunkedUpload.WrappedCountNeverCompletes` | internal/grpcsvc/upload_service.go:146-153 | for the largest file size the count wraps below zero, and no sequence of uploads changes or completes the task |
| `ChunkedUpload.WriteAtTwice` | internal/service/service.go:4498-4506 | consecutive buffer writes of one copy amount to one write |
| `ChunkedUpload.WriteStores` | internal/service/service.go:4498-4506 | a write at an offset reads back |
| `ChunkedUpload.WriteSparesOthers` | internal/service/service.go:4509-4542 | and leaves every disjoint range as it was |
| `ChunkedUpload.OtherPartSurvives` | internal/grpcsvc/upload_service.go:226-296 | an accepted part leaves every other part's bytes alone |
| `ChunkedUpload.AttemptKeeps` | internal/grpcsvc/upload_service.go:226-296 | an attempt, accepted or not, keeps: the set of counted indices is the set of accepted ones, and the staged file holds the last accepted data of each |
| `ChunkedUpload.ChunkIsCountedOnce` | internal/service/service.go:3668-3680 | a retried part is counted once |
| `ChunkedUpload.RunHolds` | internal/grpcsvc/upload_service.go:187-297 | so does any sequence of attempts, in any order |
| `ChunkedUpload.CompletionIsExact` | internal/grpcsvc/upload_service.go:299-339 | completion accepts exactly when every part was accepted at least once; the staged file then has exactly the declared size and every byte comes from the last accepted upload of its part |
| `ChunkedUpload.AcceptsIff` | internal/grpcsvc/upload_service.go:203-262 | a part is accepted exactly on a pending task, for an index in the plan and data that end where the next part starts or with the file |
| `ChunkedUpload.CutFileComesBackIff` | internal/grpcsvc/upload_service.go:187-339 | a client that cuts its file at the task's part size and sends the pieces in any order, with repetitions: every piece is accepted, and the completion takes exactly that file if and only if every piece was sent |
| `ChunkedUploadRaces.StepKeeps` | internal/service/service.go:4498-4542 | every buffer written or read, part counted, upload stopped or file taken, among any number of concurrent uploads and completions, keeps: counted parts are in the staged file, and what is written or has been read of a part comes byte by byte from accepted uploads of it |
| `ChunkedUploadRaces.CompletionUnderRaces` | internal/grpcsvc/upload_service.go:187-339 | however uploads and completions interleave: completion accepts exactly when every part is counted; the staged file, and every file a completion read meanwhile, then has the declared size and each byte from some accepted upload of its part |
| `ChunkedUploadRaces.RacesCanMixData` | internal/service/service.go:4498-4542 | two concurrent uploads of one part whose file is neither of them |
| `ChunkedUploadMixing.SentAloneIsAnAttempt` | internal/service/service.go:4498-4542 | an upload that nobody interrupts is one attempt on the task |
| `ChunkedUploadMixing.MixtureIsReached` | internal/service/service.go:4498-4542 | for any data of a part and any mixture of their bytes some run that offers exactly these data takes a file with that mixture |
| `ChunkedUploadMixing.WholePartIff` | internal/grpcsvc/upload_service.go:226-296 | the exact condition: every run with these data leaves one of them whole in every file taken if and only if every bytewise mixture of them is one of them |
| `ChunkedUploadMixing.TwoUploadsIff` | internal/grpcsvc/upload_service.go:226-296 | for two uploads of a part: if and only if they differ in at most one byte |
| `ChunkedUploadMixing.NearlyEqualUploadsStayWhole` | internal/grpcsvc/upload_service.go:226-296 | any number of uploads of a part, any two of which differ in at most one byte (retries of one upload in particular), always leave one of them whole |
| `ChunkedUploadRetry.FailedPersistLosesTheFile` | internal/grpcsvc/upload_service.go:340-372 | a completion that cannot persist leaves every part counted and no staged file |
| `ChunkedUploadRetry.CompletionAfterFailedPersist` | internal/grpcsvc/upload_service.go:320-372 | the next one accepts exactly when the last part was uploaded again, with zeros for every part that was not |
| `ChunkedUploadRetry.ExactAfterFailedPersistIff` | internal/grpcsvc/upload_service.go:320-372 | for any data sent before the loss: the file the next completion takes has every byte from the last accepted upload of its part, before or after the loss, if and only if every part not sent again was nothing but zeros |
| `ChunkedUploadRetry.ExactOverWholeLifeIff` | internal/grpcsvc/upload_service.go:187-372 | the same over the whole life of a task: a complete upload, a failed persist, more uploads, and an accepted completion |
| `ChunkedUploadRetry.ZerosAreAccepted` | internal/grpcsvc/upload_service.go:320-372 | a file of two bytes completed with its first byte zero |
| `ChunkedUploadService.CopyAt` | internal/service/service.go:4498-4506 | the buffered copy loop is one write at the offset |
| `ChunkedUploadService.CreateMultipartUpload` | internal/grpcsvc/upload_service.go:135-185 | accepted exactly for positive sizes whose part count fits the column; the task has the requested part size, or the default one, and is planned with no part uploaded |
| `ChunkedUploadService.MultipartUpload.UpdateUploadedChunk` | internal/service/service.go:3668-3680 | the counter grows exactly when the index is new |
| `ChunkedUploadService.MultipartUpload.WriteUploadChunk` | internal/service/service.go:4512-4542 | for any index and sizes, with the offset as 64-bit arithmetic computes it: accepted exactly for an index in range and data of the expected length, and what the staged file holds in either case |
| `ChunkedUploadService.OffsetIsExactIff` | internal/service/service.go:4516-4519 | a chunk goes to its own place exactly when its offset fits in 64 bits |
| `ChunkedUploadService.PlannedIsExact` | internal/grpcsvc/upload_service.go:226-232 | for a part of a planned upload it always does |
| `ChunkedUploadService.MultipartUpload.UploadMultipartPart` | internal/grpcsvc/upload_service.go:187-297 | a stream of messages is one attempt with their concatenation; accepted exactly for the planned length of a part in range |
| `ChunkedUploadService.MultipartUpload.CompleteMultipartUpload` | internal/grpcsvc/upload_service.go:320-372 | the staged file, or the first failing check, the workspace quota and persisting among them, and the state each leaves |
| `RecencyCache.EvictKeepsLongestFittingPrefix` | internal/media/cache.go:98-104 | eviction drops the shortest least-recent suffix that makes the rest fit |
| `RecencyCache.PutKeepsTheNewEntry` | internal/media/cache.go:82-106 | an accepted Put ends with its own entry at the front: it is never the one evicted |
| `RecencyCache.LookupMeans` | internal/media/cache.go:65-80 | a key is answered with its entry's data unless that was last used more than the idle limit ago, if there is one; other keys are not answered |
| `RecencyCache.GetKeepsSound` | internal/media/cache.go:65-80 | a Get keeps: one entry per key, most recent first, within the budget, each entry the last accepted Put of its key |
| `RecencyCache.PutKeepsSound` | internal/media/cache.go:82-106 | so does a Put |
| `RecencyCache.RunIsSound` | internal/media/cache.go:65-113 | so does every run under a clock that does not go back |
| `CacheHistory.GetAnswersFromHistory` | internal/media/cache.go:65-113 | after any run a Get answers the last accepted Put of a remembered key and nothing for any other: a key is remembered, told from the history alone, until it has been idle past the limit or some Put stored since its last use left no room for it |
| `CacheHistory.FitsMeans` | internal/media/cache.go:82-106 | room: at every Put that stored something since the key's last use, the distinct keys used since, with their last data, and the key's own data fit the budget |
| `CacheHistory.StepAgrees` | internal/media/cache.go:65-113 | each operation keeps the list and the history in agreement about every key |
| `MemoryCache.MemoryCache.constructor` | internal/media/cache.go:56-63 | an empty cache |
| `MemoryCache.MemoryCache.RemoveElement` | internal/media/cache.go:108-113 | map, list and size stay consistent; exactly the one entry leaves |
| `MemoryCache.MemoryCache.MoveToFront` | internal/media/cache.go:65-80 | the element's entry comes first and the others keep their order |
| `MemoryCache.MemoryCache.Get` | internal/media/cache.go:65-80 | the map and the linked elements, updated in place, refine the recency sequence: same answer, same contents |
| `MemoryCache.MemoryCache.Put` | internal/media/cache.go:82-106 | the same for Put, including replacement in place and eviction |
| `MemoryCache.MemoryCache.EvictBeyondBudget` | internal/media/cache.go:98-104 | the loop from the back computes the eviction of the sequence |
| `DiskSweep.BudgetPassIsShortest` | internal/media/cache.go:209-220 | the pass tries exactly the shortest prefix, oldest first, that brings the total within the budget, or all entries |
| `DiskSweep.BudgetPassFitsOrStuck` | internal/media/cache.go:209-220 | of the entries the pass looks at, the unexpired ones, what is left fits the budget or consists of entries whose removal failed |
| `DiskSweep.BudgetPassTakesOldestFirst` | internal/media/cache.go:209-220 | no entry that was removable and stayed is older than one that was removed |
| `DiskSweep.DiskCache.RemoveExpired` | internal/media/cache.go:190-207 | the walk removes exactly the expired entries it can, lists exactly the unexpired ones, and totals them |
| `DiskSweep.DiskCache.SweepOnce` | internal/media/cache.go:176-220 | a whole sweep: expired entries that can go, then the budget pass in order of age, and nothing else |
| `SweepGuarantee.LeftAfterSweep` | internal/media/cache.go:176-220 | after a sweep the directory holds exactly the expired files that could not be removed and what the budget pass kept |
| `SweepGuarantee.SweepMeans` | internal/media/cache.go:176-220 | told by single files: a sweep changes none, removes only what can be removed and of that everything too old, nothing else while the rest fits the budget, and otherwise none that is younger than a removable one it leaves |
| `SweepGuarantee.SweepFitsUpToStuckExpired` | internal/media/cache.go:176-220 | the directory then fits the budget plus those expired bytes, or nothing in it could be removed |
| `SweepGuarantee.SweepFitsOrStuckIff` | internal/media/cache.go:176-220 | under every budget it fits the budget, or nothing in it could be removed, if and only if no expired file that takes up space fails to go or no unexpired file could go |
| `SweepGuarantee.SweepLeavesTooMuch` | internal/media/cache.go:176-220 | fifteen bytes left under a budget of seven although a file could have been removed |
| `FileLocks.RunKeepsOneRow` | internal/service/lock.go:39-100 | over every run of lock transactions a file has at most one lock row |
| `FileLocks.OneHolder` | internal/service/lock.go:25-147 | so at most one token holds a file at any time |
| `FileLocks.AcquireIff` | internal/service/lock.go:39-100 | an acquire succeeds exactly for a non-blank token when no other token holds the file; the token then holds it for exactly the timeout, and otherwise nothing changes |
| `FileLocks.RefreshIff` | internal/service/lock.go:102-127 | a refresh succeeds exactly for the holder and restarts its timeout; the error tells no lock from another holder |
| `FileLocks.ReleaseIff` | internal/service/lock.go:129-147 | a release succeeds exactly for the holder and leaves the file unlocked |
| `FileLocks.GetIff` | internal/service/lock.go:25-37 | GetLock answers with the one unexpired lock of the file, or with nothing exactly when there is none |
| `FileLocks.ExecSparesOtherFiles` | internal/service/lock.go:25-147 | no transaction changes an unexpired lock of another file or adds a row for one |
| `FileLocks.HeldLockRefusesOthers` | internal/service/lock.go:39-100 | while a token holds a file every acquire with another token conflicts and changes no unexpired lock |
| `FileLocks.ExecKeepsHolder` | internal/service/lock.go:25-147 | a transaction before a lock's deadline, other than a release with its token, leaves it held, with the deadline moved only by its own token's calls |
| `FileLocks.HeldUntilExpiryOrRelease` | internal/service/lock.go:25-147 | a lock held at the start of any run of any clients is held after it, with a deadline read off the calls alone, as long as no transaction comes at or after that deadline and none releases it with its token |
| `FileLocks.LostOnlyByExpiryOrRelease` | internal/service/lock.go:25-147 | after one transaction the token holds the file exactly when it came in time and was not its release, or came too late and was an acquire with the token |
| `FileLocks.LockTable.CleanExpiredLocks` | internal/service/lock.go:21-23 | exactly the expired rows go |
| `FileLocks.LockTable.GetLock` | internal/service/lock.go:25-37 | the transaction on the table in place |
| `FileLocks.LockTable.AcquireLock` | internal/service/lock.go:39-100 | the transaction on the table in place: renewal, conflict or a new row |
| `FileLocks.LockTable.RefreshLock` | internal/service/lock.go:102-127 | the transaction on the table in place, with its errors |
| `FileLocks.LockTable.ReleaseLock` | internal/service/lock.go:129-147 | the transaction on the table in place, with its errors |
| `WopiLocks.GetLockReports` | internal/service/wopi.go:303-313 | GET_LOCK reports the holder's token, or nothing exactly when nobody holds the file |
| `WopiLocks.RefusedIff` | internal/service/wopi.go:289-360 | which requests are refused and how: no edit rights, no valid operation, or a conflict exactly when the lock is not as the operation needs it at its first moment; a conflict reports the holder's token, or nothing when nobody holds the file |
| `WopiLocks.LockIff` | internal/service/wopi.go:315-326 | whatever runs in between, LOCK succeeds exactly when its token is not blank and no other token holds the file at either of its two moments, and then holds it for the WOPI timeout |
| `WopiLocks.RefreshLockIff` | internal/service/wopi.go:328-335 | REFRESH_LOCK succeeds exactly when its token holds the file at both moments, and restarts the timeout |
| `WopiLocks.UnlockIff` | internal/service/wopi.go:337-344 | UNLOCK succeeds exactly when its token holds the file at both moments, and leaves the file unlocked |
| `WopiLocks.UnlockedIff` | internal/service/wopi.go:346-356 | the release half of UNLOCK_AND_RELOCK goes through exactly when the expected token holds the file at both moments |
| `WopiLocks.RelockIff` | internal/service/wopi.go:346-362 | once its release went through, UNLOCK_AND_RELOCK succeeds exactly when no other token holds the file at its acquire; it ends with the caller's new token held, or with the caller without the lock |
| `WopiLocks.RelockUninterrupted` | internal/service/wopi.go:346-362 | with no other client in between it always succeeds for the holder |
| `WopiLocks.LockTakenInTheGapStays` | internal/service/wopi.go:354-360 | a lock another client takes between the release and the acquire is kept, and the relock is refused |
| `WopiLocks.RelockCanLoseTheLock` | internal/service/wopi.go:354-360 | a schedule in which a holder ends without any lock |
| `WopiLocks.OperationIsARun` | internal/service/wopi.go:289-367 | an operation is a run of its transactions and those in between, and releases no lock but the one the request names |
| `WopiLocks.OperationSparesOtherLocks` | internal/service/wopi.go:289-367 | an operation leaves every lock its request does not name held, through whatever runs in between, the gap of UNLOCK_AND_RELOCK included; only its holder's own calls move its deadline |
| `WopiLocks.HandleLockRequest` | internal/service/wopi.go:289-367 | the dispatch over the operations, on the table in place, is the specified operation |
| `Sums.TotalIgnoresOrder` | internal/service/service.go:4319-4336 | the totals do not depend on the order in which the query returns rows |
| `Sums.TotalOfSelected` | internal/service/service.go:4253-4274 | selecting rows and adding them up is one pass over all files |
| `Sums.SumSplits` | internal/service/service.go:4394-4420 | two disjoint scopes add up to their union |
| `Text.LeMeans` | internal/module/resolve.go:155-172 | Go's string order: the first difference decides, and a prefix comes first |
| `Text.TrimSpaceMeans` | internal/module/resolve.go:45 | trimming removes exactly the spaces at the two ends |
| `Text.SpacesMean` | internal/module/resolve.go:45 | spaces are the 25 code points of unicode.IsSpace |
| `UploadQuota.PoolUsageMultipliers` | internal/service/service.go:4278-4315 | the prepared map gives every row its pool's multiplier, 1 when unset, unknown, blank or not positive |
| `UploadQuota.SumBillableUsage` | internal/service/service.go:4319-4336 | the loop adds up, per non-empty file, the rounded-up charge, one file and its bytes |
| `UploadQuota.StatsForRows` | internal/service/service.go:4381-4388 | the same over the multipliers it resolves |
| `UploadQuota.AccountPoolStats` | internal/service/service.go:4394-4420 | the two concatenated scans charge every file of the account or of its individual workspace exactly once |
| `UploadQuota.AccountPoolIsWorkspacePoolPlusElsewhere` | internal/service/service.go:3950-3965 | the account's pool is the individual workspace's charged pool plus the owner's files in other workspaces, in MiB, files and bytes |
| `UploadQuota.ChargeMeans` | internal/service/service.go:3872-3880 | the charge is the least number of MiB that covers the multiplied size |
| `UploadQuota.BilledMeans` | internal/service/service.go:4278-4336 | a file is billed the least number of MiB that covers its size at its pool's configured rate, 1 when there is no positive one |
| `UploadQuota.AccountUsageMeans` | internal/service/service.go:4394-4420 | an account's usage starts at nothing, and one more file adds its bill, itself and its bytes exactly when it is live, not empty, and the account's own or in its individual workspace |
| `UploadQuota.ChargedMeans` | internal/service/service.go:3890-3965 | the bytes charged to a workspace: those of the live files in it and, for an individual one, of the owner's personal files |
| `UploadQuota.IndividualWorkspaceUsage` | internal/service/service.go:3950-3965 | personal plus workspace files: the account's pool less what the owner has elsewhere |
| `UploadQuota.CheckUploadQuota` | internal/service/service.go:3855-3886 | admitted exactly when the multiplied size fits the MiB that are left of the total; otherwise the free MiB, never negative |
| `UploadQuota.CheckWorkspaceUploadQuota` | internal/service/service.go:3890-3899 | for individual and organisation workspaces, admitted exactly for a member and a size that is not negative and fits the byte quota beside the charged files |
| `UploadQuota.UploadRaisesByTheCheckedAmountIff` | internal/service/service.go:3872-3880 | at its pool's multiplier an added upload raises the recomputed usage by exactly the checked amount, if and only if its billed size is above minus one MiB |
| `UploadQuota.UploadsStayWithinTheTotal` | internal/service/service.go:3855-3886 | any number of uploads of the account, each checked at no less than its pool's multiplier and then added, stays within the total |
| `UploadQuota.CheckIsSafeIff` | internal/service/service.go:3872-3880 | with any multiplier: safe at every level of usage exactly when the checked amount is not below the bill |
| `UploadQuota.RateIsSafeIff` | internal/service/service.go:3872-3880 | safe for every file of a pool exactly when the multiplier given to the check is not below the pool's |
| `UploadQuota.FlatRateOverruns` | internal/handler/routes.go:2128-2131 | a file in a dearer pool, checked at the flat rate 1.0, takes the account past its total |
| `CanonicalQuery.Utf8DecodesBack` | internal/s3server/auth.go:276-277 | ranging over the UTF-8 encoding of a string yields the string, for every string of Unicode scalar values |
| `CanonicalQuery.PercentDecodesBack` | internal/s3server/auth.go:269-287 | percent-encoding decodes back to the encoded bytes, with or without slashes encoded |
| `CanonicalQuery.EncodedIsClean` | internal/s3server/auth.go:269-294 | an encoded string has only unreserved characters and percent signs, so neither separator |
| `CanonicalQuery.AwsPercentEncode` | internal/s3server/auth.go:269-287 | the loop over runes and bytes produces the specified encoding |
| `CanonicalQuery.ParametersAreOrdered` | internal/s3server/auth.go:239-244 | the comparison given to the sort is a total order, so sorting is insensitive to the initial order |
| `CanonicalQuery.JoinIsInjective` | internal/s3server/auth.go:246-255 | joined pairs without separators inside determine the pairs |
| `CanonicalQuery.CanonicalIsComplete` | internal/s3server/auth.go:214-257 | two parameter lists have the same canonical string exactly when they hold the same decoded pairs with the same multiplicities |
| `CanonicalQuery.SameCanonicalIffSameParameters` | internal/s3server/auth.go:214-257 | two raw queries have the same canonical string exactly when they carry the same decoded parameters, as multisets |
| `CanonicalQuery.ParseItem` | internal/s3server/auth.go:228-234 | an encoded item parses back to its parameter |
| `CanonicalQuery.CanonicalKeepsParameters` | internal/s3server/auth.go:214-257 | the canonical string, parsed as a query, carries the same parameters |
| `CanonicalQuery.CanonicalIsAFixedPoint` | internal/s3server/auth.go:214-257 | canonicalising twice changes nothing |
| `CanonicalQuery.ParseQuery` | internal/s3server/auth.go:219-222 | the loop that fills the map of values lists exactly the parameters of the query, skipping empty, malformed and semicolon pieces |
| `CanonicalQuery.CanonicalizeValues` | internal/s3server/auth.go:224-256 | whatever the iteration order of the map, the result is the canonical string of any listing of its values |
| `CanonicalQuery.WriteItems` | internal/s3server/auth.go:246-256 | the builder loop writes the joined pairs |
| `CanonicalQuery.CanonicalizeQuery` | internal/s3server/auth.go:214-257 | from the raw query to the canonical string, the empty query included |
| `CanonicalText.EncodedCharacter` | internal/s3server/auth.go:269-294 | letters, digits and - . _ ~ stay, a slash when it may; of any other character every UTF-8 byte becomes a percent sign and two upper-case hexadecimal digits |
| `CanonicalText.EncodingSplits` | internal/s3server/auth.go:269-287 | characters are encoded independently of each other |
| `CanonicalText.CanonicalMeans` | internal/s3server/auth.go:224-256 | the canonical string joins the encoded parameters in Go's string order of key and then value |
| `CanonicalText.JoinSplits` | internal/s3server/auth.go:246-256 | an item is key, equals sign, value; items meet at an ampersand |
| `CanonicalText.PlusIsSpace` | internal/s3server/auth.go:219-221 | a plus sign becomes an encoded space wherever it stands; every other character stays |
| `CanonicalText.UnescapeFailsIff` | internal/s3server/auth.go:219-222 | unescaping fails exactly on a percent sign that two hexadecimal digits do not follow |
| `CanonicalText.PieceDroppedIff` | internal/s3server/auth.go:219-222 | a piece is dropped exactly when it is empty, holds a semicolon, or has a malformed key or value |
| `CanonicalText.ParseSplits` | internal/s3server/auth.go:219-222 | pieces end at ampersands and count one after another |
| `CanonicalBytes.SameCanonicalIffSameBytes` | internal/s3server/auth.go:214-257 | when the unescaped parameters are valid UTF-8, two raw queries have the same canonical string exactly when they carry the same byte parameters |
| `CanonicalBytes.SharedIff` | internal/s3server/auth.go:214-294 | for every query: one with other byte parameters has its canonical string if and only if a decoded parameter of it contains U+FFFD |
| `CanonicalBytes.InvalidBytesCollide` | internal/s3server/auth.go:269-287 | two different invalid bytes give one canonical string |

## Left out

- Identifiers are abstract strings: ids arrive trimmed and without repetitions (`normalizeFileIDs`), except in the module
  configuration, lock tokens and pool ids, where trimming is modelled.
- Database, cache and storage failures, the five-minute cache lifetime, and a mutation between a lookup and its group
  registration: a cached lookup is one atomic step.
- Steps whose code does not keep the invariants of the forest: emptying the recycle bin (soft-deletes without invalidation),
  the gRPC file update (sets a parent without a descendant check), and restoring soft-deleted rows, which the code never does.
- `derived`, `indexed` and thumbnail flags, names, metadata and quotas of rows; whether a pool is hidden or shared
  (parameters of an upload); deletion of blobs by a purge.
- ForestRuns.RunKeepsInv: runs contain overwrites whose discarded children are leaves and access updates whose rows name
  their file; for both the exact condition is proved instead.
- Batch purge starts from the rows the account lookup returned, distinct and existing; the lookup itself is not modelled.
- Module factories beyond id, flags and requirements (kind, constructors), and the wording and sorting of warnings.
- PoolMigrationRuns.EveryRunKeepsFilesReadable: assumes one migration direction, atomic writes, different backends for
  unequal configurations, and that rows on the source backend belong to the source pool and carry a `storage_key`, uploaded
  ones included; without the last two `PoolMigration.MoveKeepsReadableIff` is the exact condition. Uploads bring a fresh key;
  overwriting a file while its pool is migrated is not a step. A completed task says nothing about later uploads.
- Claiming of migration tasks by workers, cancellation, and the floating-point progress value.
- Cancelling an upload (deletes its source without a claim), thumbnails written by clients, and everything after the file
  row of a completed upload is created. Overwriting through a direct upload is modelled for uninterrupted
  completions only.
- ChunkedUploadRaces.CompletionUnderRaces: persisting succeeds there, and the staged file, which the worker that persists
  it removes, stays in the state; a persist that fails is the subject of `ChunkedUploadRetry`. Each read and each write of a
  buffer is one atomic step.
- The HTTP chunk route, which may write one byte past an over-long chunk before rejecting it; the gRPC route checks first.
- Concurrent access to the in-memory cache and the disk cache (one mutex; one sweeper), and reads and writes of the disk cache.
- Membership, workspace kind and plan quotas come from another service and are parameters.
- Operation names of a WOPI request are already parsed; the token check is a flag.
- UploadQuota.UploadsStayWithinTheTotal: checks and additions alternate; two checks before one addition can overrun, since
  the code takes no lock. Rounding of float64, overflow of int64 sums, and fetching the total quota are not modelled.
- CanonicalQuery.CanonicalizeQuery: raw queries are valid UTF-8 text; escaped bytes may be anything, and a byte that starts
  no valid encoding reads as U+FFFD, as ranging over a string does. The map is keyed by the decoded text rather than by raw
  bytes, which regroups such keys without changing the listed pairs.
- Authentication, signing, HTTP, gRPC and SQL text, media processing, the web client, WebDAV, configuration and administration.
