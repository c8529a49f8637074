# Verified model of the nog server packages and client

This Dafny project models the protocols and algorithms of the nog content and file system services that
keep state across steps: MongoDB documents that several processes update, streams that patch a published
view, journals that are followed across crashes, buffers that batch content-addressed entries, and tokens
that are issued from tokens. Each core is one module.

- `DocLock`: the lease lock in a MongoDB document, with any number of contenders.
- `CatalogIndex`, `CatalogStages`, `CatalogUpdate`, `CatalogRace`, `FieldManager`: the catalog update, which
  is an incremental index, a two-stage build of volumes, both together, the race with the updater of another
  catalog, and an append-only allocation of field names.
- `Merkle`, `Entries`, `PostRequests`, `PostOrigins`, `PostStream`: the content-addressed Python client, with
  lazily loaded trees, caches, what posting a tree requests and from which repo, and the buffered,
  deduplicating post stream over a repo whose calls may fail.
- `TreePublication`: the publication of files from two interleaved streams.
- `Journal`: observers that follow the event journal of a registry.
- `Scopes`, `JwtTables`: scopes, their coding in tokens, and the actions that issue tokens.
- `Listing`, `Dbck`, `RateLimit`, `TokenRefresh`: the one-level listing, the connectivity check, the rate
  limiter, and the refresh of call credentials.

Protocols are state machines over atomic steps, and their theorems hold in every reachable state. Objects
that the source updates in place are classes; their methods are proved against functions of the old state
that the theorems are about.

Assumptions: one MongoDB update of one document is one atomic step. All processes of a model share one
clock. SHA1 is injective, so that an id stands for its content. Lock ids are unique. Clocks, random numbers
and the success of remote calls are parameters. `testAccess` is an arbitrary policy conjoined with the
scope check. A compiled pipeline function is an arbitrary partial function of the id, the path and the
attributes of an entry. A `RepoName` stands for a `RemoteRepo` object. The server has confirmed the ids in
`_knownEntryIds` and `_knownBlobs` and the references of entries that come from the target repo.

## Where the code does less than it says

In each case the model follows the code, a lemma has the failing run or input, and another one has the
exact condition.

- The lock expires after `expireTimeoutS` independently of the holder's `renewIntervalS`: the cached answer
  of `tryRenew` is right if and only if no contender has a shorter timeout than another has an interval
  (`DocLock.CacheIsSoundExactlyWithTiming`). The defaults of 10 and 30 seconds satisfy this.
- An entry below the root with an empty name has the path of the root, so that it is missing from the paths
  of what is below it (`CatalogIndex.StrippedJoinsAlikeExactly`).
- A repo with an up-to-date marker is skipped, although an aborted scan of another commit may have left
  refpaths (`CatalogIndex.SkipIsRightExactlyWithoutStrays`).
- `dropRetiredVolumes` works on all catalogs and can forget volumes that another updater retires meanwhile
  (`CatalogRace.NothingIsLostExactly`, `CatalogRace.ReplacedVolumeIsLost`).
- An empty meta key is decoded as its field name (`FieldManager.MetaRoundTripExactly`), and names that a
  plain JavaScript object inherits get no field (`FieldManager.Manager.GetMongoField`).
- `fso-tree-server.js` says that unseen files are removed when all streams ended successfully; they are
  removed when the stream that finishes last ends (`TreePublication.PromiseBrokenExactly`).
- Two observers of one registry can undo a move (`Journal.FollowsJournalExactly`).
- `nog.py` says that a failed flush can be retried; it can for entries that are not loaded, but loaded
  entries have already changed their repo (`PostStream.PostUntil`, `PostStream.RetryDangles`).
- `collapse()` raises on a subtree that is not loaded (`PostOrigins.CollapsibleExactly`), and it forgets from
  which repo an entry has to be copied (`PostOrigins.CollapsedForgetsCopy`,
  `PostOrigins.CollapseKeepsConfirmedExactly`).
- A granting glob that ends with two stars can be widened (`Scopes.TwoStarsAreWidened`,
  `Scopes.IssuesOnlyNarrowerExactly`), and a requested scope with an empty list of names or paths is granted
  without a check of its actions (`Scopes.SysTokenNarrowsExactly`).
- Very short lifetimes give expired tokens (`TokenRefresh.SafeExactly`).

## Model

| member | source | states |
|---|---|---|
| `DocLock.CacheIsSoundExactlyWithTiming` | packages/nog-catalog/concurrency.js:33-93 | Over every run of any number of contenders with any interleaving of their atomic updates and clock ticks: whenever `tryRenew` answers true from its cache, the caller owns the element in `locks`, if and only if no contender's expiry timeout is shorter than the renewal interval of another contender for the same core. |
| `DocLock.MutualExclusion` | packages/nog-catalog/concurrency.js:1-5 | With that timing, two contenders for one core never both get true from their caches. |
| `DocLock.TrueAnswerExcludesOthers` | packages/nog-catalog/concurrency.js:1-5 | With that timing, when the update of `tryLock` or `tryRenew` answers true, no other contender for the core gets true from its cache. |
| `DocLock.AtMostOneLockPerCore` | packages/nog-catalog/concurrency.js:38-57 | In every reachable state, whatever the timing, at most one element of `locks` matches a core. |
| `DocLock.ExpireRemovesOnlyTheStaleLock` | packages/nog-catalog/concurrency.js:50-57 | Pulling by core removes exactly the elements of that core that are stale. |
| `DocLock.FormerHolderLeavesSuccessorAlone` | packages/nog-catalog/concurrency.js:72-92 | Unlock and renew keep every element of another contender, and change nothing when the caller does not own the lock. |
| `DocLock.RenewAnswersTruthfully` | packages/nog-catalog/concurrency.js:86-92 | In every reachable state, the renew update answers true exactly to the owner, who stays the owner. |
| `DocLock.LostLockStillCached` | packages/nog-catalog/concurrency.js:50-84 | If one timeout is shorter than another contender's interval, a run exists in which the holder loses its element and still gets true. |
| `DocLock.RunKeepsInv` | packages/nog-catalog/concurrency.js:33-93 | The inductive invariant of the protocol: unique cores, elements only of contenders that hold or renew, timestamps not older than the renewal deadline allows. |
| `DocLock.UninterruptedLock` | packages/nog-catalog/concurrency.js:33-70 | The steps of the protocol, run without interruption, give the answer and the document of the method `TryLock`. |
| `DocLock.UninterruptedUnlock` | packages/nog-catalog/concurrency.js:72-78 | The unlock step gives the answer and the document of the method `Unlock`: exactly the elements of the contender for the core go, and the contender holds nothing. |
| `DocLock.UninterruptedRenew` | packages/nog-catalog/concurrency.js:80-93 | The two steps of a renewal give the answer, the document and the next renewal time of the method `TryRenew`: nothing changes before the renewal time; after it, exactly the timestamp of the element that the contender owns becomes the current time. |
| `DocLock.RenewExactly` | packages/nog-catalog/concurrency.js:86-92 | With one element per core, the renew update leaves all elements of others and the own element with the new timestamp, if it was there. |
| `DocLock.MongoDocLock.TryLock` | packages/nog-catalog/concurrency.js:33-70 | Answers true exactly if the core is free or its lock is stale; then the caller's element replaces that of the core; otherwise the document is unchanged. |
| `DocLock.MongoDocLock.Unlock` | packages/nog-catalog/concurrency.js:72-78 | Answers whether the caller owned the lock, and removes only its element. |
| `DocLock.MongoDocLock.TryRenew` | packages/nog-catalog/concurrency.js:80-93 | Before the renewal time: true and no effect. After it: the answer is ownership, and only the caller's timestamp changes. |
| `CatalogIndex.CompletedScanIsExact` | packages/nog-catalog/nog-catalog-main-server.js:331-430 | A completed scan with cleanup lists for the repo exactly the pairs of an entry and a path for which a chain of references of any length leads from the tree of the commit to the entry, the names on it joined with slashes are the path, and every pipeline function in turn returns content; this holds if and only if the pairs already listed at that commit are such pairs. Each refpath has the owner, the name and the commit of the repo; other repos keep their refpaths; no document has empty refpaths. |
| `CatalogIndex.VisitedExactly` | packages/nog-catalog/nog-catalog-main-server.js:292-328 | The walk visits an entry at a path if and only if a chain of references of any length leads from the tree of the commit to it and the names after the root, without empty ones in front, joined with slashes, are the path. |
| `CatalogIndex.StrippedJoinsAlikeExactly` | packages/nog-catalog/nog-catalog-main-server.js:309-316 | The path is all names joined with slashes if and only if there is at most one name or the first one is not empty. |
| `CatalogIndex.PassesExactly` | packages/nog-catalog/nog-catalog-main-server.js:360-367 | An entry passes if and only if there is a content for each stage of the pipeline such that each function maps one to the next. |
| `CatalogIndex.SelectedExactlyWanted` | packages/nog-catalog/nog-catalog-main-server.js:354-412 | The pairs that a scan selects are exactly those that chains of references and the pipeline functions determine. |
| `CatalogIndex.CompletedScanSelects` | packages/nog-catalog/nog-catalog-main-server.js:331-430 | The same exactness in terms of the visits that the pipeline selects. |
| `CatalogIndex.ScanIsExactAfterAnyHistory` | packages/nog-catalog/nog-catalog-main-server.js:790-809 | After any sequence of aborted scans, completed scans and deletions in a volume, a scan that is not skipped and completes is exact. |
| `CatalogIndex.SkipIsRightExactlyWithoutStrays` | packages/nog-catalog/nog-catalog-main-server.js:790-798 | Skipping a repo that is marked up to date is right if and only if no scan of the repo at another commit that was not skipped has aborted after it visited a selected entry, without a later completed scan or cleanup of the repo. |
| `CatalogIndex.SkipListsRightPairsExactly` | packages/nog-catalog/nog-catalog-main-server.js:790-798 | The pairs of entry and path that the skipped repo is listed with are the right ones if and only if all pairs that such scans visited are also selected at the current commit. |
| `CatalogIndex.ListsWhatRemains` | packages/nog-catalog/nog-catalog-main-server.js:331-430 | For every history, what the volume lists for a repo and a commit is exactly what the history leaves, event by event. |
| `CatalogIndex.RemainsIsLeftBehind` | packages/nog-catalog/nog-catalog-main-server.js:790-809 | Under the marker of one commit, what remains of another is exactly what aborted scans left behind. |
| `CatalogIndex.AbortedScanLeavesStaleMarker` | packages/nog-catalog/nog-catalog-main-server.js:790-809 | A scan of another commit that aborts after a selected entry leaves such a refpath under a marker that still says up to date. |
| `CatalogIndex.RunKeepsInv` | packages/nog-catalog/nog-catalog-main-server.js:331-430 | Every refpath of every history belongs to a selected entry of its commit, every marked commit is complete, and each repo has one marker. |
| `CatalogIndex.ScanToAdds` | packages/nog-catalog/nog-catalog-main-server.js:354-412 | The callbacks add exactly the refpaths of the visited entries that pass every pipeline function. |
| `CatalogIndex.DeleteLists` | packages/nog-catalog/nog-catalog-main-server.js:732-766 | The cleanup of a deleted repo removes its refpaths and no others. |
| `CatalogIndex.Scanner.Select` | packages/nog-catalog/nog-catalog-main-server.js:360-367 | The loop over the pipeline functions selects an entry exactly if each function returns content, each applied to the result of the one before. |
| `CatalogIndex.Scanner.OnEntry` | packages/nog-catalog/nog-catalog-main-server.js:355-412 | One callback has the effect of one visit. |
| `CatalogIndex.Scanner.Walk` | packages/nog-catalog/nog-catalog-main-server.js:292-328 | The recursive walk visits a prefix of the preorder, all of it present; it fails exactly if it cannot visit all of it, because a lock renewal fails or content is missing or of unknown type. |
| `CatalogIndex.Scanner.WalkEntries` | packages/nog-catalog/nog-catalog-main-server.js:321-325 | The same for the entries of one tree. |
| `CatalogIndex.Scanner.ScanRepo` | packages/nog-catalog/nog-catalog-main-server.js:331-430 | A scan either completes with cleanup, and then all content was present, or leaves what a proper prefix of the walk added. |
| `CatalogStages.VolumesArePartitioned` | packages/nog-catalog/nog-catalog-main-server.js:662-708 | Over any sequence of updates with any config changes and aborts at lock renewals: every created volume is in exactly one of active, building, retired and dropped; the active volume exists and was never dropped. |
| `CatalogStages.NewSerialsIncrease` | packages/nog-catalog/nog-catalog-main-server.js:678-699 | An update creates at most one volume; its serial is new and larger than all before. |
| `CatalogStages.CompletedUpdateLeavesOneVolume` | packages/nog-catalog/nog-catalog-main-server.js:877-889 | Whatever was aborted before, a completed update makes the config active and leaves exactly one volume in existence. |
| `CatalogStages.UpdateExactly` | packages/nog-catalog/nog-catalog-main-server.js:662-708 | What an update does after any history: a new serial exactly if neither stage has its config; it replaces the active stage exactly if it gets to the promotion with another config; an update that aborts before leaves the active stage and drops nothing. |
| `CatalogStages.RunKeepsInv` | packages/nog-catalog/nog-catalog-main-server.js:662-708 | The invariant behind it: partition, one volume per stage named by its serial, no active stage with the config of the building stage. |
| `CatalogRace.NothingIsLostExactly` | packages/nog-catalog/nog-catalog-main-server.js:433-445 | In every run of the own updater and the updater of another catalog, step by step: every created volume is active, building, retired or dropped if and only if the other updater never unsets the retired volumes while they contain some that a step of the own updater retired after the other one read them and that it has not dropped; the guards of the steps decide this. The active volume is never dropped in any run. |
| `CatalogRace.ReplacedVolumeIsLost` | packages/nog-catalog/nog-catalog-main-server.js:433-445 | A run in which the active volume is replaced between the read of an abandoned volume and the unset: it exists forever and no list has it. |
| `CatalogRace.RetiredIsListed` | packages/nog-catalog/nog-catalog-main-server.js:433-445 | In every run, retired volumes are in the field that the drop reads. |
| `CatalogRace.RunKeepsRaceInv` | packages/nog-catalog/nog-catalog-main-server.js:433-445 | The invariant of the two updaters. |
| `CatalogRace.BeginMoves` | packages/nog-catalog/nog-catalog-main-server.js:662-708 | The begin of an update retires volumes exactly if it abandons a build. |
| `CatalogRace.PromoteMoves` | packages/nog-catalog/nog-catalog-main-server.js:877-886 | The promotion retires volumes exactly if there is an active stage to replace. |
| `CatalogUpdate.ActiveVolumeIsCurrentExactly` | packages/nog-catalog/nog-catalog-main-server.js:662-889 | After any sequence of completed and aborted updates with any configs, a completed update that scans a repo leaves one volume, active with its config, which lists the repo at its commit exactly; it lists no other commit of the repo if and only if no aborted scan into this volume left one behind. |
| `CatalogUpdate.ConfigIsFixed` | packages/nog-catalog/nog-catalog-main-server.js:662-708 | All scans into a volume use one config. |
| `CatalogUpdate.CompletedUpdateFillsActive` | packages/nog-catalog/nog-catalog-main-server.js:877-889 | A completed update leaves exactly the volume that it has filled. |
| `CatalogUpdate.ScannedIsCurrentExactly` | packages/nog-catalog/nog-catalog-main-server.js:790-809 | The same for one volume, for any history of scans. |
| `CatalogStages.CatalogDoc.BeginUpdate` | packages/nog-catalog/nog-catalog-main-server.js:662-708 | Chooses the stage, retires volumes of an abandoned build and registers the volume to fill, which is in the chosen stage. |
| `CatalogStages.CatalogDoc.DropRetiredVolumes` | packages/nog-catalog/nog-catalog-main-server.js:433-445 | Drops the retired volumes and no others. |
| `CatalogStages.CatalogDoc.UpdateCatalog` | packages/nog-catalog/nog-catalog-main-server.js:877-889 | One update, up to a failing lock renewal, is one step of the run and keeps the invariant. |
| `FieldManager.AllocatedFieldIsForever` | packages/nog-catalog/nog-catalog-main-server.js:194-236 | For any interleaving of several managers: a field that a manager has read is the field of that key in the shared list, now and after any further actions. |
| `FieldManager.FieldIsStable` | packages/nog-catalog/nog-catalog-main-server.js:218-225 | A key keeps its field while the list grows by guarded pushes, even if the initial list has duplicates. |
| `FieldManager.DistinctKeysDistinctFields` | packages/nog-catalog/nog-catalog-main-server.js:207-216 | Distinct keys have distinct fields. |
| `FieldManager.FieldIsWellFormed` | packages/nog-catalog/nog-catalog-main-server.js:207-216 | A field is the letter `m` and a decimal number without leading zeros. |
| `FieldManager.ParseOfDecimal` | packages/nog-catalog/nog-catalog-main-client.js:33-36 | Reading back the decimal index of a field name gives the index. |
| `FieldManager.FieldDecodesExactlyIfNonEmpty` | packages/nog-catalog/nog-catalog-main-client.js:31-38 | With the key list of the allocation or any later one, the client decodes a field to its key, if and only if the key is not empty. |
| `FieldManager.MetaRoundTripExactly` | packages/nog-catalog/nog-catalog-main-client.js:24-43 | Encoding a meta object and decoding it with the same or a later list gives it back, if and only if it has no empty key. |
| `FieldManager.DecodeMeta` | packages/nog-catalog/nog-catalog-main-client.js:31-38 | The decoding loop yields exactly the values of the document under the decoded keys. |
| `FieldManager.Manager.constructor` | packages/nog-catalog/nog-catalog-main-server.js:194-205 | Sets the preferred keys only if the list does not exist, and reads the list. |
| `FieldManager.Manager.ReadKeyMap` | packages/nog-catalog/nog-catalog-main-server.js:207-216 | The map agrees with the fields of the list, except that it cannot hold the key `__proto__`. |
| `FieldManager.Manager.GetMongoField` | packages/nog-catalog/nog-catalog-main-server.js:218-236 | Returns the field of the key in the shared list, which grows only by guarded pushes; it returns no field exactly for names that a plain object inherits and that are not in the list. |
| `FieldManager.Manager.EncodeMeta` | packages/nog-catalog/nog-catalog-main-server.js:377-398 | Encodes every key under its field. It fails if a key is an inherited name that is not in the shared list, and only if a key is one that the manager has not read; for a manager that has read the whole list this is exact. |
| `Entries.LoadKeepsId` | nogpackages/nogpy/nog.py:855-905 | Loading content keeps the id. |
| `Entries.ExpandKeepsId` | nogpackages/nogpy/nog.py:1076-1089 | Expanding entries, with or without type and pattern, keeps the id of the tree. |
| `Entries.ExpandSlotKeepsRef` | nogpackages/nogpy/nog.py:1076-1089 | An expanded entry keeps its type and id. |
| `Entries.EnumerateEntries` | nogpackages/nogpy/nog.py:1076-1089 | Replaces each matching raw reference by an entry of the same repo in place and keeps order and the rest of the tree. |
| `Entries.Collapse` | nogpackages/nogpy/nog.py:1013-1025 | Succeeds if and only if every entry object below is an object or a loaded tree; then exactly the entries become raw references, in order. If it raises, the trees that it has collapsed until then stay collapsed. The id is the same either way. |
| `Entries.RaiseLeaves` | nogpackages/nogpy/nog.py:1013-1025 | If `collapse` raises at an entry, the loaded trees before it are collapsed and the entries after it are as they were. |
| `Entries.IdIsStable` | nogpackages/nogpy/nog.py:855-905 | The id and the type of a tree do not change under any sequence of loads, expansions and collapses, also of such that raise, at the tree or at any entry object below it. |
| `Entries.LazySubtreeIsNotCollapsible` | nogpackages/nogpy/nog.py:1013-1025 | A tree with an entry that is a tree not yet loaded, as enumeration leaves it, cannot be collapsed. |
| `Entries.EntryCache.Add` | nogpackages/nogpy/nog.py:673-746 | Stores content under an id exactly if it is the id of the stripped content, on disk and in memory, and keeps the cache valid. |
| `Entries.EntryCache.Get` | nogpackages/nogpy/nog.py:665-719 | Whatever is on disk: content that is returned belongs to the id; the answer is a hit, a miss or a mismatch error as the caches say. |
| `PostOrigins.LoadedPostsComplete` | nogpackages/nogpy/nog.py:855-905 | Whatever loads and expansions a client does, in any sequence and at any depth, on a tree whose references to the target repo are confirmed: they stay confirmed, and the requests of the resulting tree are in order and complete it. |
| `PostOrigins.ExpandedIsCopied` | nogpackages/nogpy/nog.py:1076-1089 | A raw reference of a tree of another repo that enumeration expands is requested as exactly one copy from that repo; if a pattern has loaded it, all that it refers to is copied from that repo. |
| `PostOrigins.LoadKeepsRepo` | nogpackages/nogpy/nog.py:885-896 | Loading keeps the repo of an entry. |
| `PostOrigins.RequestedExactly` | nogpackages/nogpy/nog.py:1027-1058 | Posting makes a request if and only if some entry object of the tree, at any depth, asks for it: its own content, its blob, or a copy from its own repo of what is known by id only. |
| `PostOrigins.CollapsibleExactly` | nogpackages/nogpy/nog.py:1013-1025 | A tree can be collapsed if and only if it is loaded and every entry object below it at any depth is an object or a loaded tree. |
| `PostOrigins.CollapseKeepsConfirmedExactly` | nogpackages/nogpy/nog.py:1013-1025 | Collapsing a tree keeps its references confirmed if and only if the tree comes from another repo or all its entries are in the target repo. |
| `PostOrigins.CollapsedForgetsCopy` | nogpackages/nogpy/nog.py:1013-1025 | A local tree with an object of another repo asks for its copy; after `collapse()` it does not, and its reference dangles. |
| `PostStream.PostTree` | nogpackages/nogpy/nog.py:226-228 | Whatever calls fail: what reaches the repo are requests of the tree for items that the repo lacked; if the references of the tree to the target repo are confirmed, then in everything that ever reached the repo, each entry comes after all that it refers to. After success the repo has the tree and everything below that the client knows, under the id of the tree. A tree that fits into the buffer takes one flush. |
| `PostStream.PostUntil` | nogpackages/nogpy/nog.py:1027-1058 | Post a confirmed tree and post again what it left, any number of times, with any failures, until a post succeeds: no entry that was ever sent refers to something that the repo lacks, if and only if, of every entry that an earlier attempt has sent or that the last one will send, each copy that moving nodes has dropped is in the repo or requested. The condition speaks of the state before the last post. |
| `PostStream.RetryDangles` | nogpackages/nogpy/nog.py:1033-1057 | A run: a tree from another repo, a failed flush, a successful retry, after which the repo has the tree and lacks its entry. |
| `PostRequests.RetryDanglesExactly` | nogpackages/nogpy/nog.py:1027-1058 | The same as a statement about logs, for every tree shape, every number of attempts and every point of failure. |
| `PostRequests.OrderedIsNotDangling` | nogpackages/nogpy/nog.py:563-588 | If each entry comes after all that it refers to, none refers to something that the repo lacks. |
| `PostRequests.RefsCovered` | nogpackages/nogpy/nog.py:1027-1058 | What the requests of a tree refer to whose nodes have partly moved is confirmed, requested, or a copy that moving dropped. |
| `PostRequests.RequestsInOrder` | nogpackages/nogpy/nog.py:1027-1058 | The requests of a confirmed tree are in order: what an entry refers to comes first. |
| `PostRequests.FulfilledIsComplete` | nogpackages/nogpy/nog.py:1027-1058 | A confirmed tree is complete in the repo once its requests are fulfilled. |
| `PostRequests.AddFacts` | nogpackages/nogpy/nog.py:598-651 | Deduplication requests no item twice and loses none. |
| `PostRequests.AddInOrder` | nogpackages/nogpy/nog.py:598-651 | Deduplication keeps the order of references. |
| `PostRequests.MarkToMoves` | nogpackages/nogpy/nog.py:1057-1058 | A post, however far it gets, only moves loaded nodes to the repo. |
| `PostOrigins.MovesWithItsEntry` | nogpackages/nogpy/nog.py:1027-1058 | However far a post gets: a loaded entry object at any depth has moved to the repo exactly if the request to send its own entry has been made. |
| `PostRequests.MovedKeepsId` | nogpackages/nogpy/nog.py:1057-1058 | Moving nodes keeps the id of every node. |
| `PostRequests.MovedPostsSame` | nogpackages/nogpy/nog.py:1027-1058 | A tree whose nodes have moved asks for the same entries to be sent with content. |
| `PostRequests.SentExactly` | nogpackages/nogpy/nog.py:563-593 | Of the requests whose item is in the repo afterwards, exactly those reached it whose item it lacked. |
| `PostStream.Stream.PostNode` | nogpackages/nogpy/nog.py:1027-1058 | Makes the requests of the node in order, deduplicated, until one fails; returns the id of the node; a loaded node has moved to the repo exactly if all of its requests were made. |
| `PostStream.Stream.PostEntries` | nogpackages/nogpy/nog.py:1037-1053 | The same for the entries of a loaded tree. |
| `PostStream.Stream.PostSlot` | nogpackages/nogpy/nog.py:1040-1052 | The same for one entry; it fails on an entry that is neither object nor tree. |
| `PostStream.Stream.Flush` | nogpackages/nogpy/nog.py:563-593 | Keeps the invariant of the stream, each of its three calls may fail. After success, what reached the repo are the uploads and then the entries that it lacked, and it has everything that was requested; after a failure the queue stays. |
| `PostStream.Stream.Transfer` | nogpackages/nogpy/nog.py:585-591 | The uploads and the bulk post; both may take effect in part. |
| `PostStream.Stream.Collect` | nogpackages/nogpy/nog.py:565-583 | Sorts the records into uploads and payloads, in order; the expected answers align with the payloads. |
| `PostStream.RemoteRepo.Stat` | nogpackages/nogpy/nog.py:284-298 | Tells which queued items exist, and remembers the entries among them. |
| `PostStream.RemoteRepo.UploadBlobs` | nogpackages/nogpy/nog.py:364-372 | Any of the uploads may be done when it fails. |
| `PostStream.RemoteRepo.PostBulk` | nogpackages/nogpy/nog.py:300-313 | Its precondition is what every bulk post is proved to satisfy: total size at most `POST_BUFFER_SIZE` or a single entry of at most `POST_BUFFER_SIZE_LIMIT`, and aligned answers. |
| `PostStream.Stream.MaybeFlush` | nogpackages/nogpy/nog.py:615-624 | Succeeds exactly if the entry is within the limit and fits, or the flush succeeds; afterwards the entry fits into the buffer or the queue is empty. |
| `PostStream.Stream.Append` | nogpackages/nogpy/nog.py:598-613 | Adding a request for an item that is neither known nor requested keeps the invariant. |
| `PostStream.Stream.Enqueue` | nogpackages/nogpy/nog.py:598-603 | Queues an entry with content unless it is known or requested; fails exactly if it is new and cannot be queued. |
| `PostStream.Stream.EnqueueCopyEntry` | nogpackages/nogpy/nog.py:605-613 | The same for a copy from another repo. |
| `PostStream.Stream.EnqueueBlob` | nogpackages/nogpy/nog.py:631-636 | Queues a blob for upload unless it is known or requested. |
| `PostStream.Stream.EnqueueCopyBlob` | nogpackages/nogpy/nog.py:638-646 | The same for the copy of a blob. |
| `PostStream.LackingInOrder` | nogpackages/nogpy/nog.py:563-588 | Leaving out what exists and uploading blobs first keeps the order of references. |
| `PostStream.LackingWithinBounds` | nogpackages/nogpy/nog.py:563-588 | What a flush sends is within the size bounds if the queue is. |
| `PostStream.LackingItems` | nogpackages/nogpy/nog.py:563-588 | A repo that gets what it lacks has everything. |
| `TreePublication.FetchPublishesItsListing` | packages/nog-fso/fso-tree-server.js:235-367 | After any history, failed fetches included: every sequence of events that the streams of a fetch can produce applies; the fetch is done if and only if the stat stream has ended or failed and, if the repo has a meta tree, the meta stream has; if all did so without error, it publishes exactly the union of its stat and meta messages, for every interleaving. |
| `TreePublication.PublishedExactly` | packages/nog-fso/fso-tree-server.js:235-367 | What is published at every moment of every fetch, whichever streams fail: the former documents with the received fields set, until the end of the last stream leaves exactly what the fetch received. |
| `TreePublication.StatStreamFinishesExactlyWithoutMeta` | packages/nog-fso/fso-tree-server.js:251-288 | Stat messages and the end of the stat stream can follow the begin of any fetch; they finish it if and only if the repo has no meta tree, and then exactly the stat messages are published. |
| `TreePublication.StreamsOpenExactly` | packages/nog-fso/fso-tree-server.js:249-252 | An event is enabled exactly if its stream exists and has not ended or failed before. |
| `TreePublication.FetchInvariant` | packages/nog-fso/fso-tree-server.js:235-367 | The same as an invariant of the events of one fetch. |
| `TreePublication.RunKeepsInv` | packages/nog-fso/fso-tree-server.js:103-170 | In every run the known ids are exactly the published documents and their fields. |
| `TreePublication.PrunedIsListing` | packages/nog-fso/fso-tree-server.js:141-169 | Removing and unsetting as `deleteIds` tells leaves exactly what the fetch listed. |
| `TreePublication.PrunesExactlyIfLastStreamEnds` | packages/nog-fso/fso-tree-server.js:246-280 | Unseen files are removed if and only if the stream that finishes last ends; an earlier error of the other stream does not prevent it. |
| `TreePublication.PromiseBrokenExactly` | packages/nog-fso/fso-tree-server.js:246-247 | Files are removed although a stream failed, against the promise of the source, exactly if the stream that finishes last ends and the other one has failed. |
| `TreePublication.FailedStatStreamRemovesFiles` | packages/nog-fso/fso-tree-server.js:246-295 | If the stat stream fails at once and the meta stream then ends empty, all files are removed. |
| `TreePublication.StatSetsOneField` | packages/nog-fso/fso-tree-server.js:110-120 | A stat message sets the stat info of its path, adding the document if needed, and keeps everything else. |
| `TreePublication.MetaSetsOneField` | packages/nog-fso/fso-tree-server.js:122-132 | The same for a meta message. |
| `TreePublication.Subscription.FetchOnce` | packages/nog-fso/fso-tree-server.js:235-252 | Begins a fetch with all known ids unseen and as many expected streams as exist, which is one step of the run. |
| `TreePublication.Subscription.StatMessage` | packages/nog-fso/fso-tree-server.js:297-317 | Every `added` and `changed` call is legal, which its precondition says, and the effect is one step of the run. |
| `TreePublication.Subscription.MetaMessage` | packages/nog-fso/fso-tree-server.js:330-358 | The same for meta messages; a message that does not parse has no effect. |
| `TreePublication.Subscription.DeleteIds` | packages/nog-fso/fso-tree-server.js:141-169 | Computes the three sets of documents and forgets the unseen ids. |
| `TreePublication.Subscription.Prune` | packages/nog-fso/fso-tree-server.js:273-288 | Every `changed` and `removed` call is legal, and together they prune the documents. |
| `TreePublication.Subscription.DoneEnd` | packages/nog-fso/fso-tree-server.js:267-293 | The end of a stream is one step of the run. |
| `TreePublication.Subscription.DoneError` | packages/nog-fso/fso-tree-server.js:254-265 | The error of a stream is one step of the run and removes nothing. |
| `TreePublication.Subscription.Added` | packages/nog-fso/fso-tree-server.js:303-308 | Legal only for an unpublished document. |
| `TreePublication.Subscription.Removed` | packages/nog-fso/fso-tree-server.js:286-288 | Legal only for a published document. |
| `Journal.FollowsJournalExactly` | packages/nog-fso/process.js:531-560 | For a journal with unique event ids and unique live names, the collection is the fold of the journal up to the stored tail or one event beyond it, in every run with any crashes, if and only if there is at most one observer or no repo is moved to two different names. |
| `Journal.SoloObserverFollowsJournal` | packages/nog-fso/observe.js:71-137 | The direction for one observer, with its invariant. |
| `Journal.ManyObserversFollow` | packages/nog-fso/observe.js:71-137 | The direction for several observers, with its invariant. |
| `Journal.LaggingObserverRevertsMove` | packages/nog-fso/observe.js:119-134 | If a repo is moved to two names, any two observers have a run in which one applies the old move after the new one and the collection leaves the journal. |
| `Journal.TailIsApplied` | packages/nog-fso/observe.js:119-122 | With any number of observers and crashes: for every event up to the stored tail, some step of the run has handled it and achieved what it should: its remote calls succeeded if it needs them, an added repo is in the collection, a moved repo is there under its new name. |
| `Journal.FailedEventBlocksTail` | packages/nog-fso/process.js:206-215 | If every step that handles an event which needs a remote call meets a failing call, the stored tail never passes the event, whatever any number of observers do. |
| `Journal.FailedObserverReconnects` | packages/nog-fso/observe.js:119-134 | The observer that meets the failing call stays cancelled until it connects again, and then begins at the stored tail. |
| `Journal.HandlingIsExact` | packages/nog-fso/observe.js:119-134 | In every run, the observer that handles an event goes on exactly if the event has achieved what it should; the tail does not move yet. |
| `Journal.ApplyIsIndexed` | packages/nog-fso/process.js:221-239 | The unique indexes decide the effect of an event: an insert takes effect exactly if the id is new and names stay unique, an update exactly if the id exists and names stay unique. |
| `Journal.AppliesExactly` | packages/nog-fso/process.js:167-239 | `applyEvent` returns exactly if it has achieved what it should. |
| `Journal.NamesStayUnique` | packages/nog-fso/process.js:221-239 | In every run the names in the collection are unique. |
| `Journal.TailMovesToNextEvent` | packages/nog-fso/observe.js:54-69 | Every step leaves the stored tail or moves it to the next event of the journal. |
| `Journal.ApplyAdvancesFold` | packages/nog-fso/process.js:206-239 | Applying the next event advances the fold, and applying it again changes nothing. |
| `Journal.OldEventIsHarmless` | packages/nog-fso/process.js:167-239 | If no repo is moved to two names, applying any old event again changes nothing. |
| `Journal.OldMoveTakesEffect` | packages/nog-fso/process.js:531-560 | If one is, the old move takes effect and the result is not a state of the journal. |
| `Journal.FollowIsTwoSteps` | packages/nog-fso/observe.js:119-134 | An event that the observer object handles without interruption is an apply step and a tail step of the protocol. |
| `Journal.RegistryObserver.UpdateTail` | packages/nog-fso/observe.js:54-69 | Compare-and-set: succeeds exactly if the stored tail is the observer's. |
| `Journal.RegistryObserver.ApplyEvent` | packages/nog-fso/process.js:167-239 | The effect on the collection and whether it returns are those of the step that the lemmas on achieved events are about. |
| `Journal.RegistryObserver.Write` | packages/nog-fso/observe.js:118-137 | A response applies its events in order until the first failure, which cancels the stream. |
| `Scopes.ChainNarrows` | packages/nog-fso/fso-jwt-auth.js:253-258 | Over any chain of issued tokens, the last one permits no operation that the first does not permit, if the globs of the first do not end with two stars and the operation has a path or a name or all requested scopes on the way are grounded; the tokens on the way may have any globs. |
| `Scopes.TokenHop` | packages/nog-fso/fso-jwt-auth.js:211-325 | What an issued token permits comes from a pair of globs that the scopes of the requester permit as strings, whatever globs they have. |
| `Scopes.IssuesOnlyNarrowerExactly` | packages/nog-fso/fso-jwt-auth.js:265-325 | For a user who may issue system tokens and has any other scopes without two-star globs that do not permit the widened operation: with one more path glob, every issued token permits only operations with a path or a name that the user may do, if and only if the glob does not end with two stars. |
| `Scopes.TwoStarsAreWidened` | packages/nog-fso/fso-jwt-auth.js:265-325 | For every user who may issue system tokens and has a path glob that ends with two stars, whatever the other scopes are: the request that is granted, and the operation that its token permits and the glob does not. |
| `Scopes.AdmittedUserWidens` | packages/nog-jwt/rest-bearer-jwt.js:95-104 | An instance with the API scope that bearer authentication demands. |
| `Scopes.SysTokenNarrowsExactly` | packages/nog-fso/fso-jwt-auth.js:253-258 | For scopes without two-star globs: a system token permits only what they permit, for all operations, if and only if every requested scope has a name or a path, or its actions are permitted without one. |
| `Scopes.BareNarrowsExactly` | packages/nog-fso/fso-jwt-auth.js:291-314 | For scopes without two-star globs that permit issuing: all issued tokens are narrower for all operations, if and only if the scopes permit every action that has a code on operations without a path or a name. |
| `Scopes.UntargetedIsGranted` | packages/nog-fso/fso-jwt-auth.js:291-314 | A request with an empty list of names is granted for every action that has a code, without an access test of the action. |
| `Scopes.IssuedTokenNarrows` | packages/nog-fso/fso-jwt-auth.js:211-325 | What a token issued by either action permits, through coding and decoding, the scopes of the requester permit, if their globs do not end with two stars and the operation has a path or a name or the requested scopes are grounded. |
| `Scopes.SysTokenNarrows` | packages/nog-fso/fso-jwt-auth.js:265-325 | The same for system tokens, whose scopes may have wildcards. |
| `Scopes.UserTokenNarrows` | packages/nog-fso/fso-jwt-auth.js:211-251 | The same for user tokens, for any globs of the requester and all operations. |
| `Scopes.GlobNarrowsExactly` | packages/nog-fso/fso-jwt-auth.js:122-133 | Testing a requested glob as if it were a fixed string narrows what it matches, if and only if the granting glob does not end with two stars. |
| `Scopes.GlobMeaning` | packages/nog-access/scopes-v2.js:9-20 | A glob with a trailing star matches exactly the continuations of what precedes the star; any other glob matches itself only. |
| `Scopes.MatchedGlobIsSubset` | packages/nog-access/scopes-v2.js:9-20 | A glob that is matched as a string matches no more than the granting glob. |
| `Scopes.PostSysAuth` | packages/nog-fso/fso-jwt-auth.js:265-325 | Issues exactly if the user may issue system tokens and has scopes, the request is well formed, the user may use every pair of a requested action and a requested name or path, all actions have a code, and a longterm token is recorded; the token is for the requested scopes in order. |
| `Scopes.SysGrantedExactly` | packages/nog-fso/fso-jwt-auth.js:265-325 | When a system token is issued, over the fields of the request: the access test is made for every requested action with every requested name and with every requested path. |
| `Scopes.SysTokenPermitsExactly` | packages/nog-fso/fso-jwt-auth.js:74-90 | Through coding and decoding, an issued system token permits an operation if and only if some requested scope has an action that matches, a path that matches if the operation has one, and a name that matches if it has one. |
| `Scopes.AskedIsPermitted` | packages/nog-fso/fso-jwt-auth.js:291-314 | Whatever an issued system token names, the access statements and the scopes of the requester both permit. |
| `Scopes.PostAuth` | packages/nog-fso/fso-jwt-auth.js:211-251 | Issues exactly if the user may issue user tokens and has scopes, the request is well formed, repo ids resolve, the user may use every requested scope, which has no wildcard and has a code, and a longterm token is recorded. |
| `Scopes.UserGrantedExactly` | packages/nog-fso/fso-jwt-auth.js:211-251 | When a user token is issued, over the fields of the request: the access test is made with the path of the named repo or the given path, and the name; the test of the effective scopes before it is redundant, as the source says. |
| `Scopes.UserTokenPermitsExactly` | packages/nog-fso/fso-jwt-auth.js:190-251 | An issued user token permits an operation if and only if some requested scope has that action, that path, which is the path of the repo if it names one, and that name. |
| `Scopes.ActionAllowed` | packages/nog-fso/fso-jwt-auth.js:293-312 | Decides whether the user may use the action with all names and all paths of the scope. |
| `Scopes.AllAllowed` | packages/nog-fso/fso-jwt-auth.js:291-314 | Decides this for all requested scopes. |
| `Scopes.ScopeAllowed` | packages/nog-fso/fso-jwt-auth.js:292-313 | Decides this for all actions of a scope. |
| `Scopes.DecodeCompiledScope` | packages/nog-fso/fso-jwt.js:112-151 | Decoding a compiled scope gives back the concatenated actions, paths and names in order; compilation fails exactly if an action has no code. |
| `Scopes.DecodeCompiledScopes` | packages/nog-jwt/rest-bearer-jwt.js:80-93 | The same for lists of scopes. |
| `Scopes.TokenScopesAreDecoded` | packages/nog-jwt/rest-bearer-jwt.js:88-93 | The bearer of a token gets exactly the scopes it was issued for. |
| `Scopes.DecodedScopePermitsProducts` | packages/nog-access/scopes-v2.js:34-59 | The check on a decoded scope permits exactly the products of actions with paths and of actions with names. |
| `Scopes.CompileScope` | packages/nog-fso/fso-jwt.js:112-151 | The loops compute the specified claim. |
| `JwtTables.CodeRoundTrip` | packages/nog-fso/action-code.js:5-62 | Every action that has a code is what its code decodes to. |
| `Listing.ListingIsExact` | packages/nog-fso/fso-list-server.js:45-73 | For well-formed repo paths, the listing of a valid path has exactly the repo at the path, the repos one level below, and the directories one level below that contain deeper repos. |
| `Listing.LsReposOneLevel` | packages/nog-fso/fso-list-server.js:45-73 | The loop collects exactly the level paths of the repos at or below the path; it fails exactly if one of them does not match. |
| `Listing.LevelMatchCases` | packages/nog-fso/fso-list-server.js:66-71 | A well-formed path always matches: as the path itself, as a repo one level below, or as a directory above it. |
| `Listing.LevelMatchFailsExactly` | packages/nog-fso/fso-list-server.js:66-71 | For any path below the base, the match is null exactly if an empty segment follows the base. |
| `Listing.DirectoriesAreDeeper` | packages/nog-fso/fso-list-server.js:42-73 | A listed directory without its slash is a valid path, one level deeper, and some repo is deeper still, so that repeated listing ends. |
| `Listing.EveryRepoIsFound` | packages/nog-fso/fso-list-server.js:42-73 | Repeated listing from a path finds every repo below, in as many further listings as the repo is deeper. |
| `Listing.RootFindsAll` | packages/nog-fso/fso-list-server.js:80-82 | From the root it finds every repo. |
| `Dbck.VerifyConnectivity` | packages/nog-ops/dbck-server.js:196-356 | Reports every bad document exactly once, in the order of the scans, with a problem that exists; ok means no report. |
| `Dbck.OkMeansConnected` | packages/nog-ops/dbck-server.js:194-356 | If the check is ok, everything that a chain of references of any length reaches from any ref is present, except a blob at its end whose object has a null blob or a known erratum. The chain follows the references of ids; nothing on it is supposed to be stored. |
| `Dbck.MissingIsReported` | packages/nog-ops/dbck-server.js:244-298 | A missing direct reference of a stored document that is not exempt is reported under that document. |
| `Dbck.OkIsExact` | packages/nog-ops/dbck-server.js:196-356 | The check is ok if and only if every ref that has a commit has a stored one that is not null, the tree and all parents of every commit are stored, every tree entry is a stored tree or a stored object, and every blob of an object is stored, null, or declared lost by one of the three known errata. |
| `Dbck.CheckRepo` | packages/nog-ops/dbck-server.js:221-242 | Finds a true problem of the repo, or none exists. |
| `Dbck.CheckCommit` | packages/nog-ops/dbck-server.js:244-255 | Finds a true problem of the commit, or none exists. |
| `Dbck.CheckTree` | packages/nog-ops/dbck-server.js:257-273 | Finds a true problem of the tree, or none exists. |
| `Dbck.CheckObject` | packages/nog-ops/dbck-server.js:282-298 | Finds a true problem of the object, or none exists. |
| `Dbck.HasOneOfErrata` | packages/nog-ops/dbck-server.js:181-192 | Tells whether the object has a known erratum. |
| `RateLimit.AdmittedExactlyWithinBudget` | packages/nog-search/rate-limit.js:23-36 | For any number of fibers and a clock that does not go back: an operation is admitted if and only if the weight that its slice admitted before is below `maxOps`. |
| `RateLimit.CounterIsWeight` | packages/nog-search/rate-limit.js:28-36 | The counter is the weight that the current slice has admitted. |
| `RateLimit.RateLimiter.Op` | packages/nog-search/rate-limit.js:23-51 | A lone caller pauses exactly if the budget of the slice is used up, and then once, for at most the interval plus 20 percent, rounded up. |
| `RateLimit.PauseReachesLaterSlice` | packages/nog-search/rate-limit.js:47-49 | The rounded pause ends in a later slice, for every jitter and every oversleeping. |
| `RateLimit.PauseIsJittered` | packages/nog-search/rate-limit.js:47-49 | The pause ends within one millisecond after the random part of the next slice, up to 20 percent, has passed. |
| `RateLimit.RateLimiter.Round` | packages/nog-search/rate-limit.js:25-45 | One round of the loop is one step of the run. |
| `RateLimit.ReportedIsLastPaused` | packages/nog-search/rate-limit.js:38-45 | The reported slice is the last slice above zero in which a caller had to pause. |
| `RateLimit.ReportedOnce` | packages/nog-search/rate-limit.js:11-12 | A time slice is reported at most once. |
| `RateLimit.PausedIsReported` | packages/nog-search/rate-limit.js:11-12 | A time slice above zero in which a caller has to pause is reported. |
| `RateLimit.ClockOrdersSlices` | packages/nog-search/rate-limit.js:25-26 | A clock that does not go back gives slices that do not go back. |
| `TokenRefresh.SafeExactly` | packages/nog-fso/grpc.js:211-223 | Every token handed to any call of any run is unexpired in the sense of section 4.1.4 of RFC 7519, if and only if the lifetime is at least 6 seconds and the refresh period is at most the lifetime minus 6 seconds. |
| `TokenRefresh.DerivedPeriodIsSafeExactly` | packages/nog-fso/grpc.js:188-194 | The derived period is half of the lifetime rounded up, and is safe if and only if the lifetime is at least 12 seconds. |
| `TokenRefresh.GivenTimingIsSafeExactly` | packages/nog-fso/grpc.js:183-195 | A timing that is given in full is used as it is, and is safe under exactly that condition. |
| `TokenRefresh.DefaultsAreSafe` | packages/nog-fso/grpc.js:167-186 | Without a lifetime the defaults of 600 and 300 seconds apply and are safe. |
| `TokenRefresh.LatestCallGetsExpired` | packages/nog-fso/fso-jwt.js:12-14 | With a longer refresh period, a token signed at the end of a second is handed out expired at the latest call before the refresh. |
| `TokenRefresh.FirstCallGetsExpired` | packages/nog-fso/fso-jwt.js:220-234 | With a shorter lifetime, the first token can be expired when it is issued. |
| `TokenRefresh.RunOutlives` | packages/nog-fso/fso-jwt.js:226-234 | The invariant: how far the expiration lies behind the refresh time. |
| `TokenRefresh.CallCreds.Gen` | packages/nog-fso/grpc.js:211-223 | Returns the stored token after the specified step. |

## Left out

- Signatures, certificates, HMAC, hash algorithms, S3 transfers, gRPC and HTTP: foreign code; hashes are injective and remote calls are parameters.
- User interface files, settings, package manifests, index creation, logging and error texts: no hard properties.
- Process crashes inside an update of the catalog at points that are not lock renewals, such as between the two updates of the up-to-date marker or between creating a collection and registering it.
- The attributes `name` and `m` of a catalog document, which the first scan that inserts the document decides; truncation of long values; counts of keys; plugins that add content; removal of stale catalogs.
- CatalogIndex.Scanner.Walk: the store does not change during a walk, because the model fixes which content is present.
- Keys of meta objects are treated one by one in any order; on the client, a decoded key `__proto__` is an ordinary key.
- Inherited names of plain JavaScript objects as action names in the two coding tables.
- The lock document itself is missing: all answers are then false.
- Entry objects of the Python client are values: an entry object that appears twice in a tree, or that the caller changes while it enumerates, is not modelled.
- References whose type disagrees with their content: loading such an entry raises.
- Blob ids are kept apart from entry ids, although `stat` and `postBulk` record both in one set.
- Formats of objects by `idversion`, the check of `meta.content`, commits, and errata of loaded entries.
- The server may refuse an entry whose references it lacks; the model logs everything that reaches it.
- More than one foreign updater at a time, and a foreign updater that crashes between its drop and its unset.
- Fetches of the file publication that overlap, collisions of name hashes, and the `ready` signal.
- Initialization of repos with GitLab and the stages of an accepted move: remote calls whose success is a parameter.
- Journals that remove repos: the source has no such event.
- MongoDB evaluates the listing's regular expression with `$` before a trailing newline, too; repo paths with newlines are not modelled.
- The sharing and content-id checks of `dbck-server.js`: the first needs the sharing policy, the second is a recomputation of hashes.
- RateLimit.RateLimiter.Op: requires a positive `maxOps`, because the source otherwise pauses forever; it is for a lone caller, since with others the number of pauses has no bound.
- Rounding of floating point numbers: times are whole milliseconds, the jitter and the weights are real numbers.
- How longterm tokens are recorded on the user document: whether it succeeds is a parameter.
