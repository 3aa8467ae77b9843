# The sync core of smfs, modelled and proved

smfs keeps a local filesystem cache in SQLite tables and reconciles it with a remote document
store. This project models its parts that carry state across calls and proves what they keep over
whole runs. `dafny verify dfyconfig.toml` checks everything.

| file | models |
|---|---|
| `SyncedTables.dfy`, `SyncedFs.dfy` | the pull side on the stored rows, keyed by parent inode and name: reconciling, the pull loops, the watermark, the deletion scan |
| `Reconcile.dfy`, `Convergence.dfy`, `ServedPulls.dfy` | the same on a map from paths to inodes, where the convergence theorems are proved, pulls cut short and edits between pages included |
| `TableView.dfy` | when the rows look like that map, and the convergence theorem on the rows |
| `LocalEdits.dfy` | local writes, truncations and finishing pushes against the pull side |
| `PushQueue.dfy`, `PushWorker.dfy`, `OneDocument.dfy`, `SharedDocuments.dfy` | the durable push queue, its worker, and the identity of documents across pushes, atomic saves and the pulls between them |
| `ChunkStore.dfy` | file contents in 4096-byte chunk rows against the flat reference file |
| `Namespace.dfy`, `Refinement.dfy`, `LinkCounts.dfy`, `Paths.dfy`, `Filesystems.dfy` | the SQLite filesystem with its dentry cache against the in-memory reference filesystem |
| `Timestamps.dfy` | parsing and comparing `updatedAt` stamps |
| `Grep.dfy` | finding a search result's lines in the local file |
| `AgentHint.dfy`, `HintListing.dfy`, `HintStripping.dfy` | delimited hint blocks in agent instruction files, the list of them, and what installing and stripping does to it |
| `SessionCaches.dfy`, `PathIndexes.dfy`, `Volumes.dfy` | the TypeScript volume, its index and its byte-bounded cache |
| `Strings.dfy`, `Wrappers.dfy` | searching and splitting strings; options and results |

What updates state in place is a class or a loop here too, and each method is tied to a function of
its inputs and the old state; the lemmas are about those functions. `SyncedFs.Cache`,
`PushQueue.Db`, `ChunkStore.SqliteFile`, `Filesystems.MemFs`, `Filesystems.SupermemoryFs`,
`AgentHint.InstructionFile`, `PathIndexes.PathIndex`, `SessionCaches.SessionCache` and
`Volumes.Volume` are the objects. The server, the network and the clock are parameters: listings,
replies, and the time of each call.

## Where the code and its promises part

Each of these is a lemma, with the exact condition under which the promise holds.

- Reading inside the part of a file that a growing truncation added to its last chunk slices out of
  range, and reading everything drops holes: `ChunkStore.GrowThenReadFails`,
  `ChunkStore.ReadsRightIffReadable`, `ChunkStore.AllContentIffPacked`.
- A failed row keeps its parked write, and the next enqueue overtakes it; the older write is then
  sent last: `PushWorker.StepOrdered`, `PushWorker.OvertakingSendsStaleLast`.
- The error file beside a rejected source says to delete it and copy the source again. That enqueues
  onto the rejected row, and nothing is sent until a rename of an unsent create replaces the row:
  `PushWorker.StepRejected`, `PushWorker.RejectedForGood`, `PushWorker.RetargetRetries`.
- A flush looks at the mapping and enqueues in two steps. If a POST finishes between them and takes
  the row along, the file is posted twice: `OneDocument.LateFlushIsSafeIff`,
  `OneDocument.LateFlushPostsTwice`.
- A pull that attaches another's document to a file with a push under way, or with one queued for an
  older write, leaves the file with two documents: `SharedDocuments.StepKeepsOneIff`,
  `SharedDocuments.ClashPostsSecond`.
- An atomic save of an empty file deletes the document it replaces, because an empty file is not
  flushed: `OneDocument.SaveKeepsIdentityIff`, `OneDocument.EmptySave`.
- Nothing keeps a document from being attached to a directory. When such a document moves or is
  deleted, the directory does too, and a dirty file below it moves along or is on no path any more:
  `LocalEdits.PathKeptIff`, `LocalEdits.MovedDirectoryTakesFile`,
  `LocalEdits.RemovedDirectoryOrphansFile`, `TableView.RenameLooksIff`, `TableView.ScanLooksIff`.
- A finishing push clears the dirty mark even of a write made after it read the content, and
  truncation sets no mark; an older document may then overwrite the local bytes:
  `LocalEdits.PushEndsProtection`, `LocalEdits.TruncationIsUnprotected`. A document whose stamp does
  not parse overwrites any local write: `LocalEdits.HeldOffIffNewer`.
- A file first pushed while a deletion scan runs can be deleted by it: `LocalEdits.StaleListingDeletes`.
- A rename over a file with other names deletes its inode and leaves the other names dangling; from
  then on the SQLite filesystem and the reference differ: `LinkCounts.OverwriteLosesNames`,
  `LinkCounts.StepNames`, `Refinement.StepRefines`.
- A rename of a directory does not adjust the parents' link counts, and may move it below itself,
  after which the climb that prints its path never ends: `LinkCounts.StepDirs`, `Paths.RenameTree`.
- Directories may be created below a file: `Paths.EnsureSoundIff`.
- A hint block that does not start a line leaves a `<` behind when it is stripped, which what follows
  may complete to a begin prefix; and a begin prefix without a suffix before a block runs on into what
  follows the block once that is stripped. Either may change what is listed after it:
  `AgentHint.StripLeaves`, `HintStripping.StripListsIff`, `HintStripping.StrippingCanJoin`,
  `HintStripping.StrippingCanSwallow`.
- In a leap second the string order of stamps and their time order can be opposite:
  `Timestamps.OrdersAgreeIff`, `Timestamps.LeapSecondInverts`.
- A call of the volume whose reply is lost after the server acted leaves the volume at odds with the
  server; the next add of such a document makes a second one: `Volumes.Volume.AddDoc`,
  `Volumes.AddAgain`, `Volumes.RemoveAgain`.

## Model

| member | source | states |
|---|---|---|
| `TableView.IncrementalRowsEqualFull` | crates/smfs-core/src/sync/pull.rs:30-158 | Incremental sync equals full resync on the stored rows: over any run of server edits (finished, well stamped, later than all before, places prefix-free and never reused) and of pulls, any of them cut short by a page that cannot be listed, pulling increments and pulling everything leave the same rows, contents and mirrored stamps, and the same watermark too once a pull goes through |
| `TableView.RunLooks` | crates/smfs-core/src/cache/fs.rs:115-588 | Over all those runs the rows, keyed by parent and name, look from outside like the map from paths to inodes that the convergence theorems are about |
| `TableView.ReconcileLooksIff` | crates/smfs-core/src/cache/fs.rs:242-434 | So does one reconciliation of any document in any sound tables, if and only if it moves neither an inode that has something filed below it nor one below itself |
| `TableView.ReconcileLooks` | crates/smfs-core/src/cache/fs.rs:242-434 | And it then ends alike on the rows and on the paths: updated, unchanged, held off, refused, deferred, attached or created |
| `TableView.UpdateLooksIff` | crates/smfs-core/src/cache/fs.rs:264-320 | For a mapped document of whatever status, whose error file may be written after the move, the same condition is exact |
| `TableView.AddLooks` | crates/smfs-core/src/cache/fs.rs:323-434 | A document that is not mapped yet, deferred with or without an error file, attached to what is at its place or made a new file, does to the paths what it should in any sound tables, and ends alike |
| `TableView.RenameLooksIff` | crates/smfs-core/src/cache/fs.rs:568-588 | Changing one row's parent and name moves that inode's path and no other, if and only if nothing is filed below the inode and the new path does not lead through it |
| `TableView.ScanLooksIff` | crates/smfs-core/src/cache/fs.rs:775-807 | Deleting rows removes the deleted inodes' paths and no other, if and only if everything filed below them goes too |
| `TableView.LooksDetermine` | crates/smfs-core/src/cache/fs.rs:80-111 | Sound tables that look alike have the same rows |
| `Convergence.IncrementalEqualsFull` | crates/smfs-core/src/sync/pull.rs:30-158 | The same over maps from paths to inodes, with each pull free to be cut short at any page: the two caches differ at most in their watermarks, and everything at or below either watermark is mirrored throughout |
| `Convergence.PullsAgree` | crates/smfs-core/src/sync/pull.rs:30-158 | However many pages can be listed, the increment and the whole listing leave caches alike but for the watermark; if all can, they are equal |
| `Convergence.StaysCaughtUp` | crates/smfs-core/src/sync/pull.rs:52-55 | Further edits leave everything at or below the watermark mirrored: they are stamped above it |
| `Convergence.PullSome` | crates/smfs-core/src/sync/pull.rs:46-48 | A pull that is cut short keeps what it reconciled and the old watermark, and everything at or below that is still mirrored |
| `Convergence.BeyondTheIncrement` | crates/smfs-core/src/sync/pull.rs:52-55 | However far beyond the increment a pull goes, it does to the cache what the increment does |
| `Convergence.SeenIsMirrored` | crates/smfs-core/src/sync/pull.rs:52-55 | Everything listed from the first document at or below the watermark on is mirrored already |
| `Convergence.PullNothing` | crates/smfs-core/src/cache/fs.rs:276-286 | Documents already mirrored reconcile to no change at all |
| `Convergence.PullOne` | crates/smfs-core/src/cache/fs.rs:242-434 | Pulling one listed document mirrors it, un-mirrors nothing, keeps every entry accounted for by a document, and changes nothing if it was mirrored |
| `Convergence.WatermarksMeet` | crates/smfs-core/src/sync/pull.rs:60-77 | Either pull, if it goes through, stores the stamp of the last edit |
| `Convergence.LastWriterWins` | crates/smfs-core/src/cache/fs.rs:265-320 | Whatever the order and repetition of a clean document's versions, the cache ends with the contents, place and mirrored stamp of the greatest `updatedAt`, and any version again changes nothing |
| `Convergence.VersionStep` | crates/smfs-core/src/cache/fs.rs:265-320 | A version replaces what is shown exactly when it is newer than what was mirrored; otherwise nothing changes |
| `Convergence.BestIsGreatest` | crates/smfs-core/src/cache/fs.rs:276-286 | The fold of "better" over versions in any order is the greatest one |
| `Convergence.WellFormedStampsAgree` | crates/smfs-core/src/sync/pull.rs:52-63 | For well-formed stamps the string order of the watermark is the millisecond order of reconciling, as the increment needs |
| `Convergence.ListedBefore` | crates/smfs-core/src/sync/pull.rs:82-94 | What a newest-first listing still shows after more edits, if it is none of them, it showed before |
| `ServedPulls.PullWhileEdited` | crates/smfs-core/src/sync/pull.rs:46-94 | A pull of any number of pages, the server being edited between any two of them, leaves everything at or below its new watermark mirrored: what it misses is above it |
| `ServedPulls.ServedCovers` | crates/smfs-core/src/sync/pull.rs:82-94 | Whatever is edited between pages, what is listed at the end of the pages asked for has been served, unless it is newer than anything served |
| `ServedPulls.MovesDown` | crates/smfs-core/src/sync/pull.rs:82-94 | A document not edited meanwhile was listed before the edits, no further down |
| `SyncedFs.Cache.DeltaPull` | crates/smfs-core/src/sync/pull.rs:30-80 | The page loop with its watermark break does to the rows what reconciling the unseen start of the listing does, stores the newest stamp and counts; a page that cannot be listed ends it with what was met reconciled and no watermark stored |
| `SyncedFs.Cache.FullPull` | crates/smfs-core/src/sync/pull.rs:112-158 | The page loop reconciles the whole listing and stores the newest stamp; a page that cannot be listed ends it with what was met reconciled and no watermark stored |
| `SyncedFs.Cache.DeltaPage` | crates/smfs-core/src/sync/pull.rs:46-63 | One page: stops at the first document at or below the watermark and at no other |
| `SyncedFs.Cache.ReconcileDoc` | crates/smfs-core/src/cache/fs.rs:242-434 | One reconciliation on the rows as the code does it, directories among what a document may be attached to and moved as; no document is ever mapped to two inodes |
| `SyncedFs.Cache.ApplyRenameTo` | crates/smfs-core/src/cache/fs.rs:568-588 | Parents are created; then the inode's one row has the new parent and name, or nothing moved because it has no single row or another's is in the way |
| `SyncedFs.Cache.CreateDerivedSibling` | crates/smfs-core/src/cache/fs.rs:617-697 | A derived file is written at the place unless a file the cache did not derive is there, and then, exactly, refused |
| `SyncedFs.Cache.EnsureDirs` | crates/smfs-core/src/cache/fs.rs:115-167 | Walks down the rows, making a directory for each missing component and nothing else, and returns the last one |
| `SyncedFs.Cache.ApplyDeletion` | crates/smfs-core/src/cache/fs.rs:775-807 | Removes the document's inode and its rows exactly when it is mapped, clean and has a row; rows filed below it stay |
| `SyncedFs.Cache.DeletionScan` | crates/smfs-core/src/sync/scan.rs:36-101 | The two loops together remove exactly the clean mapped inodes with a row whose documents are not listed, and count them; nothing if a page cannot be listed |
| `SyncedFs.ReconcileKeepsInjective` | crates/smfs-core/src/cache/fs.rs:242-434 | Reconciling never maps one document to two inodes |
| `SyncedFs.TraceFolds` | crates/smfs-core/src/sync/pull.rs:46-63 | The progress after n documents is the fold of reconciling over the first n |
| `SyncedFs.RemoveOneMore` | crates/smfs-core/src/sync/scan.rs:91-98 | Each deletion decides as it would have at the start: earlier deletions of the scan do not influence it |
| `LocalEdits.LocalEditsSurvive` | crates/smfs-core/src/cache/fs.rs:264-273 | Through any interleaving of documents older than the dirty mark, scans, writes, and pushes of other files, a dirty file keeps its rows, its mark and the bytes last put there locally |
| `LocalEdits.PathKeptIff` | crates/smfs-core/src/cache/fs.rs:568-807 | Any step keeps the path of an inode it does not itself move or remove, if and only if it moves or removes nothing on the way there |
| `LocalEdits.LocalEditsStay` | crates/smfs-core/src/cache/fs.rs:264-807 | Through such an interleaving a dirty file stays at its path as long as no step moves or removes a directory above it |
| `LocalEdits.LocalEditsStayPut` | crates/smfs-core/src/cache/fs.rs:323-371 | In particular if no directory above it is mapped to a document and none comes to be: no document met is filed there, and none is posted from there |
| `LocalEdits.MovedDirectoryTakesFile` | crates/smfs-core/src/cache/fs.rs:331-588 | Otherwise: an old document filed at the directory's path takes the directory over, and moving elsewhere takes the dirty file with it |
| `LocalEdits.RemovedDirectoryOrphansFile` | crates/smfs-core/src/cache/fs.rs:331-807 | And when that document is deleted, the directory goes and the dirty file is on no path at all |
| `LocalEdits.StepStays` | crates/smfs-core/src/cache/fs.rs:242-807 | Every step keeps all rows but those of the inodes it moves or removes |
| `LocalEdits.RemoteWrites` | crates/smfs-core/src/cache/fs.rs:264-371 | A document changes a non-derived file's bytes exactly when it is finished, has text, is not older than a local write, and the file is its target; a newer local write keeps bytes, mark and rows |
| `LocalEdits.HeldOffIffNewer` | crates/smfs-core/src/cache/fs.rs:264-273 | A document waiting for its file is held off exactly by a dirty mark newer than a stamp that parses |
| `LocalEdits.ScanIsExact` | crates/smfs-core/src/sync/scan.rs:36-101 | After a scan a mapped file with a row is there if and only if its document is listed or it is dirty; what stays keeps rows, bytes and mapping |
| `LocalEdits.ScanTwice` | crates/smfs-core/src/sync/scan.rs:36-101 | Scanning the same listing again changes nothing |
| `LocalEdits.ScanAfterPull` | crates/smfs-core/src/sync/scan.rs:36-101 | Right after pulls, cut short or not, a scan of the same listing deletes nothing |
| `LocalEdits.PushEndsProtection` | crates/smfs-core/src/sync/push.rs:194-199 | A finishing push clears the mark of a write made while it was under way: an older document then overwrites that write, which it could not have before |
| `LocalEdits.TruncationIsUnprotected` | crates/smfs-core/src/cache/file.rs:224-280 | Truncation does not mark the file dirty: a document older than the truncation replaces it, though not an equally old write |
| `LocalEdits.StaleListingDeletes` | crates/smfs-core/src/sync/scan.rs:83-98 | A file whose first push finishes after the scan's listing was taken is deleted by that scan |
| `PushQueue.NewestWriteWins` | crates/smfs-core/src/cache/db.rs:269-330 | Of two enqueues on a path the later one counts, whatever the row's state; an id the earlier one brought stays known unless the row is being sent |
| `PushQueue.FailedSendRestores` | crates/smfs-core/src/cache/db.rs:485-502 | A claimed row whose send fails is what it was before the claim, one attempt older and due after its backoff, with any write that arrived meanwhile parked beside it |
| `PushQueue.SuccessfulSendLeaves` | crates/smfs-core/src/cache/db.rs:449-482 | A send that succeeds leaves nothing, or exactly the row that enqueueing the write that arrived meanwhile would leave |
| `PushQueue.PostedIdReachesParked` | crates/smfs-core/src/cache/db.rs:440-482 | The id a POST returned reaches the write parked during it, which is therefore sent to that document and not posted |
| `PushQueue.RejectedIsNeverDue` | crates/smfs-core/src/cache/db.rs:384-530 | Enqueueing on a rejected row only replaces what it would have sent: it is due at no time |
| `PushQueue.Db.PushQueueRetargetPendingCreate` | crates/smfs-core/src/cache/db.rs:335-380 | An unsent create moves to the other path, replacing any row there, and keeps or takes the document id |
| `PushQueue.Db.PushQueueClaimNext` | crates/smfs-core/src/cache/db.rs:384-437 | Marks one due row with the oldest stamp inflight and returns its job; none if no row is due |
| `PushQueue.Db.ClaimBatch` | crates/smfs-core/src/sync/push.rs:86-134 | One round of the claim loop: distinct due rows in stamp order, no more than the permits, and no older row left while a permit is |
| `PushQueue.Db.ClearRemoteIdAfter404` | crates/smfs-core/src/cache/db.rs:555-562 | Forgets the vanished document in the row and in the mapping of every inode |
| `PushQueue.Db.ProcessJob` | crates/smfs-core/src/sync/push.rs:155-385 | Every branch of a job, for every kind of request and reply, ends in the stated outcome and effect on the row |
| `PushQueue.FinishReleases` | crates/smfs-core/src/sync/push.rs:155-385 | Every way a job can end deletes its row or releases it, and touches no other row |
| `PushQueue.ClaimOneMore` | crates/smfs-core/src/sync/push.rs:86-134 | One more claim keeps a batch distinct, in stamp order, with no older row left |
| `PushWorker.StepSafe` | crates/smfs-core/src/cache/db.rs:335-437 | Every step keeps the live jobs one per path and exactly the inflight rows, at most eight, if and only if it does not retarget onto a path being sent |
| `PushWorker.RunSafe` | crates/smfs-core/src/sync/push.rs:80-134 | Over every run without such a retarget each path has at most one live job and at most 8 rows are inflight |
| `PushWorker.NeverDropped` | crates/smfs-core/src/sync/push.rs:178-385 | No job of a run ends dropped for want of content or of a new name: every request that is enqueued says what to send, and rows keep that |
| `PushWorker.NoEnqueuedWriteIsLost` | crates/smfs-core/src/cache/db.rs:269-380 | Over every run of enqueues, retargets that hit no inflight row, claims and job endings, the newest request for each path is in its main or parked slot or has been confirmed; what a retarget moves counts for its new path, and the old one is left with what it had confirmed |
| `PushWorker.StepOrdered` | crates/smfs-core/src/cache/db.rs:308-327 | Every step keeps sends in enqueue order if and only if it does not enqueue onto a released row that still has a parked write |
| `PushWorker.RunOrdered` | crates/smfs-core/src/cache/db.rs:449-502 | Over runs without such an enqueue the order is kept |
| `PushWorker.SendsFollowEnqueues` | crates/smfs-core/src/cache/db.rs:269-502 | Confirmed sends follow enqueue order, and once a path's row is gone the last one sent is the last one enqueued |
| `PushWorker.OvertakingSendsStaleLast` | crates/smfs-core/src/cache/db.rs:492-501 | Without that guard the write that overtook is sent first and the older parked one last |
| `PushWorker.SuccessesEmptySlots` | crates/smfs-core/src/cache/db.rs:449-482 | Without new enqueues every success empties exactly one slot and nothing else does |
| `PushWorker.AtMostTwoSends` | crates/smfs-core/src/cache/db.rs:297-327 | However many enqueues and failures came before, a path not enqueued again sees at most two more successes |
| `PushWorker.StepShrinksAhead` | crates/smfs-core/src/cache/db.rs:384-437 | While a due row waits, every claim takes one of the rows stamped no later and no row joins them |
| `PushWorker.BoundedWaiting` | crates/smfs-core/src/sync/push.rs:86-134 | A due row that is left alone is claimed within as many claims as there were due rows stamped no later |
| `PushWorker.StepRejected` | crates/smfs-core/src/cache/db.rs:317-380 | A step leaves a rejected row rejected, if and only if it is not a retarget that takes the row away or replaces it by one not itself rejected |
| `PushWorker.RejectedForGood` | crates/smfs-core/src/cache/db.rs:317-324 | Until such a retarget nothing is sent for the path, whatever is enqueued on it |
| `PushWorker.RetargetRetries` | crates/smfs-core/src/cache/db.rs:355-371 | Such a retarget does retry the path: the create it moved there is due |
| `OneDocument.OneDocumentPerFile` | crates/smfs-core/src/sync/push.rs:178-243 | Over any run of atomic flushes landing between any two steps of a job, with failures without server effect, at most one document is created for each file |
| `OneDocument.AtMostOnePost` | crates/smfs-core/src/cache/file.rs:282-327 | Starting with nothing queued, every file is posted at most once |
| `OneDocument.StepPostsOnce` | crates/smfs-core/src/cache/db.rs:449-482 | The id of a created document is with its job, in the mapping or in the row, so that no later job posts: kept by every step |
| `OneDocument.StepPlaced` | crates/smfs-core/src/cache/db.rs:308-327 | Rows and jobs of a path carry the inode that lives there, and live jobs hold their rows |
| `OneDocument.LateFlushIsSafeIff` | crates/smfs-core/src/cache/file.rs:306-322 | A flush whose look at the mapping came while the file had no document, and whose enqueue comes now, has no file posted twice, if and only if the path has a row or the file has no document |
| `OneDocument.LateFlushPostsTwice` | crates/smfs-core/src/cache/file.rs:306-322 | And it is reached from an empty queue: a look before the first push ends, the enqueue after it, and the file is posted twice |
| `OneDocument.SaveKeepsIdentityIff` | crates/smfs-core/src/cache/fs.rs:1889-2015 | One write, flush and rename over a file leaves no row for the temporary path and one create for the final one, with the new inode and the replaced document's id, if and only if the file is not empty |
| `OneDocument.EmptySave` | crates/smfs-core/src/cache/fs.rs:1983-2012 | Saving an empty file, which is not flushed, asks instead for the replaced document to be deleted and leaves a rename queued under the temporary path |
| `OneDocument.StepSettled` | crates/smfs-core/src/cache/fs.rs:1889-2015 | Every save, send or failure keeps the two paths settled and the document, if and only if it does not save an empty file |
| `OneDocument.SavesKeepOneDocument` | crates/smfs-core/src/cache/fs.rs:1889-2015 | Over any number of atomic saves of files that are not empty, sends and failures, the final path keeps its document, and at most one is created if it had none |
| `OneDocument.EmptySaveLosesDocument` | crates/smfs-core/src/cache/file.rs:299-301 | An empty save leaves the final path without the document it stood for |
| `SharedDocuments.StepKeepsOneIff` | crates/smfs-core/src/cache/fs.rs:331-371 | With pulls attaching documents of others between any two steps of the pushes: a step keeps every file at one document that every push knows, if and only if it is not a pull that brings a second document, or a first one while a push is under way, or while one is queued and no newer local write hands the document to it; the document just posted may be attached before the push records it |
| `SharedDocuments.OneDocumentShared` | crates/smfs-core/src/sync/push.rs:178-243 | Over any run of pushes and pulls without such a pull no file stands for two documents |
| `SharedDocuments.AtMostOneDocument` | crates/smfs-core/src/sync/push.rs:178-243 | The same from an empty queue and an empty mapping |
| `SharedDocuments.ClashPostsSecond` | crates/smfs-core/src/cache/fs.rs:331-371 | After such a pull the file has two documents, at once or after the POST that is under way or queued, without another pull |
| `SharedDocuments.ClashIsNear` | crates/smfs-core/src/cache/fs.rs:331-371 | One flush of a new file and one document filed at its path and newer than the write are enough; had the write been newer, the document would have been handed to the queued push |
| `ChunkStore.StepRefinesFlat` | crates/smfs-core/src/cache/file.rs:122-280 | Write, truncate and rewrite change the flat contents as the reference file does, whatever the rows look like |
| `ChunkStore.WriteRefinesFlat` | crates/smfs-core/src/cache/file.rs:122-222 | Writing over chunk rows is writing over the flat bytes |
| `ChunkStore.TruncateRefinesFlat` | crates/smfs-core/src/cache/file.rs:224-280 | Dropping and trimming rows is truncating the flat bytes |
| `ChunkStore.RewriteRefinesFlat` | crates/smfs-core/src/cache/fs.rs:591-615 | Slicing new content into rows stores exactly that content, packed |
| `ChunkStore.WriteKeepsPacked` | crates/smfs-core/src/cache/file.rs:150-188 | From a packed file a write leaves it packed if and only if it starts no later than the chunk holding the end of file |
| `ChunkStore.TruncateKeepsPacked` | crates/smfs-core/src/cache/file.rs:224-280 | From a packed file truncation leaves it packed if and only if it does not grow the file |
| `ChunkStore.StepKeepsPacked` | crates/smfs-core/src/cache/file.rs:122-280 | One operation on a packed file leaves it packed exactly when it is guarded |
| `ChunkStore.WriteKeepsWhole` | crates/smfs-core/src/cache/file.rs:150-188 | In a file with holes a write leaves every stored row full up to its chunk's or the file's end, if and only if it neither starts beyond a last chunk stored in part nor ends inside a hole |
| `ChunkStore.TruncateKeepsWhole` | crates/smfs-core/src/cache/file.rs:224-280 | So does truncation, if and only if it does not grow the file past a last chunk stored in part |
| `ChunkStore.StepKeepsWhole` | crates/smfs-core/src/cache/file.rs:122-280 | One operation keeps rows whole exactly then |
| `ChunkStore.RunWithHolesReadsAsFlat` | crates/smfs-core/src/cache/file.rs:41-280 | After any run of such operations every ranged read returns what the reference file holds, whatever holes there are |
| `ChunkStore.RunRefinesFlat` | crates/smfs-core/src/cache/file.rs:122-280 | Over every run what is stored is what the flat file holds |
| `ChunkStore.RunKeepsPacked` | crates/smfs-core/src/cache/file.rs:122-280 | Guarded runs keep every chunk full but the last |
| `ChunkStore.ReadsRightIffReadable` | crates/smfs-core/src/cache/file.rs:86-120 | Every range reads as the flat file if and only if every row is full or ends at the end of file, but for single missing bytes followed by zeros |
| `ChunkStore.AllContentIffPacked` | crates/smfs-core/src/cache/db.rs:566-593 | Reading everything gives the flat contents if and only if the file is packed, and is too short otherwise |
| `ChunkStore.GuardedRunReadsAsFlat` | crates/smfs-core/src/cache/file.rs:41-280 | After any guarded run every ranged read and the whole-file read return what the reference file holds |
| `ChunkStore.GrowThenReadFails` | crates/smfs-core/src/cache/file.rs:86-112 | After growing a file by truncation, a read starting in the new part of its last chunk slices out of range |
| `ChunkStore.SqliteFile.Read` | crates/smfs-core/src/cache/file.rs:41-120 | The read with its row loop, gap filling and padding computes the specified result, errors included |
| `ChunkStore.SqliteFile.ReadRows` | crates/smfs-core/src/cache/file.rs:79-117 | The loop over rows gathers what the rows and gaps give, index by index |
| `ChunkStore.SqliteFile.Write` | crates/smfs-core/src/cache/file.rs:122-222 | The size cap, the missing inode, the chunk loop, the new size and the dirty mark |
| `ChunkStore.SqliteFile.WriteRows` | crates/smfs-core/src/cache/file.rs:151-186 | The read-modify-write loop produces the rows of the written file |
| `ChunkStore.SqliteFile.Truncate` | crates/smfs-core/src/cache/file.rs:224-280 | Deleting rows by index and trimming one is cutting every row at the size; the dirty mark is not touched |
| `ChunkStore.SqliteFile.RewriteContent` | crates/smfs-core/src/cache/fs.rs:591-615 | The loop stores the content as consecutive slices |
| `ChunkStore.SqliteFile.ReadAllContent` | crates/smfs-core/src/cache/db.rs:566-593 | The loop runs the rows together and cuts at the size |
| `Refinement.StepRefines` | crates/smfs-core/src/cache/fs.rs:997-2022 | One operation on related filesystems, the dentry cache evicting whatever it likes: both succeed or fail alike and stay related, if and only if it is not a rename around a dangling entry |
| `Refinement.AddRefines` | crates/smfs-core/src/cache/fs.rs:1242-1312 | Mkdir, create and symlink add the same inode and entry to both |
| `Refinement.RmdirRefines` | crates/smfs-core/src/cache/fs.rs:1314-1380 | Rmdir removes the same, or fails in both |
| `Refinement.UnlinkRefines` | crates/smfs-core/src/cache/fs.rs:1501-1606 | Unlink drops a name and, with the last one, the inode, in both |
| `Refinement.HardlinkRefines` | crates/smfs-core/src/cache/fs.rs:1710-1789 | Link adds the same name and count to both |
| `Refinement.RenameRefines` | crates/smfs-core/src/cache/fs.rs:1791-2022 | Rename, onto nothing or over something, ends alike in both exactly unless a dangling entry is involved |
| `Refinement.LookupRefines` | crates/smfs-core/src/cache/fs.rs:997-1082 | A lookup answered from the dentry cache or the table gives what the reference gives |
| `LinkCounts.RunRefines` | crates/smfs-core/src/vfs/mem.rs:130-577 | Over every run that never replaces a file with other names, each operation ends alike in both filesystems and both hold the same namespace |
| `LinkCounts.LinkCountsAreExact` | crates/smfs-core/src/vfs/mem.rs:232-577 | From the empty filesystem such runs keep every file's count the number of its entries, every directory's 2 plus its subdirectories if no directory is moved, and no entry dangles |
| `LinkCounts.StepNames` | crates/smfs-core/src/cache/fs.rs:1914-1947 | Every operation keeps counts of names exact and entries from dangling, if and only if it does not replace a file that has other names |
| `LinkCounts.StepDirs` | crates/smfs-core/src/cache/fs.rs:1914-1947 | Every operation keeps directory counts exact if and only if it does not move a directory to another parent or onto an empty directory |
| `LinkCounts.OverwriteLosesNames` | crates/smfs-core/src/cache/fs.rs:1914-1933 | Replacing a file that has other names leaves every one of them dangling |
| `Filesystems.PerformBoth` | crates/smfs-core/src/cache/fs.rs:997-2022 | One operation run on both filesystem objects: they answer alike and stay in step, with exact link counts and nothing dangling, if and only if it does not replace a file that has other names |
| `Filesystems.RunBoth` | crates/smfs-core/src/vfs/mem.rs:130-577 | Any operations run on both, up to one that would replace a file with other names: each is answered alike by the two |
| `Paths.ResolveFilepath` | crates/smfs-core/src/cache/fs.rs:80-111 | The climb, which ends wherever every climb does, prints a path that walks back to the inode, or reports an inode without entry |
| `Paths.EnsureDirs` | crates/smfs-core/src/cache/fs.rs:115-167 | The loop over the components that are not empty creates what is missing |
| `Paths.EnsureReaches` | crates/smfs-core/src/cache/fs.rs:115-167 | Unless a directory has to be created below a file, nothing old changes, the tables stay sound, and the path leads to the returned inode |
| `Paths.EnsureTree` | crates/smfs-core/src/cache/fs.rs:115-167 | Creating directories, none below a file, keeps the tables a tree, so that every climb still ends |
| `Paths.EnsureThenResolve` | crates/smfs-core/src/cache/fs.rs:80-167 | Creating a path's directories and climbing back from the last one ends, and prints the path with its empty components removed if no component names a file |
| `Paths.ClimbsBack` | crates/smfs-core/src/cache/fs.rs:80-111 | No climb from there can print another path |
| `Paths.EnsureSoundIff` | crates/smfs-core/src/cache/fs.rs:115-167 | Creating the directories of a path keeps the tables sound if and only if none has to be created below a file |
| `Paths.DirectoryPathUnique` | crates/smfs-core/src/cache/fs.rs:80-111 | Two walks from the root to one directory are the same path |
| `Paths.RenameTree` | crates/smfs-core/src/cache/fs.rs:1914-1947 | A rename keeps every climb finite if and only if it does not move an inode below itself; then no climb from there ends |
| `Paths.StepTree` | crates/smfs-core/src/cache/fs.rs:997-2022 | Every operation keeps the tables a tree if and only if it does not move an inode below itself |
| `Paths.RunStaysTree` | crates/smfs-core/src/cache/fs.rs:997-2022 | Over runs without such moves every climb ends |
| `Paths.CyclesNeverHalt` | crates/smfs-core/src/cache/fs.rs:89-107 | No climb from a cycle ends |
| `Timestamps.StringOrderIsTimeOrder` | crates/smfs-core/src/sync/pull.rs:52-63 | For well-formed UTC stamps comparing strings is comparing parsed milliseconds (sections 5.1 and 5.6 of RFC 3339) |
| `Timestamps.ClosedFormIsGregorian` | crates/smfs-core/src/cache/fs.rs:923-937 | The closed-form day count is the Gregorian count made year by year and month by month from 1970-01-01, for every year |
| `Timestamps.ParseShape` | crates/smfs-core/src/cache/fs.rs:890-937 | A stamp of the right shape parses to the epoch time of its fields |
| `Timestamps.LaterDate` | crates/smfs-core/src/cache/fs.rs:923-937 | Later calendar dates have larger day counts |
| `Timestamps.OrdersAgreeIff` | crates/smfs-core/src/sync/pull.rs:52-63 | For stamps that may be in the leap second at the end of a day, string order and millisecond order agree, if and only if neither is in a leap second with the other in the second after the midnight it ends at, by no more milliseconds |
| `Timestamps.LeapingStamps` | crates/smfs-core/src/cache/fs.rs:890-937 | Such a stamp precedes the other as a string and is no earlier in milliseconds |
| `Timestamps.LeapSecondInverts` | crates/smfs-core/src/cache/fs.rs:890-937 | The orders are opposite for 2016-12-31T23:59:60.500Z and 2017-01-01T00:00:00.400Z |
| `Grep.LineRange` | crates/smfs/src/cmd/grep.rs:29-83 | A range is found if and only if the chunk occurs, as it stands or in normal form; its lines are those of the ends of the first occurrence, or of text that normalises to exactly the chunk's normal form; 1 <= start <= end <= line count |
| `Grep.Locate` | crates/smfs/src/cmd/grep.rs:51-77 | The scan finds both ends of any occurrence in the normal form without building it |
| `Grep.NormBetween` | crates/smfs/src/cmd/grep.rs:42-43 | The text from a character on normalises to the normal form from that character's place on |
| `Grep.MatchMapsBack` | crates/smfs/src/cmd/grep.rs:48-77 | Text between the characters placed at the ends of a match normalises to the match |
| `Grep.OneMore` | crates/smfs/src/cmd/grep.rs:58-76 | A normal form grows by one character, after a space if white space came before: what the scan's counter and flag track |
| `AgentHint.RemoveUndoesInstall` | crates/smfs-core/src/agent_hint.rs:198-301 | For text without the tag's marker, removing what was installed gives the text with its trailing newlines normalised |
| `AgentHint.InstallTwice` | crates/smfs-core/src/agent_hint.rs:198-221 | Installing again changes nothing, whether or not the tag had a block before |
| `AgentHint.StripLeaves` | crates/smfs-core/src/agent_hint.rs:236-273 | Between what was before and after the block a line end is left, or, if the block did not start a line, the marker's first character |
| `AgentHint.OthersStay` | crates/smfs-core/src/agent_hint.rs:236-273 | Text outside the block, other blocks among it, is left byte for byte |
| `AgentHint.StripInText` | crates/smfs-core/src/agent_hint.rs:236-273 | The index loops of `strip_block` compute the specified text |
| `AgentHint.InstructionFile.WriteBlock` | crates/smfs-core/src/agent_hint.rs:198-221 | Replaces or appends the block; a file that would not change is left alone |
| `AgentHint.InstructionFile.RemoveBlock` | crates/smfs-core/src/agent_hint.rs:223-232 | Removes the block; a missing file is an error |
| `HintListing.FindAllBlocks` | crates/smfs-core/src/agent_hint.rs:278-292 | The cursor loop lists what stands between begin prefixes and the suffixes after them |
| `HintListing.ScanCut` | crates/smfs-core/src/agent_hint.rs:278-292 | Scanning a text is scanning its first part and then the rest, inside the name the first part left open if it did, when no delimiter looked for lies across the cut |
| `HintStripping.StripListsIff` | crates/smfs-core/src/agent_hint.rs:236-292 | Stripping a tag's block, wherever it stands and whatever is around it, leaves listed exactly what is listed before it and after it, if and only if no name is carried into what follows (left open before the block, or opened by the angle bracket it leaves), or the name makes no difference there |
| `HintStripping.SameListingIff` | crates/smfs-core/src/agent_hint.rs:278-292 | An open name makes no difference to what is listed of a text, if and only if no begin suffix follows, or begin prefixes run into the suffixes so that the names repeat |
| `HintStripping.HarmlessEcho` | crates/smfs-core/src/agent_hint.rs:278-292 | The second alternative occurs |
| `HintStripping.StripUnlists` | crates/smfs-core/src/agent_hint.rs:236-292 | With nothing open before the block its tag is listed once more than it is before it, and stripping takes that listing away with what is listed inside the block, leaving the others in order, if and only if what follows does not join the angle bracket, or joins it without making a difference |
| `HintStripping.StripInName` | crates/smfs-core/src/agent_hint.rs:236-292 | In a name that is open before the block its marker is not listed but ends that name; stripping leaves listed what is listed before and after, if and only if the open name makes no difference to what follows |
| `HintStripping.StripJoins` | crates/smfs-core/src/agent_hint.rs:236-292 | What is listed, and left open, if it joins: up to the next begin suffix a tag that had no marker |
| `HintStripping.StrippingCanJoin` | crates/smfs-core/src/agent_hint.rs:236-273 | Such a text exists for any two tags: stripping one leaves a marker of the other |
| `HintStripping.StrippingCanSwallow` | crates/smfs-core/src/agent_hint.rs:236-292 | And one with a name open before the block exists for any two tags: stripping one has the other listed no more |
| `HintStripping.StripClosedIff` | crates/smfs-core/src/agent_hint.rs:236-292 | With nothing open before the block, nothing begun inside it and nothing joining, stripping leaves a name open if and only if one was |
| `HintStripping.InstallLists` | crates/smfs-core/src/agent_hint.rs:198-221 | Installing a block without begin prefixes in it, if the tag has no second one, lists its tag last after the tags listed without it, if and only if no name is left open without it; the block then stands alone |
| `HintStripping.RemoveRelists` | crates/smfs-core/src/agent_hint.rs:223-232 | Removing what was installed lists what was listed before, whatever is open in the file |
| `HintListing.MarkerIsFound` | crates/smfs-core/src/agent_hint.rs:278-292 | A tag's begin marker is listed under exactly the tag's delimiter form |
| `HintListing.NotListedBefore` | crates/smfs-core/src/agent_hint.rs:278-292 | What is listed before a tag's first marker is not that tag |
| `HintListing.SanitizeTwice` | crates/smfs-core/src/agent_hint.rs:43-45 | Stripping by a listed tag strips the block of the tag it was made from |
| `Volumes.Run` | bash/src/volume.ts:130-389 | Over any run of add, get, remove and move, calls failing at any point before the server acts, the volume holds what a map from paths to texts would hold and every reply is the map's, whatever the cache evicts or expires |
| `Volumes.Volume.AddDoc` | bash/src/volume.ts:159-200 | Refused, failed, or the text is at the path and nothing else changed; if the reply is lost after the server acted, volume and server still agree if and only if the path was indexed and no other text is cached for it |
| `Volumes.AddAgain` | bash/src/volume.ts:159-200 | Adding a new document again after such a loss leaves the server with two at its path |
| `Volumes.Volume.RemoveDoc` | bash/src/volume.ts:255-274 | Every outcome of a removal; if its reply is lost after the server acted, the volume lists what is gone |
| `Volumes.RemoveAgain` | bash/src/volume.ts:255-274 | Removing again makes up for that |
| `Volumes.Volume.MoveDoc` | bash/src/volume.ts:358-389 | Every outcome of a move, the cached text moving along; if its reply is lost after the server acted, the volume lists the old path |
| `Volumes.Volume.GetDoc` | bash/src/volume.ts:212-253 | Returns the server's text, from cache or listing, or nothing; changes neither texts nor index |
| `Volumes.Volume.LookupDocId` | bash/src/volume.ts:130-151 | The index answers, else the server, whose answer is indexed, else the listing's failure |
| `Volumes.RunsStayTidy` | bash/src/volume.ts:159-389 | No run puts a file under another |
| `PathIndexes.AdmittedIffPrefixFree` | bash/src/path-index.ts:50-66 | A well-shaped path passes the checks above and below it if and only if it can join the files and still none lies under another |
| `PathIndexes.CheckedIsWellShaped` | bash/src/filepath.ts:21-35 | The shape rules admit only rooted paths with something between their slashes |
| `PathIndexes.UnderIsAncestor` | bash/src/path-index.ts:50-57 | Whatever a path lies under is among the ancestors the check looks up |
| `PathIndexes.PathIndex.FindAncestorFile` | bash/src/path-index.ts:50-57 | Finds the deepest file above a path, if and only if there is one |
| `PathIndexes.PathIndex.HasDescendant` | bash/src/path-index.ts:59-66 | Whether a file lies below the path |
| `PathIndexes.PathIndex.Insert` | bash/src/path-index.ts:6-11 | The path is indexed under the document and its old document forgotten; the two maps stay inverse if and only if the document was not indexed under another path |
| `PathIndexes.PathIndex.Remove` | bash/src/path-index.ts:21-25 | The two maps stay inverse |
| `SessionCaches.SessionCache.Set` | bash/src/session-cache.ts:60-85 | The entry goes to the end, the oldest are evicted while the rest does not fit; the counter is the sum of the entries |
| `SessionCaches.SessionCache.Get` | bash/src/session-cache.ts:47-58 | A live entry is moved to the end, a dead one dropped |
| `SessionCaches.SessionCache.Delete` | bash/src/session-cache.ts:87-92 | The entry goes and the counter with it |
| `SessionCaches.KeptIsLongest` | bash/src/session-cache.ts:77-84 | Eviction goes no further than it must: any longer recent part is too big |
| `SessionCaches.KeptIsSuffix` | bash/src/session-cache.ts:77-84 | Eviction keeps the most recent entries, at least one, within the limit unless it is alone |

## Left out

- The HTTP client, retries, data transfer objects, multipart bodies and MIME types: the server is a listing and a reply.
- Adapters for FUSE and NFS, mount commands, the daemon and its IPC, credentials, configuration and display.
- Binary documents in the pull side: rehydration, raw stubs, transcription files and `/profile.md`. Error files are modelled, with the rule that a derived write refuses a file it did not derive.
- Modes, owners and times of inodes, and the wall clock: the time of a call is a parameter.
- Restarts and several processes: opening the database does not clear inflight marks, so nothing is claimed across a restart.
- The hydration queue, the `.smfs` marker file, the macOS noise filter and the in-flight status poller.
- The Python package, which mirrors the volume, and the volume's bulk removal, listing, tree copies, search and profile; the profile text is cached under a path no document may have.
- Failed documents in the volume, whose text is replaced by a notice, and document statuses.
- The listing shown to one deletion scan is fixed while it is paged through; `ServedPulls.PullWhileEdited` lets it change under a pull, by edits but not by deletions.
- SyncedFs.Cache.UpdateMapped: a mapped file with several names counts as not being at its document's place, and its move is refused; the code climbs from whichever of its rows the query returns first, and leaves the file in place if that one is the document's.
- Local renames, and a local rename of a directory above a dirty file, are not steps of the runs in `LocalEdits.dfy`; `Refinement.dfy` and `Paths.dfy` model them.
- Timestamps.ParseShape: integers are unbounded, so that years beyond the 64-bit range do not overflow as they would in the program.
- Convergence.IncrementalEqualsFull: the server's edits create, change and move documents; deletions are the scan's, stated by `LocalEdits.ScanIsExact`.
- OneDocument.OneDocumentPerFile: requests that fail have no effect on the server, and the remote copy is never removed, so that no 404 is answered.
- SharedDocuments.StepKeepsOneIff: files stay at their paths, and documents that are mapped already are not moved or deleted by the pulls of these runs; `LocalEdits.dfy` has those steps.
- OneDocument.SavesKeepOneDocument: a save starts while neither of its two rows is inflight.
- Grep.LineRange: positions are characters rather than byte offsets; both fall on the same characters.
- PathIndexes.CheckedIsWellShaped: lengths count characters where the program counts UTF-16 units; synthetic directories, which no rule for writing reads, are not kept.
- Volumes.Run: runs on after a reply lost on a change are not followed further than `Volumes.AddAgain` and `Volumes.RemoveAgain`.
