# A verified model of AkaveFS's write-back cache

AkaveFS shows an S3 bucket as a file system. Writes go to an in-memory list of buffers and
reach the object later, in the background, while more writes arrive. This project models
that machinery in Dafny and proves what its users rely on. `dafny verify dfyconfig.toml`
checks everything.

## What is modelled

* `FileBuffers`, `BufferChanges`, `BufferIndexes`, `BufferReads`, `BufferList`: the buffer
  list. Its B-tree is a map from end offset to buffer; `CellAt(m, x)` is what byte `x` of a
  file means: the kind, dirty id and content of the buffer that covers it. Every operation is
  a method that keeps all indexes in agreement and says what it does to every byte.
* `WriteBack`, `WriteBackRuns`: one file between its writers and the object store, as a
  transition system. A step is one section under the inode lock, or one request taking effect
  on the server, so writes may fall between any two sections of a flush. The theorems are
  about every run.
* `Inodes`, `FlushLocks`, `UploadScans`, `LoadPlans`, `MultiReaders`, `MultipartObject`,
  `PartSizes`: the file inode as a class. Each method is one locked section of the source;
  ghost fields hold the object on the server and the snapshots in flight. The ghost field
  `contents` is the plain file, and every method says what it does to it.
* `Reclaim`: the loop that frees clean buffers of all files.
* `DirHandles`, `ListCuts`, `ByteOrder`: listing a directory that changes, and cutting listing
  pages so that key order and name order agree.
* `Ownership`: the hand-over of inodes between cluster nodes.
* `Wakeups`, `Inflight`, `CopyTilings`: waiting for a flush, listings against changes,
  server-side copies.

## What does not hold

Where the source does less than one might expect, the model follows the source. Each case
has a concrete instance and a statement of exactly when the property holds.

* A response that was read before the object changed is added as it is. It leaves the file
  unchanged if and only if it agrees with the object where the file has nothing newer
  (`FillExactly`; `LateResponse`). `OldResponse` tells when an old one does.
* A file with an open upload may be cut although an uploaded part reaches past the cut, if the
  end of the part was written again. The invariants survive if and only if no part does
  (`CutExactly`); completing right after gives the right size if and only if no part does
  (`CutObjectSize`; `CutUploadedPart`).
* Copies stay in the upload when a commit fails, and parts swallowed by a merged copy are copied
  again. A later completion is right if and only if every merged copy was replaced by an upload
  (`RetryAfterCopies`, `LandInPlace`; `PlainRetry`, `MergedCopyOverlaps`).
* An upload whose last part was sent before the file grew, with the final size taken after,
  leaves an object shorter than that size; the size is right if and only if no uploaded part is
  short (`ObjectSize`; `ShortLastPart`). The bytes that are there are right in any case.
* A file that grows by a whole part in the same window asks for a copy that does not exist. The
  copies exist if and only if every byte past the old object was uploaded
  (`CopiesExistExactly`; `LateGrowth`), and always if the file did not grow
  (`DecidedCopiesExist`).
* A node may apply a granting reply after it has seen the token move on. Every owner is the
  newest at all times if and only if that never happens (`NewestExactly`; `TwoCallsTwoOwners`);
  with one call at a time it cannot (`SingleToken`).
* An empty file is sent if and only if it has no buffers or one that begins it (the contract of
  `FlushSmallShot`); a late response can leave a buffer past its end (`LateResponseBlocksFlush`).
* Clean data that keeps the caller's array is accounted exactly if and only if all or none of it
  found room (the contract of `Add`; `KeptArrayMiscounts`).
* A server-side copy with configured part sizes covers the object if and only if the parts hold
  it (the contract of `MpuCopyParts`; `CopyCutShort`); the default sizes always do
  (`DefaultCovers`).

The first three are the conditions under which the theorems about runs are stated: a run is
harmless if no response, cut or commit in it violates them.

## Model

| member | source | states |
|---|---|---|
| `WriteBackRuns.RunShows` | core/file.go:114-220 | in every reachable state of every run of writes, zero-fills, resizes, loads, evictions, small flushes and multipart uploads with retries, the byte at every offset below the size reads as replaying the writes on a plain byte sequence gives it; the run contains no response, cut or commit that does the harm the source does not check for |
| `WriteBackRuns.CachedMeansStored` | core/file.go:1553-1559 | in every such run, whenever the file is marked cached the object on the server equals the whole replayed file |
| `WriteBackRuns.SnapshotsStayTrue` | core/buffer_list.go:344-354 | in every such run, a byte that still carries a dirty id collected for a small file or a part in flight is still dirty and still equals the collected byte, so setting the state by id never masks a later write |
| `WriteBackRuns.StepShows` | core/file.go:1473-1567 | each kind of step keeps the invariant and changes the visible file exactly as the plain byte sequence changes |
| `WriteBackRuns.CutExactly` | core/file.go:118-135 | a cut that the source allows keeps the invariant if and only if no uploaded part reaches past it and no completion in progress counts on more |
| `WriteBackRuns.FillExactly` | core/buffer_list.go:524-541 | a response leaves every visible byte as it is if and only if it has the object's bytes wherever the file has no newer ones |
| `WriteBackRuns.LateResponse` | core/file.go:437-446 | a response read before the object was replaced disagrees with it: a concrete file |
| `WriteBackRuns.OldResponse` | core/file.go:411-450 | a response of any age agrees with the object if every byte that is the server's now was the server's when the object was read and was not written since |
| `WriteBackRuns.WriteShows` | core/file.go:153-220 | a write zero-pads up to its end and overwrites exactly its range of the visible file |
| `WriteBackRuns.ZeroShows` | core/goofys_fuse.go:907-911 | zero-filling a range makes exactly that range read as zeros, also when a zero buffer is found and nothing is changed |
| `WriteBackRuns.ResizeShows` | core/file.go:114-142 | a cut that leaves the uploaded parts whole truncates the visible file, extension appends zeros, everything else reads as before |
| `WriteBackRuns.FillKeeps` | core/file.go:411-450 | keeps the invariant and every visible byte: a response that agrees with the object, also past the end of the file or over dirty bytes |
| `WriteBackRuns.EvictKeeps` | core/buffer_list.go:176-231 | keeps the invariant and every visible byte: evicting an unlocked clean or fully flushed buffer, whose bytes the server or an uploaded part has |
| `WriteBackRuns.SmallShotKeeps` | core/file.go:1511-1520 | keeps the invariant and every visible byte: collecting a small file; the invariant then says that the snapshot agrees with every byte that keeps a collected id |
| `WriteBackRuns.SmallLandKeeps` | core/file.go:1537-1541 | keeps the invariant and every visible byte: the snapshot replaces the object while writes go on |
| `WriteBackRuns.SmallDoneKeeps` | core/file.go:1549-1560 | keeps the invariant and every visible byte: the collected ids become clean, later writes stay dirty, and a file marked cached is as long as the object |
| `WriteBackRuns.PartTakeKeeps` | core/file.go:1654-1668 | keeps the invariant and every visible byte: the end of a part is fixed before what is missing of it gets loaded |
| `WriteBackRuns.PartShotKeeps` | core/file.go:1707-1720 | keeps the invariant and every visible byte: collecting one part up to the end fixed before, however far the file has grown since, while others are in flight |
| `WriteBackRuns.PartDoneKeeps` | core/file.go:1738-1750 | keeps the invariant and every visible byte: a part is stored, whatever was written during its upload, and answers for each of its flushed bytes |
| `WriteBackRuns.DecideKeeps` | core/file.go:766-786 | keeps the invariant and every visible byte: deciding to complete once nothing is left to send |
| `WriteBackRuns.LandKeeps` | core/file.go:1790-1797 | keeps the invariant and every visible byte: an upload without merged copies of an earlier attempt replaces the object while writes go on |
| `WriteBackRuns.CommitKeeps` | core/file.go:1808-1823 | keeps the invariant and every visible byte: flushed buffers become clean after the commit, and a file marked cached is as long as the object |
| `WriteBackRuns.GiveUpKeeps` | core/file.go:1763-1779 | keeps the invariant and every visible byte: giving up completion, with any of the planned copies, merged or not, left in the upload |
| `WriteBack.CommittedByte` | core/file.go:1569-1649 | every byte that is not dirty when a commit without merged copies of an earlier attempt lands is in the new object at its own offset and equals what a reader sees, from the uploaded part or from the old object |
| `WriteBack.CleanPartsCanBeCopied` | core/file.go:1575-1598 | a condition on the file: if no part without an upload holds a dirty byte when the final size is fixed, the old object has every range to copy |
| `WriteBack.CopiesExistForFile` | core/file.go:1575-1598 | for a file whose final size is fixed, the old object has every range to copy if and only if all that reaches past it was uploaded |
| `WriteBack.UnsentPartExists` | core/file.go:1072-1076 | when nothing is left to send, the old object has every part that was not uploaded |
| `WriteBack.DecidedCopiesExist` | core/file.go:776-786 | if the file did not grow between the decision and the final size, the old object has every range to copy |
| `WriteBack.UploadedPartReaches` | core/file.go:1030-1112 | if every part with a dirty byte has an evicted one, no uploaded part stops short of its end in the file |
| `WriteBack.LandSize` | core/file.go:1760-1762 | if the file did not grow after the decision and no merged copy is left over, the commit can be made and the new object has exactly the final size |
| `WriteBack.LandInPlace` | core/file.go:1790-1797 | a commit puts every part where the file has it if and only if no merged copy of an earlier attempt is left in the upload |
| `WriteBack.MadeCopies` | core/file.go:1616-1639 | whichever planned copies were made, storing them under their numbers is what a completion that gives up leaves in the upload |
| `WriteBack.CommitSize` | core/file.go:1816-1822 | if the file is cached after a commit, the object is as long as the file |
| `WriteBack.SmallDoneCached` | core/file.go:1550-1559 | after a small flush the file is cached exactly if its size is the one sent and every dirty byte was collected |
| `WriteBack.CommitCached` | core/file.go:1808-1823 | after a commit the file is cached exactly if its size is the committed one and no byte is dirty |
| `WriteBack.GrowthZeroes` | core/file.go:136-139 | extending a file always inserts a fresh dirty zero buffer: the shortcut for zeroed ranges cannot apply past the end |
| `WriteBack.CollectedInside` | core/file.go:641-653 | a collected dirty id occurs only inside the collected range |
| `WriteBack.EvictFlushedAt` | core/goofys.go:506-516 | a fully flushed byte that leaves memory keeps the per-byte invariant and reads the same, from its uploaded part |
| `WriteBack.WriteCells` | core/file.go:153-220 | after a write the range reads the data and what lies between the old end and it reads zeros, all dirty under new ids; every other byte is kept |
| `MultipartObject.CollectRanges` | core/file.go:1569-1598 | copying merged ranges of unmodified parts and concatenating the parts that have an id gives the same object as copying each part by itself, whenever the old object has the ranges; each range is a run of whole parts without an id, under a number of its own; every part without an id is in one, and a range ends just where it reaches the merge limit or where no such part follows |
| `MultipartObject.CopiesExistExactly` | core/file.go:1576-1586 | the old object has every range to copy if and only if every byte past its end is in an uploaded part |
| `MultipartObject.ObjectByte` | core/file.go:1569-1649 | byte by byte up to the size that every uploaded part reaches, the finished object is the uploaded part where there is one and the old object elsewhere |
| `MultipartObject.ObjectSize` | core/file.go:1760-1780 | if uploaded parts reach some size not past the final one, the finished object has the final size exactly when no uploaded part is short of its end in the final file |
| `MultipartObject.CutObjectSize` | core/file.go:119-135 | if the parts were sent for a longer file, completing after the cut makes an object of the cut size if and only if no uploaded part reaches past the cut |
| `MultipartObject.InPlaceExactly` | core/file.go:1637-1639 | every part of the object starts where it starts in the file if and only if no part reaches into the next one |
| `MultipartObject.MultipartBlobCommit` | core/backend_s3.go:1268-1278 | the request lists exactly the parts with an id, in increasing order, and their concatenation is the committed object |
| `MultipartObject.ShortLastPart` | core/file.go:776-784 | a last part uploaded before the file grew, with the final size taken after, gives an object shorter than the final size |
| `MultipartObject.CutUploadedPart` | core/file.go:119-135 | a part sent whole, written again at its end and cut there leaves an object that is too long: a concrete upload |
| `MultipartObject.LateGrowth` | core/file.go:1760-1762 | a file that grows by a whole part between the decision and the final size asks for a copy the old object does not have |
| `MultipartObject.RetryAfterCopies` | core/file.go:1582-1639 | after a failed commit and any later uploads, completing again makes the object that the uploads alone would have made if and only if every merged copy was replaced by an upload of the part it is stored under |
| `MultipartObject.PlainRetry` | core/file.go:1582-1593 | with nothing uploaded in between, a retry stores the last part of a merged copy twice: a concrete upload |
| `MultipartObject.MergedCopyOverlaps` | core/file.go:1584-1593 | a part swallowed by a merged copy and uploaded later is stored twice: a concrete upload |
| `PartSizes.PartNum` | core/file.go:54-73 | the part number contains the offset, for every offset below the maximum; the maximum itself gives the part count; beyond it the call panics |
| `PartSizes.PartRange` | core/file.go:87-98 | a part lies between its boundary and the next; numbers past the last part panic |
| `PartSizes.NumParts` | core/file.go:75-85 | the least number of leading parts that hold the size |
| `PartSizes.MaxParts` | core/file.go:100-105 | the number of parts of all tiers |
| `PartSizes.GetMaxFileSize` | core/file.go:107-112 | the number of bytes of all tiers |
| `PartSizes.PartNumMonotone` | core/file.go:54-73 | part numbers never decrease with the offset |
| `PartSizes.PartNumInvertsPartRange` | core/file.go:87-98 | parts are disjoint, so the part number of any offset of a part is that part |
| `PartSizes.StartOfStep` | core/file.go:87-98 | every part is non-empty, whichever tier it is in |
| `PartSizes.StartsAreBoundaries` | core/file.go:107-112 | the boundaries start at 0, strictly increase and end at the maximum file size |
| `PartSizes.PartAtOrder` | core/file.go:54-73 | part numbers follow offsets and skip none |
| `Inodes.PartNumbersHelp` | core/file.go:54-73 | the part numbers of any configuration with positive sizes are what a buffer list asks of its helper |
| `BufferLists.BufferQueue.Add` | core/buffer_queue.go:37-43 | the entry gets the next, never used queue id |
| `BufferLists.BufferQueue.Delete` | core/buffer_queue.go:45-52 | removes exactly that entry |
| `BufferLists.BufferQueue.NextClean` | core/buffer_queue.go:54-64 | the oldest entry from a position on, or 0 when there is none |
| `BufferLists.BufferList.constructor` | core/handles.go:156-178 | an empty list satisfies all index invariants |
| `BufferLists.BufferList.NextID` | core/buffer_list.go:251-254 | the dirty id is larger than that of any buffer in the list |
| `BufferLists.BufferList.ReferenceDirtyPart` | core/buffer_list.go:279-292 | exactly one reference count grows by one and the part moves to the end of the dirty queue, which still lists each dirty part once |
| `BufferLists.BufferList.ReleaseDirtyParts` | core/buffer_list.go:261-274 | exactly the counts of the range shrink by one and the queue still lists exactly the parts with references |
| `BufferLists.BufferList.Unqueue` | core/buffer_list.go:256-277 | the unclean count, the part counts, the dirty queue and the clean queue agree with the list without the buffer |
| `BufferLists.BufferList.Queue` | core/buffer_list.go:294-313 | all four indexes agree with the list with the buffer |
| `BufferLists.BufferList.RequeueSplit` | core/buffer_list.go:315-336 | counting only the boundary part again makes all indexes agree with the list after a split |
| `BufferLists.BufferList.Split` | core/buffer_list.go:631-648 | the buffer becomes two that read the same; a dirty right piece has a fresh id; memory and all indexes stay exact |
| `BufferLists.BufferList.Delete` | core/buffer_list.go:371-383 | only that buffer goes, all indexes agree, and the result is the exact change of memory held |
| `BufferLists.BufferList.RemoveRange` | core/buffer_list.go:386-419 | exactly the bytes of the range held by buffers that pass the filter are gone, every other byte and state is kept, the walk ends, and the result is the exact change of memory held |
| `BufferLists.BufferList.Append` | core/buffer_list.go:113-145 | the buffer holds its bytes and the new ones, in place if they fit, else in an array of at least twice the old length; the result is the exact change of memory held |
| `BufferLists.BufferList.InsertOrAppend` | core/buffer_list.go:421-486 | a gap reads the data, under a fresh id if dirty; the previous buffer is extended exactly if the conditions for it hold, else a new one is stored; copied data is accounted exactly |
| `BufferLists.BufferList.FillGaps` | core/buffer_list.go:543-566 | exactly the gaps of the range get their part of the data, and the loop ends |
| `BufferLists.BufferList.Add` | core/buffer_list.go:524-541 | data that is not clean overwrites exactly its range; clean data leaves every unclean byte and fills everything else; the reported memory is exact if and only if the data was copied or all or none of it found room |
| `BufferLists.KeptArrayMiscounts` | core/buffer_list.go:421-486 | two clean bytes added over the caller's array where one is dirty are reported wrongly: a concrete list |
| `BufferLists.BufferList.ZeroRange` | core/buffer_list.go:488-522 | the range reads as zeros under a fresh id and every other byte is kept; nothing changes exactly if the range is empty or inside one zero buffer; the result is the exact change of memory held |
| `BufferLists.BufferList.SplitAt` | core/buffer_list.go:683-690 | no buffer crosses the offset, earlier boundaries stay, every byte reads the same; at most that one cut is made |
| `BufferLists.BufferList.SetState` | core/buffer_list.go:344-354 | every buffer that meets the range and carries a collected id changes state; no buffer without a collected id, no extent and no byte changes, and at most one buffer after the range is looked at |
| `BufferLists.BufferList.SetFlushedClean` | core/buffer_list.go:356-369 | flushed bytes become clean, evicted bytes disappear, dirty and clean bytes stay |
| `BufferLists.BufferList.EvictFromMemory` | core/buffer_list.go:176-231 | exactly the bytes of that buffer leave memory; resident buffers shrink by one and the others are untouched; it is merged exactly if the buffer before it is of the same kind, and an entry is reported deleted exactly if one is; the array is released with its last buffer |
| `BufferLists.BufferList.GetHoles` | core/buffer_list.go:728-749 | the ranges are sorted, apart, and contain exactly the uncovered bytes; the flags tell exactly whether a byte of the range is loading or evicted |
| `BufferLists.BufferList.GetData` | core/buffer_list.go:751-790 | the chunks are the bytes of the range in order with exactly their dirty ids; otherwise the answer is that of the first byte that cannot be read; a read of no bytes fails before the first buffer and between two, and otherwise only inside one that is not in memory |
| `BufferLists.BufferList.AddLoading` | core/buffer_list.go:568-582 | exactly the gaps of the range are marked as loading |
| `BufferLists.BufferList.AnyUnclean` | core/buffer_list.go:692-694 | the count is positive exactly when some buffer is not clean |
| `BufferLists.BufferList.AnyFlushed` | core/buffer_list.go:696-708 | tells exactly whether a flushed buffer meets the range |
| `BufferLists.BufferList.NextDirtyPart` | core/buffer_list.go:338-342 | the dirty part queued first from a position on |
| `BufferLists.BufferList.PartStatus` | core/file.go:1056-1071 | byte by byte: dirty, evicted and non-zero exactly if a byte of the part is; zero exactly if a byte is or the last one is not in the list |
| `BufferChanges.UncleanDataWritesAll` | core/buffer_list.go:524-529 | data that is not clean finds room for every byte, so its accounting is always exact |
| `BufferReads.AppendZero` | core/buffer_list.go:710-719 | the chunks add exactly that many zero bytes and each fits the shared zero buffer |
| `LoadPlans.MergeRA` | core/buffer_list.go:792-812 | in place: each result range takes consecutive missing ranges, each within the merge distance of the end reached before it, and a lone one is stretched to the readahead; the next range starts with one that is farther |
| `LoadPlans.AskedIsNear` | core/buffer_list.go:792-812 | nothing is asked for but missing bytes, the readahead of a missing range, and gaps between missing ranges within the merge distance |
| `LoadPlans.ReadsAhead` | core/buffer_list.go:803-808 | all of the readahead of a missing range that no other is near to is asked for |
| `LoadPlans.ShortGapsAreAsked` | core/buffer_list.go:800-802 | every gap between missing ranges not longer than the merge distance is asked for |
| `LoadPlans.SplitRA` | core/buffer_list.go:814-832 | the same bytes in the same order in requests of at most the given size, each of exactly that size except where a range ends |
| `LoadPlans.Plan` | core/file.go:243-257 | asks for exactly the merged ranges below the known size, in order, without overlap, in requests as long as allowed, so every missing byte the server has is among them; it fails exactly if the last merged range begins past the known size |
| `MultiReaders.MultiReader.Read` | core/buffer_reader.go:61-90 | delivers exactly the next bytes of the flat stream, as many as fit or are left, and leaves the rest of the buffer alone; the end is reported exactly if no buffer is left, and a read that delivers less than fits leaves none |
| `MultiReaders.MultiReader.Seek` | core/buffer_reader.go:92-119 | lands on the clamped offset, from which reading continues, and never at the end of a buffer |
| `MultiReaders.MultiReader.AddBuffer` | core/buffer_reader.go:39-45 | appends the bytes to the stream |
| `MultiReaders.MultiReader.AddZero` | core/buffer_reader.go:47-53 | appends zeros to the stream |
| `FlushLocks.Unlocked` | core/file.go:475-484 | a range that no lock hits is not being sent by any flush |
| `FlushLocks.NotFlushed` | core/file.go:1044-1048 | a part whose range no flush lock hits is neither waiting for its snapshot nor in flight |
| `FlushLocks.NothingFlushed` | core/file.go:772-772 | no flush lock inside the file means no part is being flushed |
| `FlushLocks.BelowLimit` | core/file.go:719-721 | a flush counter below the limit means that no small flush, no start and no completion is in progress |
| `FlushLocks.CutMeetsNoFlush` | core/file.go:118-127 | a range that no flush lock hits holds nothing that is being flushed, whatever the flush |
| `FlushLocks.RemovedOnce` | core/file.go:463-473 | unlocking removes exactly one matching lock |
| `FlushLocks.PartEnds` | core/file.go:1122-1133 | ending one part keeps the locks of all others and the flush counter exact |
| `Inodes.Inode.LockRange` | core/file.go:455-461 | adds the lock |
| `Inodes.Inode.UnlockRange` | core/file.go:463-473 | removes the first matching lock, if any |
| `Inodes.Inode.IsRangeLocked` | core/file.go:475-484 | tells exactly whether a lock of the asked kind overlaps the range |
| `Inodes.Inode.IsStillDirty` | core/file.go:1426-1431 | tells exactly whether the size differs from the known one or some buffer is not clean |
| `Inodes.Inode.ResizeUnlocked` | core/file.go:114-142 | extension zero-fills the new range; truncation erases exactly the cut range, unless a flush lock or a flushed buffer makes it wait |
| `Inodes.Inode.WriteFile` | core/file.go:153-220 | past the maximum size nothing changes; otherwise the file is zero-padded and exactly the range overwritten, whatever flush is in progress; those bytes, and no others, become dirty, under new ids, and a cached file becomes modified |
| `Inodes.Inode.SetSize` | core/file.go:1904-1914 | the file is cut or zero-extended, rejected past the maximum size, or has to wait for a flush; a cached file whose size changes becomes modified; after a cut all invariants hold if and only if the uploaded parts fit |
| `Inodes.Inode.Fallocate` | core/goofys_fuse.go:864-918 | nothing for length 0; otherwise extends the file unless it must keep its size, zeroes exactly the range that is left, rejects sizes past the maximum |
| `Inodes.Inode.ReadFile` | core/file.go:573-611 | what is delivered is exactly the slice of the file, clipped at its end |
| `Inodes.Inode.AddChunk` | core/file.go:437-446 | any response may arrive at any time: the clean bytes and gaps of its range read it and nothing else changes; all invariants hold and the file is unchanged if and only if it agrees with the object where the file has nothing newer; the reported memory is exact if and only if all or none of it found room |
| `Inodes.Inode.RemoveLoading` | core/buffer_list.go:627-629 | exactly the bytes of the range that are being loaded are gone, and the file is unchanged |
| `Inodes.Inode.StartLoad` | core/file.go:294-330 | exactly the gaps of the planned requests are marked as loading, so every byte of the range that the server has is in memory or on its way, and the file is unchanged; it refuses exactly if a byte of the range or of the readahead was flushed and evicted, or the plan fails |
| `Inodes.Inode.Evict` | core/goofys.go:506-516 | a buffer is evicted exactly when no lock hits it; then exactly its bytes leave memory, else nothing changes; the file is unchanged |
| `Inodes.Inode.GetMultiReader` | core/file.go:641-653 | the reader streams exactly the bytes of the range and the ids are exactly those of its dirty bytes, with no buffer left across either edge; there is no reader exactly if a byte of the range was not in memory, or, for no bytes, if buffers exist but none begins the file |
| `Inodes.Inode.FlushSmallStart` | core/file.go:1475-1486 | the flush takes the size and locks the whole file, unless the file is cached by now |
| `Inodes.Inode.FlushSmallShot` | core/file.go:1511-1520 | the snapshot is the file up to the size taken before; the flush ends, and unlocks, exactly if some of that was not in memory, or, for no bytes, if buffers exist but none begins the file |
| `Inodes.LateResponseBlocksFlush` | core/buffer_list.go:758-763 | a response that arrives after the file was cut to nothing keeps the empty file from being sent: a concrete file |
| `Inodes.Inode.FlushSmallReply` | core/file.go:1543-1566 | if the upload succeeded, exactly the bytes that still carry a collected id are clean now, and the file is cached exactly if its size is the one sent and every dirty byte was collected; if it failed no byte changes; the file is unchanged and unlocked, and if it is cached now the object on the server is the whole file |
| `Inodes.Inode.BeginReply` | core/file.go:1020-1027 | an upload is open exactly if the request succeeded; locks and counter agree again |
| `Inodes.Inode.GoFlushPart` | core/file.go:1116-1121 | the part joins those being flushed; locks and counter agree with them |
| `Inodes.Inode.FlushPartStart` | core/file.go:1654-1668 | the length of the part is that of the file now, clipped at its end, and is kept for the snapshot |
| `Inodes.Inode.FlushPartShot` | core/file.go:1702-1720 | the snapshot is the part as the file holds it, up to the length fixed before; the flush of the part ends, and unlocks it, exactly if a byte of it was not in memory |
| `Inodes.Inode.FlushPartReply` | core/file.go:1729-1750 | the part is stored exactly if the upload succeeded; then exactly the bytes that still carry a collected id are flushed, evictable exactly if the part is complete and not the first; the file is unchanged and the part is unlocked |
| `Inodes.Inode.VisitPart` | core/file.go:1042-1094 | tells from its bytes and the locks exactly which of the four things the scan makes of a part; one that is free, not the last, and all of whose bytes are dirty and not zero is sent |
| `Inodes.Inode.SendUploadParts` | core/file.go:1030-1112 | starts all parts that are ready unless a limit stops it, one partly zero part if none is ready, and no others; after the first part it keeps to the limits; completion is allowed exactly if every queued part is one to skip, and then every part with an unsent byte has a byte that left memory |
| `Inodes.Inode.SendUpload` | core/file.go:719-790 | tells exactly when it starts a flush and which: a small file, a multipart upload, the chosen parts, or completion, which is decided exactly if all parts are to be skipped, no range of the file is locked and a flush is wanted |
| `UploadScans.LocksSameNext` | core/file.go:1116-1121 | the lock of a part that is started does not change what the scan makes of any other part |
| `UploadScans.VerdictByBytes` | core/file.go:1056-1094 | what the scan makes of a part, told byte by byte: it is sent exactly if it is free, has a dirty byte and no evicted one, and has no zero byte and no gap at its end unless the whole file is flushed |
| `UploadScans.ScanEnds` | core/file.go:1042-1111 | a scan that came to the end of the queue has chosen what it should |
| `Inodes.Inode.CompleteStart` | core/file.go:1754-1762 | the final size and part count are those of the file now, and the planned copies are whole parts without an id, merged up to the limit, that make the same object as copying part by part |
| `Inodes.Inode.CommitLands` | core/file.go:1790-1797 | the object becomes uploaded parts and copies and the file is unchanged, unless a merged copy of an earlier attempt is left over; exactly then the parts are out of place |
| `Inodes.Inode.CompleteDone` | core/file.go:1808-1823 | flushed bytes become clean, evicted ones disappear, all others stay; the file is cached exactly if its size is the committed one and nothing is dirty; the file is unchanged, and if it is cached now the object on the server is the whole file |
| `Inodes.Inode.CompleteFail` | core/file.go:1763-1779 | the file is unchanged and the upload stays open with the copies that were made, merged or not |
| `Inodes.NewInode` | core/handles.go:156-178 | an inode over any object or new file satisfies every invariant, with nothing cached, locked or in flight |
| `Inodes.UnsentIsQueued` | core/buffer_list.go:338-342 | the part of every dirty byte of the file is in the dirty queue |
| `Inodes.AllPartsSkipped` | core/file.go:1072-1076 | if every queued part is clean or partly evicted then nothing can be sent |
| `Reclaim.CleanBuffers.FreeSomeCleanBuffers` | core/goofys.go:490-521 | ends although evictions queue buffers again; oldest first: what may go and was queued before some point is gone, what was queued after it is untouched; drops only unlocked clean or fully flushed bytes; frees enough, and then less than one array too much, or leaves nothing evictable; the result is exactly the memory given back |
| `Reclaim.CleanBuffers.Visit` | core/goofys.go:499-521 | each turn drops a resident buffer or moves the cursor on, and what may be evicted is queued after the cursor |
| `Reclaim.CleanBuffers.EvictOne` | core/goofys.go:510-516 | evicting in one file keeps the indexes of all files exact in the shared queue |
| `Reclaim.ReclaimStep` | core/goofys.go:508-512 | one more eviction keeps that only unlocked clean or fully flushed bytes have left since the start, to disk exactly if there is a disk cache or they were there, and every other byte is as it was |
| `Ownership.SingleToken` | core/cluster_fs.go:597-651 | in every run where each node keeps one call outstanding per inode no reply is stale, at most one node names itself owner or is being granted ownership, and exactly one unless a granting reply was lost; unless one was lost, exactly the owner is ready |
| `Ownership.StealWorks` | core/cluster_fs.go:597-651 | a request for the token that reaches an owner that may yield makes the caller the owner, ready, under a larger term, and the other neither |
| `Ownership.CanAskAgain` | core/cluster_fs.go:675-687 | with one call at a time, a caller whose reply was lost, or told of another owner, can ask again |
| `Ownership.ReceiveReady` | core/cluster_fs.go:984-994 | a node learns that it is the owner without having the inode only if a granting reply was lost |
| `Ownership.NewestExactly` | core/cluster_fs.go:597-672 | for every run, every owner has the newest term at all times if and only if no node ever applies a granting reply whose term is smaller than the one in its record |
| `Ownership.StaleBreaks` | core/cluster_fs.go:654-672 | any such reply makes a node the owner under a term that is not the newest |
| `Ownership.OneOwner` | core/cluster_fs.go:597-651 | in every run without such a reply at most one node names itself owner, only an owner is ready, and the token is somewhere unless a granting reply was lost |
| `Ownership.TermNamesOwner` | core/cluster_inode.go:89-102 | in every run without a stale reply, owners with the same term are the same, and every record and message names one of the owners so far |
| `Ownership.TermsGrow` | core/cluster_fs.go:689-757 | in every run without a stale reply, every hand-over uses a larger term than all before it |
| `Ownership.TwoCallsTwoOwners` | core/cluster_fs.go:654-672 | with two calls of one node outstanding the property fails: a run that ends with two owners |
| `Ownership.GrantKeeps` | core/cluster_fs.go:736-757 | yielding moves the token into the reply under the largest term |
| `Ownership.ReceiveKeeps` | core/cluster_fs.go:626-644 | a caller takes the token or a newer owner without creating a second token, however old the message |
| `Ownership.ClusterInode.ApplyOwner` | core/cluster_inode.go:97-102 | adopts the owner exactly if its term is larger |
| `Ownership.ClusterInode.TryStealInodeOwnership` | core/cluster_fs_grpc.go:22-39 | yields only if this node is the owner and the inode is idle, raising the term by one |
| `Ownership.ClusterInode.ApplyStolenInode` | core/cluster_fs.go:654-672 | overwrites the record whatever it says |
| `DirHandles.ExactlyOnce` | core/dir.go:857-912 | when a listing reports the end, every child present from its first call on was consumed exactly once, for any inserts, removals and remove-alls in between |
| `DirHandles.NeverTwice` | core/dir.go:798-804 | no child that stays is consumed twice at any moment of a listing |
| `DirHandles.OffsetCounts` | core/dir.go:798-804 | in every listing the offset given out is the number of entries consumed, and the directory and its parent come first, once each |
| `DirHandles.ReadsWhatIsThere` | core/dir.go:857-912 | in every listing a child that is returned is there now, and the end is reported only past the last child |
| `DirHandles.RemovedIsNotReturned` | core/dir.go:1052-1083 | in every listing a child that was just removed is not returned |
| `DirHandles.CanRead` | core/dir.go:857-865 | a listing can go on in every reachable state |
| `DirHandles.InsertKeeps` | core/dir.go:1131-1160 | appending or inserting a first child without a new generation keeps every position good |
| `DirHandles.CheckKeeps` | core/dir.go:650-690 | finding the place again by name restores the position |
| `DirHandles.ConsumeKeeps` | core/dir.go:798-804 | advancing a stale position is harmless: name and position still agree with what was consumed |
| `DirHandles.Search` | core/dir.go:1011-1020 | the first child that is not before the name |
| `DirHandles.Directory.InsertChildUnlocked` | core/dir.go:1131-1160 | children stay sorted with the new name, and the generation grows exactly when a child moved |
| `DirHandles.Directory.RemoveChildUnlocked` | core/dir.go:1052-1083 | exactly that child goes and the generation grows; an empty directory stays as it is |
| `DirHandles.Directory.RemoveAllChildrenUnlocked` | core/dir.go:1086-1101 | no child is left and the generation grows |
| `DirHandles.DirHandle.CheckDirPosition` | core/dir.go:650-690 | a stale or lost position becomes the number of children up to the last name, plus the dot entries |
| `DirHandles.DirHandle.ReadDir` | core/dir.go:857-912 | returns the dot entries, then the child at the checked position, then the end |
| `DirHandles.DirHandle.Next` | core/dir.go:798-804 | advances both offsets and remembers the name |
| `ListCuts.IntelligentListCut` | core/dir.go:518-545 | a page kept whole or cut by the loop is safe: no entry after the cut, in the page or on any later one, has a smaller name than a kept entry; it is kept whole exactly if no directory can hide behind its last key, else cut at the last place in its second half where none can, and looked up only if there is no such place |
| `ListCuts.WholeIsSafe` | core/dir.go:523-527 | a last key that no directory can hide behind ends a page safely |
| `ListCuts.CutIsSafe` | core/dir.go:530-545 | a key that no directory can hide behind, given the next key, ends a page safely |
| `ListCuts.TestIsExact` | core/dir.go:534-536 | the test the loop makes fails exactly if some directory comes before the last kept key, has its own key after it, and something in it is not before the next key |
| `ListCuts.OneBoundary` | core/dir.go:479-487 | a page can be cut in one way for each number of kept keys |
| `ListCuts.PrefixLargerPasses` | core/dir.go:489-496 | a larger prefix passes every directory the last key can stand for, with all that is in it |
| `ListCuts.PrefixLargerMisses` | core/dir.go:489-496 | a prefix that is not larger leaves something in that directory that is not passed |
| `ListCuts.Between` | core/dir.go:498-515 | keys strictly between a name and the name with a slash continue it with a character before the slash |
| `ListCuts.LocateLtSlash` | core/dir.go:66-82 | the first character before the slash that has a character other than a slash between the prefix and it |
| `ListCuts.MaxName` | core/dir.go:479-487 | the greatest key of the kept items and prefixes |
| `Wakeups.NoLostWakeup` | core/file.go:1841-1874 | in every interleaving, a SyncFile thread that waits although the inode changed since its check has a flush whose wake-up is still to run, and no request is pending |
| `Wakeups.WakeupArrives` | core/goofys.go:559-574 | when that wake-up runs, the waiting thread is woken |
| `Wakeups.WaiterCanReturn` | core/file.go:1860-1868 | in every reachable state with the flusher lock free, a thread that waits although the inode changed can be let go: the wake-up can run, and then the thread can look again |
| `Wakeups.ChangeIsAnnounced` | core/file.go:1841-1874 | a flush that changes the inode outdates the check of every waiting thread and has a wake-up to run |
| `Wakeups.FlusherHears` | core/goofys.go:559-565 | in every reachable state a pending request finds the flusher awake |
| `Wakeups.RequestStays` | core/goofys.go:604-611 | a request stays pending until the flusher takes it |
| `Wakeups.FlusherCanRun` | core/goofys.go:604-611 | after a wake-up, also of a flusher that waited, the flusher can take its next step as soon as its lock is free, and takes the request |
| `Wakeups.AnyoneCanWake` | core/goofys.go:559-574 | in every reachable state with the flusher lock free anyone can wake the flusher, and then neither it nor any SyncFile thread waits |
| `Wakeups.LocksAreReleased` | core/file.go:1860-1868 | whenever one of the two locks is held, a holder can take its next step |
| `Wakeups.WakeKeeps` | core/goofys.go:559-570 | a wake-up takes no announcement from a thread that is about to wait |
| `Inflight.InflightMaps.CompleteInflightListing` | core/goofys.go:1138-1144 | the result is exactly the keys with a change in progress at some moment of that listing; only that listing goes |
| `Inflight.InflightMaps.AddInflightChange` | core/goofys.go:1101-1108 | counts and listings agree with the history in which the change has begun; no listing is lost |
| `Inflight.InflightMaps.CompleteInflightChange` | core/goofys.go:1111-1118 | counts and listings agree with the history in which the change has ended; no listing is lost |
| `Inflight.InflightMaps.AddInflightListing` | core/goofys.go:1121-1132 | a listing with a new id starts now, besides the others, and agrees with the history |
| `Inflight.OverlapsStep` | core/goofys.go:1134-1137 | of all events only the beginning of a change adds a key to what overlaps a listing |
| `Inflight.OverlapsExactly` | core/goofys.go:1101-1137 | a change overlaps a listing exactly if it was in progress at some moment of it |
| `CopyTilings.MpuCopyParts` | core/backend_s3.go:790-822 | exactly the required number of non-empty ranges tile what the parts can hold, in order, each in its own slot of the table; they tile the object if and only if the parts hold it |
| `CopyTilings.CopyCutShort` | core/backend_s3.go:799-818 | parts that hold one byte copy one byte of an object of two: a concrete copy |
| `CopyTilings.PartsRequired` | core/backend_s3.go:776-788 | the least number of leading parts that hold the object, or all of them |
| `CopyTilings.DefaultCovers` | core/backend_s3.go:824-832 | the default part size covers any object within 10000 parts, and exceeds 50 MB only if 9999 of that size would not |
| `CopyTilings.IssuedTile` | core/backend_s3.go:798-819 | the ranges between part boundaries, clipped at the size, tile the object |

## Left out

- WriteBackRuns.RunShows: runs that go on after a harmful response, cut or commit; what exactly makes one harmful is proved.
- Inodes.Inode.ReadFile: the section after loading; waiting for loads, and finishing an upload to read evicted parts back, are the other methods in sequence.
- Inodes.Inode.FlushPartShot: the load before it is `StartLoad` and `AddChunk`; its remote-conflict branches are left out. A part that is being flushed cannot be cut, so the second clipping of its length never applies.
- Inodes.Inode.SendUploadParts: the branch for fully zero parts is left out, because the source's loop there runs over an empty list.
- BufferLists.BufferList.RemoveRange: an empty range strictly inside a buffer, which no caller passes, is excluded: the walk would split off a piece and delete it.
- BufferLists.BufferList.Add: states other than clean and dirty do not occur.
- BufferLists.BufferList.EvictFromMemory: writing the bytes to the disk cache is a parameter.
- Reclaim.CleanBuffers.FreeSomeCleanBuffers: no other thread changes the lists during the scan; waiting for the flusher afterwards is left out.
- Ownership.NewestExactly: one inode at a time; what moves with the token (attributes, children, reference counts) is left out, and so are reads of a record torn by a concurrent change.
- Wakeups.NoLostWakeup: threads that wait for any result without checking an inode are left out.
- Inflight.InflightMaps.CompleteInflightChange: callers end only changes they began.
- DirHandles.ExactlyOnce: one consumer, which passes the names it was given; seeking to a non-zero offset is left out.
- Buffers are values, so the sharing of byte arrays shows only in reference counts; writing into an array that a reader still holds is not captured.
- The disk cache, PATCH uploads, asynchronous rename, and dropping local changes after a remote conflict, including a copy the store refuses.
- Deleted files, user metadata, times and the metadata-only flush.
- A commit that took effect but was reported as failed is a landed commit that is given up; the store's answer to a second commit is not modelled.
- The slurp gap list and the last branch of the listing cut, which looks up one directory and decides no order.
- 64-bit wrap-around of offsets, ids and generations.
- Cloud backends, gRPC transport, FUSE glue, flags and logging.
