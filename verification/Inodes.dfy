/**
 A file inode: the buffer list, the file size, the range locks and the flush bookkeeping.
 Each method is one section of the source under the inode lock. The ghost fields hold what
 the lock does not guard: the object on the server and what flushes in progress carry.
 `contents` is the plain file; every method says what it does to it.
 */
module Inodes {
  import opened Options
  import opened FileBuffers
  import opened BufferChanges
  import opened BufferIndexes
  import opened BufferReads
  import opened BufferLists
  import opened LoadPlans
  import opened MultiReaders
  import opened PartSizes
  import opened MultipartObject
  import opened WriteBack
  import opened WriteBackRuns
  import opened FlushLocks
  import opened UploadScans

  /** `Waits`: the source flushes the file first and tries again. */
  datatype WriteResult = Done | TooBig | Waits

  /** Fallocate is an extension followed by zero-filling. */
  lemma AllocatedIs(bytes: seq<byte>, offset: nat, length: nat, keepSize: bool, zero: bool)
    requires length > 0
    ensures var size, end := |bytes|, offset + length;
            var grown := if end > size && !keepSize then After(bytes, Resize(end)) else bytes;
            var from := if end > size && keepSize && offset > size then size else offset;
            var count := if end > size && keepSize then size - from else length;
            && from + count <= |grown|
            && Allocated(bytes, offset, length, keepSize, zero) ==
                 if zero && count > 0 then After(grown, Zero(from, count)) else grown
  {
  }

  /** Bytes held in memory are the bytes of the file. */
  lemma HeldIsShown(f: File, bytes: seq<byte>, offset: nat, data: seq<byte>)
    requires Inv(f) && Shows(f, bytes) && Holds(f.m, offset, data) && offset + |data| <= f.size
    ensures offset + |data| <= |bytes| && data == bytes[offset..offset + |data|]
  {
    forall x: int | offset <= x < offset + |data| ensures data[x - offset] == bytes[x] {
      assert Readable(f.m, x) && ReadByte(f, x) == Some(bytes[x]);
    }
  }

  /** `body` is the `count` bytes of the file from `lo` on. */
  ghost predicate IsSlice(bytes: seq<byte>, lo: nat, count: nat, body: seq<byte>)
  {
    lo + count <= |bytes| && body == bytes[lo..lo + count]
  }

  /** What a flush collects is what the file holds. */
  lemma CollectedIsShown(f: File, bytes: seq<byte>, m: Buffers, cur: nat, lo: nat, hi: nat, shot: Snapshot)
    requires Inv(f) && Shows(f, bytes) && lo <= hi <= f.size && Collects(m, f.m, cur, f.cur, lo, hi, shot)
    ensures IsSlice(bytes, lo, hi - lo, shot.body)
  {
    HeldIsShown(f, bytes, lo, shot.body);
  }

  lemma SmallInside(f: File)
    requires Inv(f) && f.upload.Small?
    ensures f.upload.sz <= f.size
  {
  }

  /** Two states that show the same file have the same bytes. */
  lemma ShownTwice(f: File, f': File, bytes: seq<byte>)
    requires |f.starts| > 0 && |f'.starts| > 0 && Shows(f, bytes) && f'.size == f.size
    ensures Shows(f', bytes) ==> SameBytes(f, f')
  {
    if Shows(f', bytes) {
      forall x: int {:trigger ReadByte(f', x)} | 0 <= x < f.size ensures ReadByte(f', x) == ReadByte(f, x) {
        assert ReadByte(f, x) == Some(bytes[x]) && ReadByte(f', x) == Some(bytes[x]);
      }
    }
  }

  lemma SameSize(sizes: seq<PartSize>, f: File, bytes: seq<byte>)
    requires Positive(sizes) && f.starts == Starts(sizes) && Inv(f) && Shows(f, bytes)
    ensures f.size <= Bytes(sizes) && After(bytes, Resize(f.size)) == bytes
  {
    StartsAreBoundaries(sizes);
  }

  lemma ZeroCases(f: File, f': File, offset: nat, size: nat, zeroed: bool)
    requires if zeroed then f'.cur > f.cur && Zeroed(f.m, f'.m, f.cur, offset, offset + size, f'.cur)
             else f'.m == f.m && f'.cur == f.cur && forall x: int :: offset <= x < offset + size ==>
                    CellAt(f.m, x).Some? && CellAt(f.m, x).value.kind.zero
    ensures ZeroFilled(f.m, f.cur, f'.m, f'.cur, offset, offset + size)
  {
  }

  /** A file after fallocate. */
  function Allocated(bytes: seq<byte>, offset: nat, length: nat, keepSize: bool, zero: bool): seq<byte>
  {
    if length == 0 then bytes
    else
      var end := if keepSize && offset + length > |bytes| then |bytes| else offset + length;
      var grown := Padded(bytes, end);
      if zero && offset < end then Written(grown, offset, Zeros(end - offset)) else grown
  }

  /** Allocation, byte by byte. */
  ghost predicate AllocatedBytes(bytes: seq<byte>, after: seq<byte>, offset: nat, length: nat, keepSize: bool,
                                 zero: bool)
  {
    && |after| == (if length > 0 && !keepSize && offset + length > |bytes| then offset + length else |bytes|)
    && forall x: int :: 0 <= x < |after| ==>
         after[x] == if zero && offset <= x < offset + length then 0 else if x < |bytes| then bytes[x] else 0
  }

  lemma AllocatedExactly(bytes: seq<byte>, offset: nat, length: nat, keepSize: bool, zero: bool)
    ensures AllocatedBytes(bytes, Allocated(bytes, offset, length, keepSize, zero), offset, length, keepSize, zero)
  {
  }

  lemma NothingAllocated(bytes: seq<byte>, offset: nat, keepSize: bool, zero: bool)
    ensures Allocated(bytes, offset, 0, keepSize, zero) == bytes
  {
  }

  /** `Flushed`: part of the range was uploaded and left memory. `OutOfRange`: the object is too short. */
  datatype LoadStart = Started(miss: bool) | Flushed | OutOfRange

  lemma ClearedInside(m: Buffers, lo: nat, hi: nat)
    requires Shape(m) && exists k: int :: Meets(m, k, lo, hi) && m[k].kind.state.FlCleared?
    ensures exists x: int :: lo <= x && (x < hi || x == lo) && IsCleared(CellAt(m, x))
  {
    var k: int :| Meets(m, k, lo, hi) && m[k].kind.state.FlCleared?;
    var x: int := if m[k].offset < lo then lo else m[k].offset;
    CoveredCell(m, k, x);
    assert IsCleared(CellAt(m, x));
  }

  /** Cutting buffers brings nothing into memory and drops nothing. */
  lemma StillUnreadable(m: Buffers, m': Buffers, cur: nat, offset: nat, length: nat, r: ReadResult)
    requires AllKept(m, m', cur) && ReadFails(m', offset, offset + length, r)
    ensures exists x: int :: offset <= x < offset + length && !Readable(m, x)
  {
    var x: int :| FirstUnreadable(m', offset, offset + length, x, r);
    assert Kept(CellAt(m, x), CellAt(m', x), cur);
    assert !Readable(m, x);
  }

  lemma WasReadable(m: Buffers, m': Buffers, cur: nat, offset: nat, bytes: seq<byte>)
    requires AllKept(m, m', cur) && Holds(m', offset, bytes)
    ensures forall x: int :: offset <= x < offset + |bytes| ==> Readable(m, x)
  {
    forall x: int | offset <= x < offset + |bytes| ensures Readable(m, x) {
      assert Kept(CellAt(m, x), CellAt(m', x), cur) && Readable(m', x);
    }
  }

  lemma SomeKey(m: Buffers) returns (k: int)
    requires m != map[]
    ensures k in m
  {
    assert m.Items != {};
    var i :| i in m.Items;
    k := i.0;
  }

  lemma WasEmpty(m: Buffers, m': Buffers, cur: nat)
    requires Shape(m) && Shape(m') && AllKept(m, m', cur)
    requires CellAt(m', 0).Some? || forall k: int :: k in m' ==> k <= 0
    ensures m == map[] || CellAt(m, 0).Some?
  {
    assert Kept(CellAt(m, 0), CellAt(m', 0), cur);
    if m != map[] {
      var k := SomeKey(m);
      CoveredCell(m, k, k - 1);
      assert Kept(CellAt(m, k - 1), CellAt(m', k - 1), cur);
      assert KeyAt(m', k - 1) in m';
    }
  }

  lemma NoneAtAll(m: Buffers, m': Buffers, cur: nat, r: ReadResult)
    requires AllKept(m, m', cur) && Shape(m') && EmptyReadFails(m', 0, r)
    ensures m != map[] && CellAt(m, 0).None?
  {
    var k: int :| k in m' && k > 0;
    CoveredCell(m', k, k - 1);
    assert Kept(CellAt(m, k - 1), CellAt(m', k - 1), cur) && Kept(CellAt(m, 0), CellAt(m', 0), cur);
  }

  lemma Unloaded(m: Buffers, m': Buffers, cur: nat, offset: nat, length: nat)
    requires Erased(m, m', cur, offset, offset + length, LoadingFromServer)
    ensures forall x: int {:trigger CellAt(m', x)} ::
              var c := CellAt(m, x);
              if offset <= x < offset + length && c.Some? && c.value.kind.loading && !c.value.kind.onDisk
              then CellAt(m', x).None?
              else Kept(c, CellAt(m', x), cur)
  {
  }

  ghost predicate OneLonger(a: seq<ReadRange>, b: seq<ReadRange>)
  {
    |b| == |a| + 1 && b[..|a|] == a
  }

  /** `count` locks were added to `a`. */
  ghost predicate Longer(a: seq<ReadRange>, b: seq<ReadRange>, count: nat)
  {
    |b| == |a| + count && b[..|a|] == a
  }

  lemma LongerStart(a: seq<ReadRange>)
    ensures Longer(a, a, 0)
  {
  }

  lemma LongerStep(a: seq<ReadRange>, b: seq<ReadRange>, b': seq<ReadRange>, count: nat, count': nat)
    requires Longer(a, b, count)
    requires if count' == count then b' == b else count' == count + 1 && OneLonger(b, b')
    ensures Longer(a, b', count')
  {
    if count' != count { assert b'[..|a|] == b'[..|b|][..|a|]; }
  }

  lemma NoHoles(m: Buffers, lo: nat)
    ensures Separated([]) && ListsHoles(m, lo, lo, [])
  {
  }

  lemma EmptyFlat()
    ensures Flat([]) == []
  {
  }

  lemma NoIds(m: Buffers, offset: nat, ids: set<nat>)
    requires ids == {}
    ensures CollectsIds(m, offset, offset, ids)
  {
  }

  method ReaderOf(chunks: seq<seq<byte>>) returns (reader: MultiReader)
    ensures fresh(reader) && reader.Valid() && reader.pos == 0 && reader.Flat() == Flat(chunks)
  {
    hide Flat, MultiReader.Valid, Stream;
    reader := new MultiReader();
    EmptyFlat();
    for i := 0 to |chunks|
      invariant reader.Valid() && reader.pos == 0 && reader.Flat() == Flat(chunks[..i])
    {
      reader.AddBuffer(chunks[i]);
      assert chunks[..i + 1] == chunks[..i] + [chunks[i]];
      FlatAppend(chunks[..i], chunks[i]);
    }
    assert chunks[..|chunks|] == chunks;
  }

  lemma ListIsOk(m: Buffers, cur: nat)
    requires Shape(m) && DistinctIds(m, cur)
    ensures ListOk(m, cur)
  {
  }

  lemma ListShape(m: Buffers, cur: nat)
    requires ListOk(m, cur)
    ensures Shape(m)
  {
  }

  lemma StillDirtySame(a: File, b: File)
    requires a.size == b.size && a.known == b.known && a.m == b.m
    ensures StillDirty(a) == StillDirty(b)
  {
  }

  lemma RecachedSame(f: File, f1: File, f2: File)
    requires Recached(f, f1) && f2 == f1.(upload := Idle)
    ensures Recached(f, f2)
  {
    StillDirtySame(f1, f2);
  }

  lemma StateIsSet(m: Buffers, m': Buffers, offset: nat, size: nat, ids: set<nat>, state: BufferState, cursor: int)
    requires Restated(m, m', ids, state, offset + 1, cursor)
    requires forall k: int :: k in m && offset < k && m[k].offset < offset + size ==> k < cursor
    ensures StateSet(m, m', offset, offset + size, ids, state, cursor)
  {
  }

  lemma PartRestated(f: File, f': File, p: int, s: Snapshot, cursor: int)
    requires 0 <= p < |f.starts|
    requires StateSet(f.m, f'.m, f.starts[p], f.starts[p] + |s.body|, s.ids, FlushedState(f.starts, p, s.body), cursor)
    ensures PartStateSet(f, f', p, s)
  {
  }

  lemma NotTaken(max: nat, mpu: bool, starting: Starting, upload: Upload, pending: set<int>, isFlushing: nat, p: int)
    requires OneFlush(max, mpu, starting, upload, pending, isFlushing) && upload.Multi? && p !in pending
    ensures p !in upload.taken
  {
  }

  lemma TakenInside(f: File, p: int)
    requires Inv(f) && f.upload.Multi? && p in f.upload.taken
    ensures 0 <= p < |f.starts| - 1 && f.starts[p] < f.upload.taken[p] <= f.size
  {
  }

  lemma DoneState(starts: seq<nat>, p: nat, body: seq<byte>, state: BufferState)
    requires p < |starts| - 1 && starts[p] + |body| <= starts[p + 1]
    requires state == if starts[p] + |body| < starts[p + 1] || p == 0 then FlushedCut else FlushedFull
    ensures state == FlushedState(starts, p, body)
  {
  }

  lemma FlightSize(f: File, p: int)
    requires Inv(f) && f.upload.Multi? && p in f.upload.flights
    ensures 0 <= p < |f.starts| - 1 && f.starts[p] + |f.upload.flights[p].body| <= f.starts[p + 1]
  {
  }

  /** The part has no dirty buffer, or it has one that left memory. */
  ghost predicate PartSkipped(m: Buffers, starts: seq<nat>, p: int)
  {
    && 0 <= p < |starts| - 1
    && (Has(m, starts[p], starts[p + 1], HasDirty) ==> Has(m, starts[p], starts[p + 1], HasEvicted))
  }

  /** The dirty index agrees with the buffers of the file. */
  ghost predicate DirtyIndex(f: File, part: nat -> nat, parts: map<int, DirtyPart>, queue: map<int, int>, qid: nat)
  {
    && Boundaries(f.starts) && f.size <= MaxSize(f.starts)
    && PartHelper(part) && (forall x: nat :: x < MaxSize(f.starts) ==> part(x) == PartOf(f.starts, x))
    && QueueOfParts(parts, queue, qid) && CountsDirty(f.m, part, parts)
  }

  lemma NoDirtyKeys(m: Buffers, part: nat -> nat, p: int)
    requires forall k: int :: k in m && m[k].kind.state.Dirty? ==> !OnPart(m[k], part, p)
    ensures |DirtyKeys(m, part, p)| == 0
  {
    var keys := DirtyKeys(m, part, p);
    forall x: int ensures x !in keys { if x in m { } }
    assert keys !! keys;
  }

  /** A queued part has a dirty buffer, so it begins inside the file. */
  lemma QueuedPartInside(f: File, part: nat -> nat, parts: map<int, DirtyPart>, queue: map<int, int>, qid: nat, i: int)
    requires Inv(f) && DirtyIndex(f, part, parts, queue, qid) && i in queue
    ensures 0 <= queue[i] < |f.starts| - 1 && f.starts[queue[i]] < f.size
  {
    hide PartOf, UploadOk;
    var p := queue[i];
    assert Refs(parts, p) == |DirtyKeys(f.m, part, p)| > 0;
    if forall k: int :: k in f.m && f.m[k].kind.state.Dirty? ==> !OnPart(f.m[k], part, p) { NoDirtyKeys(f.m, part, p); }
    var k: int :| k in f.m && f.m[k].kind.state.Dirty? && OnPart(f.m[k], part, p);
    DirtyBufferInside(f, k);
    LastByteOfPart(f, part, k, p);
  }

  lemma DirtyBufferInside(f: File, k: int)
    requires Inv(f) && k in f.m && f.m[k].kind.state.Dirty?
    ensures 0 < k <= f.size
  {
    CoveredCell(f.m, k, k - 1);
    assert OkAt(f, k - 1);
  }

  lemma LastByteOfPart(f: File, part: nat -> nat, k: int, p: int)
    requires Boundaries(f.starts) && 0 < k <= f.size <= MaxSize(f.starts) && k in f.m && f.m[k].End() == k
    requires OnPart(f.m[k], part, p)
    requires forall x: nat :: x < MaxSize(f.starts) ==> part(x) == PartOf(f.starts, x)
    ensures 0 <= p < |f.starts| - 1 && f.starts[p] < f.size
  {
    hide PartOf;
    var q := part(k - 1);
    PartOfIs(f.starts, q, k - 1);
    assert p < q ==> f.starts[p] < f.starts[q];
  }

  /** The part of an unsent byte is queued. */
  lemma UnsentIsQueued(f: File, part: nat -> nat, parts: map<int, DirtyPart>, queue: map<int, int>, qid: nat, x: int)
    requires Inv(f) && DirtyIndex(f, part, parts, queue, qid) && 0 <= x < f.size && IsDirty(CellAt(f.m, x))
    ensures exists i: int :: i in queue && queue[i] == PartOf(f.starts, x)
  {
    hide PartOf, UploadOk, OkAt;
    var k, p := KeyAt(f.m, x), PartOf(f.starts, x);
    DirtyBufferInside(f, k);
    assert part(f.m[k].offset) <= part(x) <= part(k - 1);
    assert k in DirtyKeys(f.m, part, p);
    assert Refs(parts, p) == |DirtyKeys(f.m, part, p)| > 0;
    assert queue[parts[p].queueId] == p;
  }

  /** A skipped part with an unsent byte has a byte that left memory. */
  lemma SkippedHasCleared(f: File, x: int)
    requires Inv(f) && f.upload.Multi? && 0 <= x < f.size && IsDirty(CellAt(f.m, x))
    requires PartSkipped(f.m, f.starts, PartOf(f.starts, x))
    ensures exists y: int :: InPart(f.starts, PartOf(f.starts, x), y) && y < f.size && IsCleared(CellAt(f.m, y))
  {
    hide PartOf, CellAt, Has, OkAt, UploadOk;
    var p := PartOf(f.starts, x);
    PartOfIs(f.starts, p, x);
    FeaturesOfBytes(f.m, f.starts[p], f.starts[p + 1]);
    var y: int :| f.starts[p] <= y < f.starts[p + 1] && IsCleared(CellAt(f.m, y));
    ClearedInFile(f, y);
    assert InPart(f.starts, p, y);
  }

  lemma ClearedInFile(f: File, y: int)
    requires Inv(f) && f.upload.Multi? && IsCleared(CellAt(f.m, y))
    ensures 0 <= y < f.size
  {
    assert OkAt(f, y);
  }

  /** If every queued part is one to skip, every part with unsent changes has lost some of it. */
  lemma AllPartsSkipped(f: File, part: nat -> nat, parts: map<int, DirtyPart>, queue: map<int, int>, qid: nat)
    requires Inv(f) && f.upload.Multi? && DirtyIndex(f, part, parts, queue, qid)
    requires forall i: int :: i in queue ==> PartSkipped(f.m, f.starts, queue[i])
    ensures NothingToSend(f)
  {
    hide PartOf, UploadOk, OkAt, DirtyIndex, PartSkipped, ListOk;
    forall x: int {:trigger CellAt(f.m, x)} | 0 <= x < f.size && IsDirty(CellAt(f.m, x))
      ensures exists y: int :: InPart(f.starts, PartOf(f.starts, x), y) && y < f.size && IsCleared(CellAt(f.m, y))
    {
      UnsentIsQueued(f, part, parts, queue, qid, x);
      SkippedHasCleared(f, x);
    }
  }

  lemma UploadOpen(max: nat, mpu: bool, starting: Starting, upload: Upload, pending: set<int>, isFlushing: nat)
    requires OneFlush(max, mpu, starting, upload, pending, isFlushing) && mpu
    ensures upload.Multi?
  {
  }

  lemma LockedIs(locks: seq<ReadRange>, size: nat)
    ensures FlushLocked(locks, 0, size) <==> exists r :: r in locks && r.Hits(0, size, true)
  {
  }

  lemma NotPending(upload: Upload, pending: set<int>, p: int)
    requires p !in FlushedParts(upload, pending)
    ensures p !in pending
  {
  }

  lemma OneMore(was: set<int>, before: set<int>, now: set<int>, p: int)
    requires was <= before && p !in before && now == before + {p}
    ensures |now - was| == |before - was| + 1
  {
    assert now - was == (before - was) + {p};
  }

  lemma SamePartsFlushed(a: Upload, b: Upload, pending: set<int>)
    requires a.Multi? && b.Multi? && a.flights == b.flights
    ensures FlushedParts(a, pending) == FlushedParts(b, pending)
  {
  }

  /** The computed part count is the least number of parts that hold the file. */
  lemma PartCountIs(sizes: seq<PartSize>, size: nat, n: nat)
    requires n <= Parts(sizes) && size <= StartOf(sizes, n) && forall i: nat :: i < n ==> StartOf(sizes, i) < size
    ensures IsPartCount(Starts(sizes), size, n)
  {
  }

  /** The boundaries of a part, in the list of starts and as computed. */
  lemma PartBounds(sizes: seq<PartSize>, part: int)
    requires Positive(sizes)
    ensures Boundaries(Starts(sizes)) && |Starts(sizes)| - 1 == Parts(sizes) && MaxSize(Starts(sizes)) == Bytes(sizes)
    ensures 0 <= part < Parts(sizes) ==>
              && Starts(sizes)[part] == StartOf(sizes, part) < Starts(sizes)[part + 1] == StartOf(sizes, part + 1)
              && LengthOf(sizes, part) == Starts(sizes)[part + 1] - Starts(sizes)[part]
  {
    StartsAreBoundaries(sizes);
  }

  ghost function LengthOf(sizes: seq<PartSize>, part: nat): nat
    requires Positive(sizes) && part < Parts(sizes)
  {
    StartOfStep(sizes, part);
    StartOf(sizes, part + 1) - StartOf(sizes, part)
  }

  /** The part numbers of a configuration are what a buffer list asks for. */
  lemma PartNumbersHelp(sizes: seq<PartSize>)
    requires Positive(sizes)
    ensures PartHelper((x: nat) => PartAt(Starts(sizes), x))
    ensures forall x: nat :: x < Bytes(sizes) ==> PartAt(Starts(sizes), x) == PartOf(Starts(sizes), x)
  {
    hide Starts, PartAt, PartOf;
    StartsAreBoundaries(sizes);
    var part := (x: nat) => PartAt(Starts(sizes), x);
    forall x: nat, y: nat | x <= y ensures part(x) <= part(y) { PartAtOrder(Starts(sizes), x, y); }
    forall x: nat ensures part(x + 1) <= part(x) + 1 { PartAtOrder(Starts(sizes), x, x); }
    forall x: nat | x < Bytes(sizes) ensures PartAt(Starts(sizes), x) == PartOf(Starts(sizes), x) {
      PartAtOrder(Starts(sizes), x, x);
    }
  }

  /** An inode for an object of `size` bytes, or for a new file. */
  method NewInode(sizes: seq<PartSize>, maxParallelParts: nat, singlePartSize: nat, id: nat, q: BufferQueue,
                  cacheState: CacheState, size: nat, ghost stored: seq<byte>)
    returns (inode: Inode)
    requires Positive(sizes) && maxParallelParts > 0 && |stored| == size <= Bytes(sizes)
    requires QueuesClean(map[], id, q.cleanQueue, q.curQueueID)
    ensures fresh(inode) && fresh(inode.buffers) && inode.buffers.q == q && inode.Valid() && inode.contents == stored
    ensures inode.cacheState == cacheState && inode.size == inode.knownSize == size && inode.server == stored
    ensures inode.buffers.at == map[] && inode.readRanges == [] && inode.upload.Idle? && inode.starting.Nothing?
    ensures inode.isFlushing == 0 && !inode.mpu && inode.pending == {}
    ensures inode.sizes == sizes && inode.maxParallelParts == maxParallelParts && inode.singlePartSize == singlePartSize
  {
    hide Starts, PartAt, PartOf, Bytes, Positive;
    PartNumbersHelp(sizes);
    var buffers := new BufferList((x: nat) => PartAt(Starts(sizes), x), id, q);
    inode := new Inode(sizes, maxParallelParts, singlePartSize, buffers, cacheState, size, stored);
  }

  class Inode {
    const sizes: seq<PartSize>
    const maxParallelParts: nat
    const singlePartSize: nat
    const buffers: BufferList

    var size: nat
    var knownSize: nat
    var cacheState: CacheState
    var readRanges: seq<ReadRange>
    var mpu: bool
    /** What the ids in mpu.Parts stand for. */
    var mpuParts: Bodies
    var isFlushing: nat

    ghost var starting: Starting
    ghost var pending: set<int>
    ghost var upload: Upload
    ghost var server: seq<byte>
    ghost var contents: seq<byte>

    ghost function State(): File
      reads `size, `knownSize, `server, `cacheState, `upload, buffers
    {
      File(Starts(sizes), buffers.at, buffers.curDirtyID, size, knownSize, server, cacheState, upload)
    }

    /** The list and the flush in progress agree with what the file holds. */
    ghost predicate Sound()
      reads `size, `knownSize, `server, `cacheState, `upload, `mpuParts, `contents, buffers, buffers.q
    {
      && buffers.Valid() && Positive(sizes)
      && (forall x: nat :: x < Bytes(sizes) ==> buffers.part(x) == PartOf(Starts(sizes), x))
      && Inv(State()) && Shows(State(), contents)
      && (upload.Multi? ==> upload.parts == mpuParts)
    }

    /** Locks and counters tell what flush is in progress. */
    ghost predicate Booked()
      reads `size, `cacheState, `upload, `readRanges, `mpu, `isFlushing, `starting, `pending
    {
      && LocksHeld(Starts(sizes), readRanges, upload, pending, size)
      && OneFlush(maxParallelParts, mpu, starting, upload, pending, isFlushing)
      && (starting.StartingMulti? ==> !cacheState.Cached?)
    }

    ghost predicate Valid()
      reads this, buffers, buffers.q
    {
      Sound() && Booked()
    }

    constructor (sizes: seq<PartSize>, maxParallelParts: nat, singlePartSize: nat, buffers: BufferList,
                 cacheState: CacheState, size: nat, ghost stored: seq<byte>)
      requires Positive(sizes) && maxParallelParts > 0 && |stored| == size <= Bytes(sizes)
      requires buffers.Valid() && buffers.at == map[]
      requires forall x: nat :: x < Bytes(sizes) ==> buffers.part(x) == PartOf(Starts(sizes), x)
      ensures Valid() && contents == stored && this.buffers == buffers
      ensures this.cacheState == cacheState && this.size == knownSize == size && server == stored
      ensures readRanges == [] && upload.Idle? && starting.Nothing? && isFlushing == 0 && !mpu && pending == {}
      ensures this.sizes == sizes && this.maxParallelParts == maxParallelParts && this.singlePartSize == singlePartSize
    {
      this.sizes, this.maxParallelParts, this.singlePartSize := sizes, maxParallelParts, singlePartSize;
      this.buffers, this.cacheState, this.size, this.knownSize := buffers, cacheState, size, size;
      readRanges, mpu, mpuParts, isFlushing := [], false, map[], 0;
      starting, pending, upload, server, contents := Nothing, {}, Idle, stored, stored;
      new;
      StartsAreBoundaries(sizes);
      OpenedShows(State());
    }

    /** The step `op` from state `f` has just been made: the file reads as it should. */
    ghost method Advance(f: File, op: Op)
      requires Inv(f) && Shows(f, contents) && Step(f, State(), op) && Harmless(f, op)
      requires buffers.Valid() && Positive(sizes)
      requires forall x: nat :: x < Bytes(sizes) ==> buffers.part(x) == PartOf(Starts(sizes), x)
      requires upload.Multi? ==> upload.parts == mpuParts
      modifies `contents
      ensures Sound() && contents == After(old(contents), op)
    {
      hide Inv, Shows, CellAt, Positive, Starts, BufferList.Valid, Step, Harmless, After, PartOf, Bytes;
      StepShows(f, State(), op, contents);
      contents := After(contents, op);
    }

    // ----- Range locks -----

    method LockRange(offset: nat, size: nat, flushing: bool)
      modifies `readRanges
      ensures readRanges == old(readRanges) + [ReadRange(offset, size, flushing)]
    {
      readRanges := readRanges + [ReadRange(offset, size, flushing)];
    }

    /** Drops one lock of this range, if there is one. */
    method UnlockRange(offset: nat, size: nat, flushing: bool)
      modifies `readRanges
      ensures readRanges == Removed(old(readRanges), ReadRange(offset, size, flushing))
    {
      var r := ReadRange(offset, size, flushing);
      var i := 0;
      while i < |readRanges| && readRanges[i] != r
        invariant i <= |readRanges| && r !in readRanges[..i]
      {
        i := i + 1;
      }
      RemovedAt(readRanges, r, i);
      if i < |readRanges| {
        readRanges := readRanges[..i] + readRanges[i + 1..];
      }
    }

    method IsRangeLocked(offset: nat, size: nat, onlyFlushing: bool) returns (locked: bool)
      ensures locked <==> exists r :: r in readRanges && r.Hits(offset, offset + size, onlyFlushing)
      ensures locked <==> exists r :: r in readRanges && r.offset < offset + size && offset < r.offset + r.size
                                      && (r.flushing || !onlyFlushing)
    {
      locked := false;
      for i := 0 to |readRanges|
        invariant !locked && forall r :: r in readRanges[..i] ==> !r.Hits(offset, offset + size, onlyFlushing)
      {
        if readRanges[i].Hits(offset, offset + size, onlyFlushing) {
          assert readRanges[i] in readRanges;
          return true;
        }
        assert readRanges[..i + 1] == readRanges[..i] + [readRanges[i]];
      }
      assert readRanges[..|readRanges|] == readRanges;
    }

    method IsStillDirty() returns (dirty: bool)
      requires buffers.Valid()
      ensures dirty <==> StillDirty(State())
    {
      if size != knownSize {
        return true;
      }
      dirty := buffers.AnyUnclean();
    }

    // ----- Writing and reading -----

    /**
     Truncates or extends. `done` is false where the source waits for a flush of the cut range
     and tries again.
     */
    method ResizeUnlocked(newSize: nat) returns (done: bool)
      requires buffers.Valid() && newSize != size
      modifies `size, buffers, buffers.q
      ensures buffers.Valid()
      ensures done <==> newSize > old(size) || !old(CutWaits(newSize))
      ensures done && newSize < old(size) ==> forall r :: r in readRanges ==> !r.Hits(newSize, old(size), true)
      ensures !done ==>
                size == old(size) && buffers.at == old(buffers.at) && buffers.curDirtyID == old(buffers.curDirtyID)
      ensures done ==> size == newSize
      ensures done && newSize > old(size) ==> Grown(old(State()), buffers.at, buffers.curDirtyID, newSize)
      ensures done && newSize < old(size) ==>
                && Erased(old(buffers.at), buffers.at, old(buffers.curDirtyID), newSize, old(size), Everything)
                && old(buffers.curDirtyID) <= buffers.curDirtyID
    {
      hide CellAt, Erased, Zeroed;
      if size > newSize {
        var locked := IsRangeLocked(newSize, size - newSize, true);
        var flushed := buffers.AnyFlushed(newSize, size - newSize);
        if locked || flushed {
          return false;
        }
        var _ := buffers.RemoveRange(newSize, size - newSize, Everything);
      } else {
        var _, _ := buffers.ZeroRange(size, newSize - size);
      }
      size := newSize;
      done := true;
    }

    lemma NothingWaits(newSize: nat)
      requires readRanges == [] && buffers.at == map[] && upload.Idle?
      ensures !CutWaits(newSize) && CutFits(State(), newSize)
    {
    }

    ghost predicate CutWaits(newSize: nat)
      reads this, buffers
    {
      || (exists r :: r in readRanges && r.Hits(newSize, size, true))
      || (exists k: int :: Meets(buffers.at, k, newSize, size) && buffers.at[k].Flushed())
    }

    method WriteFile(offset: nat, data: seq<byte>, cap: nat, copyData: bool) returns (r: WriteResult)
      requires Valid() && 0 < |data| <= cap
      modifies `size, `cacheState, `contents, buffers, buffers.q
      ensures Valid()
      ensures r == if offset + |data| > Bytes(sizes) then TooBig else Done
      ensures contents ==
              if r.TooBig? then old(contents) else Written(Padded(old(contents), offset + |data|), offset, data)
      ensures cacheState == if r.Done? && old(cacheState).Cached? then Modified else old(cacheState)
      ensures r.Done? ==>
                Overwrote(old(buffers.at), buffers.at, old(buffers.curDirtyID), old(size), offset, data)
      ensures r.TooBig? ==> buffers.at == old(buffers.at)
    {
      hide Overwrote, Sound, Written, Padded, LocksHeld, OneFlush, Starts, Bytes;
      var max := GetMaxFileSize(sizes);
      if offset + |data| > max {
        return TooBig;
      }
      ghost var was := size;
      WriteSection(offset, data, cap, copyData);
      LocksGrow(Starts(sizes), readRanges, upload, pending, was, size);
      r := Done;
    }

    method WriteSection(offset: nat, data: seq<byte>, cap: nat, copyData: bool)
      requires Sound() && 0 < |data| <= cap && offset + |data| <= Bytes(sizes)
      modifies `size, `cacheState, `contents, buffers, buffers.q
      ensures Sound() && contents == Written(Padded(old(contents), offset + |data|), offset, data)
      ensures size >= old(size) && cacheState == Touched(old(cacheState))
      ensures Overwrote(old(buffers.at), buffers.at, old(buffers.curDirtyID), old(size), offset, data)
    {
      hide Inv, Shows, CellAt, ZeroFilled, Added, Written, Padded, Positive, Starts, BufferList.Valid, PartOf, Bytes,
           ListOk, Overwrote;
      ghost var f := State();
      if size < offset + |data| {
        var _ := ResizeUnlocked(offset + |data|);
      }
      ghost var m1, cur1 := buffers.at, buffers.curDirtyID;
      var _ := buffers.Add(offset, data, cap, Dirty, copyData);
      if cacheState.Cached? {
        cacheState := Modified;
      }
      buffers.ValidList();
      ListIsOk(buffers.at, buffers.curDirtyID);
      StartsAreBoundaries(sizes);
      assert WriteVia(f, State(), offset, data, m1, cur1);
      WriteCells(f, State(), offset, data, m1, cur1);
      Advance(f, Write(offset, data));
    }

    /**
     The size change of SetAttributes. The source cuts wherever nothing is being flushed and no
     flushed buffer is in the way. It keeps the upload in order exactly if the uploaded parts fit.
     */
    method SetSize(newSize: nat) returns (r: WriteResult)
      requires Valid()
      modifies `size, `cacheState, `contents, buffers, buffers.q
      ensures newSize > Bytes(sizes) ==> r.TooBig?
      ensures newSize <= Bytes(sizes) ==> r == if newSize < old(size) && old(CutWaits(newSize)) then Waits else Done
      ensures size == if r.Done? then newSize else old(size)
      ensures cacheState ==
              if r.Done? && newSize != old(size) && old(cacheState).Cached? then Modified else old(cacheState)
      ensures if !r.Done? || newSize == old(size)
              then buffers.at == old(buffers.at) && buffers.curDirtyID == old(buffers.curDirtyID)
              else if newSize > old(size) then
                buffers.curDirtyID > old(buffers.curDirtyID)
                && Overwrote(old(buffers.at), buffers.at, old(buffers.curDirtyID), old(size), newSize, [])
              else Erased(old(buffers.at), buffers.at, old(buffers.curDirtyID), newSize, old(size), Everything)
      ensures Valid() <==> (r.Done? && newSize < old(size) ==> old(CutFits(State(), newSize)))
      ensures Valid() ==> contents == if r.Done? then After(old(contents), Resize(newSize)) else old(contents)
    {
      hide Inv, Shows, CellAt, ZeroFilled, Erased, LocksHeld, OneFlush, Positive, Starts, BufferList.Valid, PartOf,
           Bytes, After, CutWaits, CutFits, Overwrote;
      if newSize == size {
        SameSize(sizes, State(), contents);
        return Done;
      }
      var max := GetMaxFileSize(sizes);
      if newSize > max {
        return TooBig;
      }
      if newSize < size {
        r := CutFile(newSize);
        return;
      }
      ghost var f := State();
      var _ := ResizeUnlocked(newSize);
      if cacheState.Cached? {
        cacheState := Modified;
      }
      buffers.ValidList();
      StartsAreBoundaries(sizes);
      LocksGrow(Starts(sizes), readRanges, upload, pending, f.size, size);
      GrowthCells(f, buffers.at, buffers.curDirtyID, newSize);
      Advance(f, Resize(newSize));
      r := Done;
    }

    method CutFile(newSize: nat) returns (r: WriteResult)
      requires Valid() && newSize < size && newSize <= Bytes(sizes)
      modifies `size, `cacheState, `contents, buffers, buffers.q
      ensures r == if old(CutWaits(newSize)) then Waits else Done
      ensures size == if r.Done? then newSize else old(size)
      ensures cacheState == if r.Done? && old(cacheState).Cached? then Modified else old(cacheState)
      ensures if !r.Done? then buffers.at == old(buffers.at) && buffers.curDirtyID == old(buffers.curDirtyID)
              else Erased(old(buffers.at), buffers.at, old(buffers.curDirtyID), newSize, old(size), Everything)
      ensures Valid() <==> (r.Done? ==> old(CutFits(State(), newSize)))
      ensures Valid() ==> contents == if r.Done? then After(old(contents), Resize(newSize)) else old(contents)
    {
      hide Inv, Shows, CellAt, ZeroFilled, Erased, LocksHeld, Positive, Starts, BufferList.Valid, PartOf, Bytes,
           After, CutWaits, CutFits, CutUnlocked;
      ghost var f := State();
      var done := ResizeUnlocked(newSize);
      if !done {
        return Waits;
      }
      if cacheState.Cached? {
        cacheState := Modified;
      }
      buffers.ValidList();
      StartsAreBoundaries(sizes);
      CutMeetsNoFlush(f, readRanges, pending, newSize);
      CutExactly(f, State());
      if CutFits(f, newSize) { Advance(f, Resize(newSize)); }
      r := Done;
    }

    /** Zeroes a range inside the file. */
    method ZeroSection(offset: nat, length: nat)
      requires Valid() && offset + length <= size
      modifies `size, `cacheState, `contents, buffers, buffers.q
      ensures Valid()
      ensures contents == if length == 0 then old(contents) else After(old(contents), Zero(offset, length))
      ensures buffers.curDirtyID >= old(buffers.curDirtyID)
      ensures cacheState == if buffers.curDirtyID != old(buffers.curDirtyID) && old(cacheState).Cached? then Modified
                            else old(cacheState)
    {
      hide Inv, Shows, CellAt, ZeroFilled, LocksHeld, OneFlush, Positive, Starts, BufferList.Valid, PartOf, Bytes,
           After;
      ghost var f := State();
      var zeroed, _ := buffers.ZeroRange(offset, length);
      if zeroed && cacheState.Cached? {
        cacheState := Modified;
      }
      if length > 0 {
        buffers.ValidList();
        ZeroCases(f, State(), offset, length, zeroed);
        Advance(f, Zero(offset, length));
      }
    }

    /** Fallocate: extends the file unless it must keep its size, and zeroes the range if asked to. */
    method Fallocate(offset: nat, length: nat, keepSize: bool, zero: bool) returns (r: WriteResult)
      requires Valid()
      modifies `size, `cacheState, `contents, buffers, buffers.q
      ensures Valid()
      ensures r == if length > 0 && offset + length > old(size) && !keepSize && offset + length > Bytes(sizes)
                   then TooBig else Done
      ensures if r.TooBig? then contents == old(contents)
              else AllocatedBytes(old(contents), contents, offset, length, keepSize, zero)
      ensures cacheState == if buffers.curDirtyID != old(buffers.curDirtyID) && old(cacheState).Cached? then Modified
                            else old(cacheState)
    {
      hide Sound, Booked, Allocated, After, AllocatedBytes;
      AllocatedExactly(contents, offset, length, keepSize, zero);
      if length == 0 {
        NothingAllocated(contents, offset, keepSize, zero);
        return Done;
      }
      SizeShown();
      var offset', length' := offset, length;
      if offset + length > size {
        if !keepSize {
          r := SetSize(offset + length);
          if r.TooBig? {
            return;
          }
        } else {
          if offset > size {
            offset' := size;
          }
          length' := size - offset';
        }
      }
      r := Done;
      if zero {
        ZeroSection(offset', length');
      }
      AllocatedIs(old(contents), offset, length, keepSize, zero);
    }

    /** The section of a read that follows loading: what is delivered is what the file holds. */
    method ReadFile(offset: nat, length: nat) returns (r: ReadResult)
      requires Valid()
      ensures var n := if size <= offset then 0 else if offset + length > size then size - offset else length;
              && (r.Data? ==> r.ids == {})
              && (r.Data? && n > 0 ==> offset + n <= |contents| && Flat(r.chunks) == contents[offset..offset + n])
              && (n == 0 && size <= offset ==> r == Data([], {}))
              && (!r.Data? && n > 0 ==> ReadFails(buffers.at, offset, offset + n, r))
              && (!r.Data? && n == 0 ==> EmptyReadFails(buffers.at, offset, r))
    {
      if offset >= size {
        return Data([], {});
      }
      var n := length;
      if offset + n > size {
        n := size - offset;
      }
      hide Inv, Shows, CellAt, LocksHeld, OneFlush, Positive, Starts, Holds, PartOf, Bytes, Flat;
      r := buffers.GetData(offset, n, false);
      if r.Data? && n > 0 {
        HeldIsShown(State(), contents, offset, Flat(r.chunks));
      }
    }

    // ----- Loading -----

    /** A response arrives. It leaves the file as it is exactly if it agrees with the object where it has to. */
    method AddChunk(offset: nat, data: seq<byte>, cap: nat) returns (delta: int)
      requires Valid() && 0 < |data| <= cap
      modifies `contents, buffers, buffers.q
      ensures contents == old(contents) && buffers.Valid()
      ensures Added(old(buffers.at), buffers.at, old(buffers.curDirtyID), offset, data, Clean)
      ensures Valid() <==> old(Agrees(State(), offset, data))
      ensures delta == buffers.Memory() - old(buffers.Memory()) <==>
              WritableCount(old(buffers.at), Clean, offset, offset + |data|) in {0, |data|}
    {
      hide Inv, Shows, CellAt, Added, LocksHeld, OneFlush, Positive, Starts, BufferList.Valid, PartOf, Bytes, Agrees,
           SameBytes;
      ghost var f := State();
      delta := buffers.Add(offset, data, cap, Clean, false);
      buffers.ValidList();
      FillExactly(f, State(), offset, data);
      if Agrees(f, offset, data) {
        Advance(f, Fill(offset, data));
      } else {
        ShownTwice(f, State(), contents);
      }
    }

    method RemoveLoading(offset: nat, length: nat)
      requires Valid() && length > 0
      modifies `contents, buffers, buffers.q
      ensures Valid() && contents == old(contents)
      ensures forall x: int {:trigger CellAt(buffers.at, x)} ::
                var c := CellAt(old(buffers.at), x);
                if offset <= x < offset + length && c.Some? && c.value.kind.loading && !c.value.kind.onDisk
                then CellAt(buffers.at, x).None?
                else Kept(c, CellAt(buffers.at, x), old(buffers.curDirtyID))
    {
      hide Inv, Shows, CellAt, Erased, LocksHeld, OneFlush, Positive, Starts, BufferList.Valid, PartOf, Bytes;
      ghost var f := State();
      var _ := buffers.RemoveRange(offset, length, LoadingFromServer);
      buffers.ValidList();
      Unloaded(f.m, buffers.at, f.cur, offset, length);
      Advance(f, DropLoading(offset, length));
    }

    /** A buffer leaves memory unless its range is locked. */
    method Evict(k: int) returns (evicted: bool)
      requires Valid() && k in buffers.at && buffers.at[k].data.Mem? && buffers.at[k].Queued()
      modifies `contents, buffers, buffers.q
      ensures Valid() && contents == old(contents)
      ensures var b := old(buffers.at)[k];
              evicted <==> forall r :: r in readRanges ==> !r.Hits(b.offset, b.End(), false)
      ensures forall x: int {:trigger CellAt(buffers.at, x)} ::
                if evicted then EvictedAt(old(buffers.at), buffers.at, k, false, x)
                else CellAt(buffers.at, x) == CellAt(old(buffers.at), x)
      ensures ResidentKeys(buffers.at) == ResidentKeys(old(buffers.at)) - if evicted then {k} else {}
    {
      hide Inv, Shows, CellAt, EvictedAt, OneFlush, Positive, Starts, BufferList.Valid, PartOf, Bytes, LocksHeld;
      var b := buffers.at[k];
      var locked := IsRangeLocked(b.offset, b.length, false);
      if locked {
        return false;
      }
      ghost var f := State();
      buffers.ValidList();
      Unlocked(f, readRanges, pending, b.offset, b.End());
      var _, _ := buffers.EvictFromMemory(k, false);
      buffers.ValidList();
      Advance(f, WriteBackRuns.Evict(k));
      evicted := true;
    }

    /**
     The first section of LoadRange: marks what is missing as loading and asks for it. After it
     every byte of the range that the server has is in memory or on its way. `holes` is what
     is missing of the range, or of the readahead if that is longer; `plan` are the requests.
     */
    method StartLoad(offset: nat, length: nat, readAhead: nat, readMerge: nat, maxPart: nat)
      returns (r: LoadStart, plan: seq<Range>, holes: seq<Range>)
      requires Valid() && maxPart > 0
      modifies `contents, buffers, buffers.q
      ensures Valid() && contents == old(contents)
      ensures var want := if length < readAhead then readAhead else length;
              var end := if offset + want < size then offset + want else if offset < size then size else offset;
              && Separated(holes) && ListsHoles(old(buffers.at), offset, end, holes)
              && (offset < end ==>
                    (r.Flushed? <==> exists x: int :: offset <= x < end && IsCleared(CellAt(old(buffers.at), x))))
      ensures offset >= size ==> r.Started?
      ensures r.Started? ==> r.miss == (holes != []) && LoadingIn(old(buffers.at), buffers.at, plan)
      ensures r.Started? && !r.miss ==> plan == []
      ensures r.Started? && r.miss ==> AsksFor(holes, Some(plan), readAhead, readMerge, maxPart, knownSize)
      ensures r.OutOfRange? ==> holes != [] && AsksFor(holes, None, readAhead, readMerge, maxPart, knownSize)
      ensures !r.Started? ==> plan == [] && buffers.at == old(buffers.at)
      ensures r.Started? ==> forall x: int :: offset <= x < offset + length && x < size && x < knownSize ==>
                CellAt(buffers.at, x).Some?
      ensures r.Flushed? ==> exists x: int :: offset <= x < size && IsCleared(CellAt(old(buffers.at), x))
      ensures r.OutOfRange? ==> exists x: int :: knownSize < x < size && CellAt(old(buffers.at), x).None?
    {
      hide Sound, Booked, CellAt, Planned, ListsHoles, Separated, Ordered, Short, InRanges, LoadingIn, AsksFor;
      plan, holes := [], [];
      LoadingStart(buffers.at);
      if offset >= size {
        NoHoles(buffers.at, offset);
        return Started(false), plan, holes;
      }
      ShapeOk();
      var end, flushCleared;
      holes, flushCleared, end := FindHoles(offset, length, readAhead);
      if flushCleared {
        return Flushed, plan, holes;
      }
      ghost var m := buffers.at;
      if |holes| > 0 {
        var p := Plan(holes, readAhead, readMerge, maxPart, knownSize);
        if p.None? {
          HoleInside(m, offset, end, holes, knownSize);
          return OutOfRange, plan, holes;
        }
        plan := p.value;
      } else {
        NothingPlanned(holes, knownSize);
      }
      MarkPlan(plan);
      PlanCovers(m, buffers.at, offset, end, holes, plan, knownSize);
      r := Started(|holes| > 0);
    }

    /** What is missing of the range, or of the readahead if that is longer, and whether some of it left memory. */
    method FindHoles(offset: nat, length: nat, readAhead: nat) returns (holes: seq<Range>, flushCleared: bool, end: nat)
      requires Shape(buffers.at) && offset < size
      ensures var want := if length < readAhead then readAhead else length;
              end == if offset + want < size then offset + want else size
      ensures Separated(holes) && ListsHoles(buffers.at, offset, end, holes)
      ensures offset < end ==>
                (flushCleared <==> exists x: int :: offset <= x < end && IsCleared(CellAt(buffers.at, x)))
      ensures flushCleared ==> exists x: int :: offset <= x < size && IsCleared(CellAt(buffers.at, x))
    {
      hide CellAt, ListsHoles, Separated;
      var length' := if offset + length >= size then size - offset else length;
      var raSize := if length' < readAhead then readAhead else length';
      if offset + raSize > size {
        raSize := size - offset;
      }
      var loading;
      holes, loading, flushCleared := buffers.GetHoles(offset, raSize);
      if flushCleared { ClearedInside(buffers.at, offset, offset + raSize); }
      end := offset + raSize;
    }

    method MarkPlan(plan: seq<Range>)
      requires Valid()
      modifies `contents, buffers, buffers.q
      ensures Valid() && contents == old(contents)
      ensures LoadingIn(old(buffers.at), buffers.at, plan)
    {
      hide Sound, Booked, CellAt, InRanges, LoadingIn;
      ghost var m := buffers.at;
      LoadingStart(m);
      for i := 0 to |plan|
        invariant Valid() && contents == old(contents)
        invariant LoadingIn(m, buffers.at, plan[..i])
      {
        MarkRange(plan[i], m, plan[..i]);
        assert plan[..i + 1] == plan[..i] + [plan[i]];
      }
      assert plan[..|plan|] == plan;
    }

    method MarkRange(r: Range, ghost m: Buffers, ghost before: seq<Range>)
      requires Valid() && LoadingIn(m, buffers.at, before)
      modifies `contents, buffers, buffers.q
      ensures Valid() && contents == old(contents)
      ensures LoadingIn(m, buffers.at, before + [r])
    {
      hide Inv, Shows, CellAt, Marked, LocksHeld, OneFlush, Positive, Starts, BufferList.Valid, PartOf, Bytes,
           LoadingIn;
      ghost var f := State();
      var length: nat := if r.start <= r.end then r.end - r.start else 0;
      buffers.AddLoading(r.start, length);
      buffers.ValidList();
      LoadingStep(m, f.m, buffers.at, before, r, length);
      Advance(f, MarkLoading(r.start, length));
    }

    /** A reader over the range, cut out of the list, and the dirty ids of its bytes. */
    method GetMultiReader(offset: nat, length: nat) returns (reader: MultiReader?, ids: set<nat>)
      requires buffers.Valid() && (length == 0 ==> offset == 0)
      modifies buffers, buffers.q
      ensures buffers.Valid() && old(buffers.curDirtyID) <= buffers.curDirtyID
      ensures AllKept(old(buffers.at), buffers.at, old(buffers.curDirtyID))
      ensures length > 0 ==>
                (reader == null <==> exists x: int :: offset <= x < offset + length && !Readable(old(buffers.at), x))
      ensures length == 0 ==>
                (reader == null <==> old(buffers.at) != map[] && CellAt(old(buffers.at), 0).None?)
      ensures reader != null ==>
                && fresh(reader) && reader.Valid() && reader.pos == 0
                && Collects(old(buffers.at), buffers.at, old(buffers.curDirtyID), buffers.curDirtyID,
                            offset, offset + length, Snapshot(reader.Flat(), ids))
    {
      hide CellAt, AllKept, Holds, CollectsIds, BufferList.Valid, Flat, Readable, Stream, ReadFails, EmptyReadFails;
      buffers.ValidList();
      ghost var m, cur := buffers.at, buffers.curDirtyID;
      buffers.SplitAt(offset);
      ghost var m1, cur1 := buffers.at, buffers.curDirtyID;
      buffers.SplitAt(offset + length);
      AllKeptTwice(m, m1, buffers.at, cur, cur1);
      buffers.ValidList();
      var r := buffers.GetData(offset, length, true);
      if !r.Data? {
        if length > 0 { StillUnreadable(m, buffers.at, cur, offset, length, r); }
        if length == 0 { NoneAtAll(m, buffers.at, cur, r); }
        return null, {};
      }
      if length == 0 { NoIds(buffers.at, offset, r.ids); }
      if length > 0 { WasReadable(m, buffers.at, cur, offset, Flat(r.chunks)); }
      if length == 0 { WasEmpty(m, buffers.at, cur); }
      var mr := ReaderOf(r.chunks);
      return mr, r.ids;
    }

    /** The first section of flushSmallObject; the result is the size to send. */
    method FlushSmallStart() returns (sz: Option<nat>)
      requires Valid() && starting.StartingSmall?
      modifies `starting, `isFlushing, `readRanges, `upload, `contents
      ensures Valid() && contents == old(contents) && starting.Nothing?
      ensures sz == if cacheState.Cached? then None else Some(size)
      ensures upload == if sz.Some? then Small(size, None, false) else old(upload)
      ensures readRanges == old(readRanges) + if sz.Some? then [ReadRange(0, size, true)] else []
    {
      hide Inv, Shows, CellAt, Positive, Starts, BufferList.Valid, PartOf, Bytes;
      ghost var f := State();
      starting := Nothing;
      if cacheState.Cached? {
        isFlushing := isFlushing - maxParallelParts;
        return None;
      }
      LockRange(0, size, true);
      upload := Small(size, None, false);
      Advance(f, SmallLock);
      sz := Some(size);
    }

    /** The section that collects the bytes to send; if some are not in memory, the flush ends. */
    method FlushSmallShot(sz: nat) returns (reader: MultiReader?, ids: set<nat>)
      requires Valid() && upload == Small(sz, None, false)
      modifies `isFlushing, `readRanges, `upload, `contents, buffers, buffers.q
      ensures Valid() && contents == old(contents)
      ensures AllKept(old(buffers.at), buffers.at, old(buffers.curDirtyID))
      ensures reader == null ==> upload.Idle? && readRanges == Removed(old(readRanges), ReadRange(0, sz, true))
      ensures sz > 0 ==> (reader == null <==> exists x: int :: 0 <= x < sz && !Readable(old(buffers.at), x))
      ensures sz == 0 ==> (reader == null <==> old(buffers.at) != map[] && CellAt(old(buffers.at), 0).None?)
      ensures reader != null ==> readRanges == old(readRanges)
      ensures reader != null ==>
                && fresh(reader) && reader.Valid() && reader.pos == 0
                && upload == Small(sz, Some(Snapshot(reader.Flat(), ids)), false)
                && IsSlice(contents, 0, sz, reader.Flat())
    {
      hide Inv, Shows, CellAt, Positive, Starts, BufferList.Valid, PartOf, Bytes, AllKept, Collects, LocksHeld,
           OneFlush, Stream;
      ghost var f := State();
      reader, ids := GetMultiReader(0, sz);
      buffers.ValidList();
      if reader == null {
        Advance(f, SplitBuffers);
        FlushSmallEnd(sz);
        return;
      }
      upload := upload.(shot := Some(Snapshot(reader.Flat(), ids)));
      SmallStays(readRanges, pending, f.upload, upload, maxParallelParts, mpu, starting, isFlushing, Starts(sizes),
                 size);
      Advance(f, SmallShot(upload.shot.value));
      SmallInside(State());
      CollectedIsShown(State(), contents, f.m, f.cur, 0, sz, upload.shot.value);
    }

    /** The flush stops without touching the buffers. */
    method FlushSmallEnd(sz: nat)
      requires Valid() && upload.Small? && upload.sz == sz
      modifies `isFlushing, `readRanges, `upload, `contents
      ensures Valid() && contents == old(contents) && upload.Idle?
      ensures readRanges == Removed(old(readRanges), ReadRange(0, sz, true))
    {
      hide Inv, Shows, CellAt, Positive, Starts, BufferList.Valid, PartOf, Bytes;
      ghost var f := State();
      SmallEnds(readRanges, pending, upload, maxParallelParts, mpu, starting, isFlushing, Starts(sizes), size);
      DropSmall(sz);
      Advance(f, SmallFail);
    }

    /** The server applies the request. */
    ghost method PutLands()
      requires Valid() && upload.Small? && upload.shot.Some?
      modifies `server, `upload, `contents
      ensures Valid() && contents == old(contents)
      ensures upload == old(upload).(landed := true) && server == upload.shot.value.body
    {
      hide Inv, Shows, CellAt, Positive, Starts, BufferList.Valid, PartOf, Bytes;
      var f := State();
      server, upload := upload.shot.value.body, upload.(landed := true);
      Advance(f, SmallLand);
    }

    /** The reply. What was written since the snapshot stays dirty; a file left clean is on the server. */
    method FlushSmallReply(sz: nat, ids: set<nat>, ok: bool)
      requires Valid() && upload.Small? && upload.sz == sz && upload.shot.Some? && upload.shot.value.ids == ids
      requires ok ==> upload.landed
      modifies `isFlushing, `readRanges, `upload, `contents, `knownSize, `cacheState, buffers, buffers.q
      ensures Valid() && contents == old(contents) && upload.Idle?
      ensures readRanges == Removed(old(readRanges), ReadRange(0, sz, true))
      ensures knownSize == if ok then sz else old(knownSize)
      ensures forall x: int {:trigger CellAt(buffers.at, x)} ::
                CellAt(buffers.at, x) == var c := CellAt(old(buffers.at), x);
                  if ok && c.Some? && c.value.id in ids
                  then Some(Cell(c.value.kind.(state := Clean), 0, c.value.content)) else c
      ensures cacheState.Cached? <==>
              ok && size == sz && forall x: int {:trigger CellAt(old(buffers.at), x)} ::
                IsDirty(CellAt(old(buffers.at), x)) ==> CellAt(old(buffers.at), x).value.id in ids
      ensures cacheState.Cached? ==> server == contents
    {
      if ok {
        FlushSmallDone(sz, ids);
      } else {
        FlushSmallEnd(sz);
      }
      if cacheState.Cached? { CachedIsStored(State(), contents); }
    }

    method FlushSmallDone(sz: nat, ids: set<nat>)
      requires Valid() && upload.Small? && upload.sz == sz && upload.landed
      requires upload.shot.Some? && upload.shot.value.ids == ids
      modifies `isFlushing, `readRanges, `upload, `contents, `knownSize, `cacheState, buffers, buffers.q
      ensures Valid() && contents == old(contents) && upload.Idle? && knownSize == sz
      ensures readRanges == Removed(old(readRanges), ReadRange(0, sz, true))
      ensures Sent(old(buffers.at), buffers.at, ids, Clean)
      ensures cacheState.Cached? <==>
              size == sz && forall x: int {:trigger CellAt(old(buffers.at), x)} ::
                IsDirty(CellAt(old(buffers.at), x)) ==> CellAt(old(buffers.at), x).value.id in ids
    {
      hide Inv, Shows, CellAt, Positive, Starts, BufferList.Valid, PartOf, Bytes, LocksHeld, OneFlush, Recached,
           ListOk, StateSet, Sent;
      ghost var f := State();
      SmallEnds(readRanges, pending, upload, maxParallelParts, mpu, starting, isFlushing, Starts(sizes), size);
      ghost var cursor := SmallSettle(sz, ids);
      SmallIsSent(f, buffers.at, cursor);
      ghost var f1 := State();
      DropSmall(sz);
      RecachedSame(f, f1, State());
      ListShape(buffers.at, buffers.curDirtyID);
      SmallDoneCached(f, State());
      Advance(f, SmallDone);
    }

    /** What was sent becomes clean, the known size is the one sent. */
    method SmallSettle(sz: nat, ids: set<nat>) returns (ghost cursor: int)
      requires buffers.Valid()
      modifies `knownSize, `cacheState, buffers, buffers.q
      ensures buffers.Valid() && buffers.curDirtyID == old(buffers.curDirtyID)
      ensures StateSet(old(buffers.at), buffers.at, 0, sz, ids, Clean, cursor) && ListOk(buffers.at, buffers.curDirtyID)
      ensures knownSize == sz && Recached(old(State()), State())
    {
      hide CellAt, BufferList.Valid, StillDirty, Restated;
      cursor := buffers.SetState(0, sz, ids, Clean);
      knownSize := sz;
      ghost var f1 := State();
      Recache();
      StillDirtySame(f1, State());
      buffers.ValidList();
    }

    method DropSmall(sz: nat)
      requires upload.Small? && isFlushing >= maxParallelParts
      modifies `readRanges, `isFlushing, `upload
      ensures upload == Idle && isFlushing == old(isFlushing) - maxParallelParts
      ensures readRanges == Removed(old(readRanges), ReadRange(0, sz, true))
    {
      UnlockRange(0, sz, true);
      isFlushing := isFlushing - maxParallelParts;
      upload := Idle;
    }

    /** After a flush the file is cached if nothing is left to send. */
    method Recache()
      requires buffers.Valid()
      modifies `cacheState
      ensures cacheState ==
              if old(cacheState).Cached? || !old(StillDirty(State())) then Cached else Modified
    {
      if !cacheState.Cached? {
        var dirty := IsStillDirty();
        cacheState := if dirty then Modified else Cached;
      }
    }

    // ----- Flushing in parts -----

    /** The reply to the request that opens a multipart upload. */
    method BeginReply(ok: bool)
      requires Valid() && starting.StartingMulti?
      modifies `starting, `isFlushing, `mpu, `mpuParts, `upload, `contents
      ensures Valid() && contents == old(contents) && starting.Nothing?
      ensures upload == if ok then Multi(map[], map[], map[], Open) else old(upload)
    {
      hide Sound, Starts;
      isFlushing := isFlushing - maxParallelParts;
      if ok {
        OpenUpload();
        assert FlushedParts(upload, pending) == {};
      }
      starting := Nothing;
    }

    method OpenUpload()
      requires Sound() && upload.Idle? && !cacheState.Cached?
      modifies `mpu, `mpuParts, `upload, `contents
      ensures Sound() && contents == old(contents) && mpu && upload == Multi(map[], map[], map[], Open)
    {
      hide Inv, Shows, CellAt, Positive, Starts, BufferList.Valid, PartOf, Bytes;
      ghost var f := State();
      mpu, mpuParts := true, map[];
      upload := Multi(map[], map[], map[], Open);
      Advance(f, Begin);
    }

    /** Locks a part and starts its flush. */
    method GoFlushPart(part: nat)
      requires Valid() && upload.Multi? && upload.completion.Open? && part !in FlushedParts(upload, pending)
      requires part < Parts(sizes) && StartOf(sizes, part) < size
      modifies `readRanges, `isFlushing, `pending
      ensures Valid() && pending == old(pending) + {part} && isFlushing == old(isFlushing) + 1
      ensures Positive(sizes) && readRanges ==
                old(readRanges) + [ReadRange(StartOf(sizes, part), LengthOf(sizes, part), true)]
    {
      hide Sound, LocksHeld, OneFlush, Parts, StartOf, Starts, Boundaries, Positive;
      PositiveSizes();
      PartBounds(sizes, part);
      var range := PartRange(sizes, part);
      var offset, length := range.value.0, range.value.1;
      LockRange(offset, length, true);
      isFlushing := isFlushing + 1;
      pending := pending + {part};
      PartStarts(Starts(sizes), old(readRanges), readRanges, upload, old(pending), size, part,
                 maxParallelParts, mpu, starting, old(isFlushing));
    }

    /**
     The first section of flushPart: the length of the part is fixed before what is missing of it
     gets loaded. The file may grow while that takes place.
     */
    method FlushPartStart(part: nat) returns (partSize: nat)
      requires Valid() && part in pending
      modifies `upload, `contents
      ensures Valid() && contents == old(contents)
      ensures upload.Multi? && upload == WithTaken(old(upload), part, StartOf(sizes, part) + partSize)
      ensures StartOf(sizes, part) < size
      ensures StartOf(sizes, part) + partSize ==
              if size < StartOf(sizes, part + 1) then size else StartOf(sizes, part + 1)
    {
      hide Sound, LocksHeld, OneFlush, Parts, StartOf, Starts, Boundaries, Positive, LengthOf, WithTaken, FlushedParts;
      PositiveSizes();
      PartBounds(sizes, part);
      PendingPart(Starts(sizes), readRanges, upload, pending, size, part, maxParallelParts, mpu, starting, isFlushing);
      var range := PartRange(sizes, part);
      var partOffset := range.value.0;
      partSize := range.value.1;
      if size < partOffset + partSize {
        partSize := size - partOffset;
      }
      PartTaken(Starts(sizes), readRanges, upload, pending, size, part, partOffset + partSize,
                maxParallelParts, mpu, starting, isFlushing);
      TakePart(part, partOffset + partSize);
    }

    ghost method TakePart(part: nat, end: nat)
      requires Sound() && upload.Multi? && upload.completion.Open? && part !in upload.flights
      requires part < |Starts(sizes)| - 1 && Starts(sizes)[part] < size && end == PartEnd(Starts(sizes), part, size)
      modifies `upload, `contents
      ensures Sound() && contents == old(contents) && upload.Multi? && upload == WithTaken(old(upload), part, end)
    {
      hide Inv, Shows, CellAt, BufferList.Valid, PartOf, Bytes, Starts, PartEnd;
      var f := State();
      upload := upload.(taken := upload.taken[part := end]);
      Advance(f, PartTake(part));
    }

    /**
     The section of flushPart that collects the part, up to the length fixed before, however far
     the file has grown since. If some of it is not in memory, the flush ends.
     */
    method FlushPartShot(part: nat, partSize: nat) returns (reader: MultiReader?, ids: set<nat>)
      requires Valid() && part in pending && upload.Multi? && part in upload.taken
      requires upload.taken[part] == StartOf(sizes, part) + partSize
      modifies `isFlushing, `readRanges, `pending, `upload, `contents, buffers, buffers.q
      ensures Valid() && contents == old(contents) && pending == old(pending) - {part}
      ensures reader == null ==> upload == WithoutPart(old(upload), part)
      ensures var lo := StartOf(sizes, part);
              reader == null <==> exists x: int :: lo <= x < lo + partSize && !Readable(old(buffers.at), x)
      ensures part < Parts(sizes) && AllKept(old(buffers.at), buffers.at, old(buffers.curDirtyID))
      ensures readRanges == if reader != null then old(readRanges)
                            else Removed(old(readRanges), ReadRange(StartOf(sizes, part), LengthOf(sizes, part), true))
      ensures reader != null ==>
                && fresh(reader) && reader.Valid() && reader.pos == 0
                && upload == WithFlight(old(upload), part, Snapshot(reader.Flat(), ids))
                && IsSlice(contents, StartOf(sizes, part), partSize, reader.Flat())
    {
      hide Sound, LocksHeld, OneFlush, Parts, StartOf, Starts, Boundaries, Positive, Stream, MultiReader.Valid,
           LengthOf;
      PositiveSizes();
      PartBounds(sizes, part);
      PendingPart(Starts(sizes), readRanges, upload, pending, size, part, maxParallelParts, mpu, starting, isFlushing);
      var range := PartRange(sizes, part);
      var partOffset := range.value.0;
      ghost var before := upload;
      reader, ids := ShootPart(part, partOffset, partSize);
      if reader == null {
        FlushPartAbort(part);
        return;
      }
      PartSent(Starts(sizes), readRanges, before, pending, size, part, Snapshot(reader.Flat(), ids),
               maxParallelParts, mpu, starting, isFlushing);
      pending := pending - {part};
    }

    method ShootPart(part: nat, partOffset: nat, partSize: nat) returns (reader: MultiReader?, ids: set<nat>)
      requires Sound() && upload.Multi? && upload.completion.Open? && part in upload.taken
      requires part < |Starts(sizes)| - 1 && Starts(sizes)[part] == partOffset
      requires upload.taken[part] == partOffset + partSize
      modifies `upload, `contents, buffers, buffers.q
      ensures Sound() && contents == old(contents)
      ensures AllKept(old(buffers.at), buffers.at, old(buffers.curDirtyID))
      ensures reader == null ==> upload == old(upload)
      ensures reader == null <==>
              exists x: int :: partOffset <= x < partOffset + partSize && !Readable(old(buffers.at), x)
      ensures reader != null ==>
                && fresh(reader) && reader.Valid() && reader.pos == 0
                && upload == WithFlight(old(upload), part, Snapshot(reader.Flat(), ids))
                && IsSlice(contents, partOffset, partSize, reader.Flat())
    {
      hide Inv, Shows, CellAt, BufferList.Valid, PartOf, Bytes, Collects, Stream, AllKept, ListOk, Starts,
           MultiReader.Valid, IsSlice, WithFlight;
      ghost var f := State();
      TakenInside(f, part);
      reader, ids := GetMultiReader(partOffset, partSize);
      buffers.ValidList();
      ListIsOk(buffers.at, buffers.curDirtyID);
      if reader == null {
        Advance(f, SplitBuffers);
        return;
      }
      SendShot(f, part, partOffset, partSize, Snapshot(reader.Flat(), ids));
    }

    /** What was collected of a part goes on its way. */
    ghost method SendShot(f: File, part: nat, lo: nat, partSize: nat, shot: Snapshot)
      requires Inv(f) && Shows(f, contents) && State() == f.(m := buffers.at, cur := buffers.curDirtyID)
      requires upload.Multi? && upload.completion.Open? && upload.parts == mpuParts && part in upload.taken
      requires part < |Starts(sizes)| - 1 && Starts(sizes)[part] == lo && upload.taken[part] == lo + partSize
      requires Collects(f.m, buffers.at, f.cur, buffers.curDirtyID, lo, lo + partSize, shot)
      requires buffers.Valid() && Positive(sizes)
      requires forall x: nat :: x < Bytes(sizes) ==> buffers.part(x) == PartOf(Starts(sizes), x)
      modifies `upload, `contents
      ensures Sound() && contents == old(contents) && upload == WithFlight(old(upload), part, shot)
      ensures IsSlice(contents, lo, partSize, shot.body)
    {
      hide Inv, Shows, CellAt, BufferList.Valid, PartOf, Bytes, Collects, Starts, IsSlice;
      TakenInside(f, part);
      upload := upload.(taken := upload.taken - {part}, flights := upload.flights[part := shot]);
      Advance(f, PartShot(part, shot));
      CollectedIsShown(State(), contents, f.m, f.cur, lo, lo + partSize, shot);
    }

    /** The flush of a part ends before anything was sent. */
    method FlushPartAbort(part: nat)
      requires Valid() && part in pending
      modifies `readRanges, `isFlushing, `pending, `upload, `contents
      ensures Valid() && contents == old(contents) && pending == old(pending) - {part}
      ensures upload == WithoutPart(old(upload), part)
      ensures part < Parts(sizes) && readRanges ==
              Removed(old(readRanges), ReadRange(StartOf(sizes, part), LengthOf(sizes, part), true))
    {
      hide Sound, LocksHeld, OneFlush, Parts, StartOf, Starts, Boundaries, Positive, LengthOf, FlushedParts;
      PositiveSizes();
      PartBounds(sizes, part);
      PendingPart(Starts(sizes), readRanges, upload, pending, size, part, maxParallelParts, mpu, starting, isFlushing);
      ghost var locks, count, before := readRanges, isFlushing, upload;
      DropTaken(part);
      DropPart(part);
      PartEnds(Starts(sizes), locks, readRanges, before, upload, pending, pending - {part}, size, part,
               maxParallelParts, mpu, starting, count);
      pending := pending - {part};
    }

    ghost method DropTaken(part: nat)
      requires Sound() && upload.Multi? && part !in upload.flights
      modifies `upload, `contents
      ensures Sound() && contents == old(contents)
      ensures upload.Multi? && upload == WithoutPart(old(upload), part)
    {
      hide Inv, Shows, CellAt, BufferList.Valid, PartOf, Bytes, Starts;
      var f := State();
      assert upload.flights - {part} == upload.flights;
      upload := upload.(taken := upload.taken - {part});
      Advance(f, PartDrop(part));
    }

    lemma SizeShown()
      requires Sound()
      ensures |contents| == size
    {
    }

    lemma PositiveSizes()
      requires Sound()
      ensures Positive(sizes)
    {
    }

    method DropPart(part: nat)
      requires Positive(sizes) && part < Parts(sizes) && isFlushing > 0
      modifies `readRanges, `isFlushing
      ensures isFlushing == old(isFlushing) - 1
      ensures readRanges == Removed(old(readRanges), ReadRange(StartOf(sizes, part), LengthOf(sizes, part), true))
    {
      var range := PartRange(sizes, part);
      UnlockRange(range.value.0, range.value.1, true);
      isFlushing := isFlushing - 1;
    }

    /** The reply to an uploaded part. What was written since the snapshot stays dirty. */
    method FlushPartReply(part: nat, partSize: nat, ids: set<nat>, ok: bool, stored: seq<byte>)
      requires Valid() && upload.Multi? && part in upload.flights
      requires upload.flights[part].ids == ids && upload.flights[part].body == stored && |stored| == partSize
      modifies `isFlushing, `readRanges, `mpuParts, `upload, `contents, buffers, buffers.q
      ensures Valid() && contents == old(contents)
      ensures part < Parts(sizes) && readRanges ==
              Removed(old(readRanges), ReadRange(StartOf(sizes, part), LengthOf(sizes, part), true))
      ensures forall x: int {:trigger CellAt(buffers.at, x)} ::
                CellAt(buffers.at, x) == var c := CellAt(old(buffers.at), x);
                  if ok && c.Some? && c.value.id in ids
                  then Some(Cell(c.value.kind.(state := if partSize == LengthOf(sizes, part) && part > 0
                                                        then FlushedFull else FlushedCut), 0, c.value.content))
                  else c
      ensures upload == old(upload).(flights := old(upload).flights - {part},
                parts := if ok then old(upload).parts[part := stored] else old(upload).parts)
    {
      hide Sound, LocksHeld, OneFlush, Parts, StartOf, Starts, Boundaries, Positive, LengthOf, FlushedParts;
      PositiveSizes();
      PartBounds(sizes, part);
      ghost var locks, count, before := readRanges, isFlushing, upload;
      FlyingPart(Starts(sizes), readRanges, upload, pending, size, part, maxParallelParts, mpu, starting, isFlushing);
      NotTaken(maxParallelParts, mpu, starting, upload, pending, isFlushing, part);
      if ok {
        StorePart(part, partSize, ids, stored);
      } else {
        FailPart(part);
      }
      DropPart(part);
      assert pending == pending - {part} && upload.taken == upload.taken - {part};
      PartEnds(Starts(sizes), locks, readRanges, before, upload, pending, pending, size, part,
               maxParallelParts, mpu, starting, count);
    }

    ghost method FailPart(part: nat)
      requires Sound() && upload.Multi? && part in upload.flights
      modifies `upload, `contents
      ensures Sound() && contents == old(contents) && upload == old(upload).(flights := old(upload).flights - {part})
    {
      hide Inv, Shows, CellAt, BufferList.Valid, PartOf, Bytes, Starts;
      var f := State();
      upload := upload.(flights := upload.flights - {part});
      Advance(f, PartFail(part));
    }

    method StorePart(part: nat, partSize: nat, ids: set<nat>, stored: seq<byte>)
      requires Sound() && upload.Multi? && part in upload.flights && part < Parts(sizes)
      requires upload.flights[part].ids == ids && upload.flights[part].body == stored && |stored| == partSize
      modifies `upload, `mpuParts, `contents, buffers, buffers.q
      ensures Sound() && contents == old(contents)
      ensures Sent(old(buffers.at), buffers.at, ids,
                   if partSize == LengthOf(sizes, part) && part > 0 then FlushedFull else FlushedCut)
      ensures upload ==
              old(upload).(flights := old(upload).flights - {part}, parts := old(upload).parts[part := stored])
    {
      hide Inv, Shows, CellAt, BufferList.Valid, PartOf, Bytes, ListOk, Parts, StartOf, Starts, Boundaries, Positive,
           LengthOf, Restated, StateSet, Sent, FlushedState;
      PartBounds(sizes, part);
      ghost var f := State();
      var range := PartRange(sizes, part);
      var partOffset, partFullSize := range.value.0, range.value.1;
      var doneState := if partSize < partFullSize || part == 0 then FlushedCut else FlushedFull;
      FlightSize(f, part);
      ghost var cursor := buffers.SetState(partOffset, partSize, ids, doneState);
      StateIsSet(f.m, buffers.at, partOffset, partSize, ids, doneState, cursor);
      DoneState(f.starts, part, stored, doneState);
      PartIsSent(f, buffers.at, part, cursor);
      buffers.ValidList();
      ListIsOk(buffers.at, buffers.curDirtyID);
      mpuParts := mpuParts[part := stored];
      PartStored(f, part, cursor);
    }

    /** The list was restated, and the part is stored. */
    ghost method PartStored(f: File, part: nat, cursor: int)
      requires Inv(f) && Shows(f, contents) && f.upload.Multi? && part in f.upload.flights && part < |f.starts| - 1
      requires State() == f.(m := buffers.at) && mpuParts == f.upload.parts[part := f.upload.flights[part].body]
      requires var s := f.upload.flights[part];
               StateSet(f.m, buffers.at, f.starts[part], f.starts[part] + |s.body|, s.ids,
                        FlushedState(f.starts, part, s.body), cursor)
      requires ListOk(buffers.at, buffers.curDirtyID) && buffers.Valid() && Positive(sizes)
      requires forall x: nat :: x < Bytes(sizes) ==> buffers.part(x) == PartOf(Starts(sizes), x)
      modifies `upload, `contents
      ensures Sound() && contents == old(contents)
      ensures upload == f.upload.(flights := f.upload.flights - {part}, parts := mpuParts)
    {
      hide Inv, Shows, CellAt, BufferList.Valid, PartOf, Bytes, ListOk, Starts, StateSet, FlushedState;
      upload := upload.(parts := mpuParts, flights := upload.flights - {part});
      PartRestated(f, State(), part, f.upload.flights[part], cursor);
      Advance(f, PartDone(part));
    }

    // ----- Choosing what to flush -----

    /** What the scan of sendUploadParts makes of each part, as things are. */
    ghost function Verdicts(lastPart: nat, flushInode: bool, wantFree: bool): int -> Visit
      reads `readRanges, buffers`at
    {
      var m, starts, locks := buffers.at, Starts(sizes), readRanges;
      (p: int) => Verdict(m, starts, locks, p, lastPart, flushInode, wantFree)
    }

    /** One dirty part of the scan in sendUploadParts. */
    method VisitPart(part: nat, lastPart: nat, flushInode: bool, wantFree: bool) returns (v: Visit)
      requires Valid() && upload.Multi? && upload.completion.Open? && part < Parts(sizes) && StartOf(sizes, part) < size
      ensures v == Verdict(buffers.at, Starts(sizes), readRanges, part, lastPart, flushInode, wantFree)
      ensures Visited(buffers.at, readRanges, StartOf(sizes, part), StartOf(sizes, part + 1),
                      part == lastPart && !flushInode && !wantFree, flushInode, wantFree, v)
      ensures part != lastPart && FullyDirty(buffers.at, readRanges, StartOf(sizes, part), StartOf(sizes, part + 1)) ==>
                v.Ready?
      ensures v.Ready? || v.PartlyZero? ==> part !in FlushedParts(upload, pending)
    {
      hide Sound, LocksHeld, OneFlush, Parts, StartOf, Starts, Boundaries, Positive, LengthOf, FlushedParts, Verdict,
           Has, CellAt;
      PositiveSizes();
      PartBounds(sizes, part);
      ShapeOk();
      var range := PartRange(sizes, part);
      var partOffset, partEnd := range.value.0, range.value.0 + range.value.1;
      var locked := IsRangeLocked(partOffset, range.value.1, true);
      if locked || (part == lastPart && !flushInode && !wantFree) {
        VerdictHeld(buffers.at, Starts(sizes), readRanges, part, lastPart, flushInode, wantFree);
        return Busy;
      }
      NotFlushed(Starts(sizes), readRanges, upload, pending, size, part);
      VerdictOf(buffers.at, Starts(sizes), readRanges, part, lastPart, flushInode, wantFree);
      var dirty, evicted, zero, nonZero := buffers.PartStatus(partOffset, partEnd);
      if !dirty || evicted {
        return Skipped(evicted);
      } else if zero && !flushInode {
        return if wantFree && nonZero then PartlyZero else Busy;
      }
      return Ready;
    }

    lemma ShapeOk()
      requires Sound()
      ensures Shape(buffers.at)
    {
    }

    ghost predicate Startable(part: int)
      reads `upload, `pending, `size
    {
      && 0 <= part < Parts(sizes) && StartOf(sizes, part) < size
      && part !in FlushedParts(upload, pending)
    }

    lemma IndexOk()
      requires Sound()
      ensures Inv(State())
      ensures DirtyIndex(State(), buffers.part, buffers.dirtyParts, buffers.dirtyQueue, buffers.dirtyQid)
    {
      StartsAreBoundaries(sizes);
    }

    lemma DirtyPartInside(i: int)
      requires Sound() && i in buffers.dirtyQueue
      ensures 0 <= buffers.dirtyQueue[i] < Parts(sizes) && StartOf(sizes, buffers.dirtyQueue[i]) < size
    {
      hide Inv, DirtyIndex, Positive, Bytes, PartOf, Shows, BufferList.Valid;
      IndexOk();
      QueuedPartInside(State(), buffers.part, buffers.dirtyParts, buffers.dirtyQueue, buffers.dirtyQid, i);
    }

    lemma NothingBefore()
      requires Sound()
      ensures forall i: int :: i in buffers.dirtyQueue ==> i >= 0
    {
      hide Inv, Positive, Bytes, PartOf, Shows, Starts, CountsDirty, CountsSharers;
    }

    lemma QueueOk()
      requires Sound()
      ensures QueueOfParts(buffers.dirtyParts, buffers.dirtyQueue, buffers.dirtyQid)
    {
      hide Inv, Positive, Bytes, PartOf, Shows, Starts, CountsDirty, CountsSharers, QueueOfParts;
    }

    /** If the scan found only parts to skip, nothing is left to send. */
    lemma NothingLeft(lastPart: nat, flushInode: bool, wantFree: bool, locks: seq<ReadRange>)
      requires Sound() && upload.Multi?
      requires forall i: int :: i in buffers.dirtyQueue ==>
                 var p := buffers.dirtyQueue[i];
                 Verdict(buffers.at, Starts(sizes), locks, p, lastPart, flushInode, wantFree).Skipped?
      ensures |Starts(sizes)| > 0 && NothingToSend(State())
    {
      hide Inv, DirtyIndex, Positive, Bytes, PartOf, Shows, BufferList.Valid, NothingToSend, Has, FlushLocked;
      IndexOk();
      AllPartsSkipped(State(), buffers.part, buffers.dirtyParts, buffers.dirtyQueue, buffers.dirtyQid);
    }

    /** The scan of sendUploadParts has passed the entries before `cursor`. */
    ghost predicate Scanning(cursor: int, v: int -> Visit, locks: seq<ReadRange>, was: set<int>, initiated: bool,
                             complete: bool, partly: Option<nat>, count: nat, priority: nat, lastPart: nat,
                             flushInode: bool, wantFree: bool)
      reads `readRanges, `pending, buffers`at, buffers`dirtyQueue
    {
      && count == |pending - was|
      && Scan(buffers.dirtyQueue, cursor, v, was, pending, initiated, complete, partly, priority)
      && LocksSame(buffers.dirtyQueue, cursor, Starts(sizes), locks, readRanges)
      && Judges(v, buffers.at, Starts(sizes), locks, lastPart, flushInode, wantFree)
    }

    lemma ScanBegins(priority: nat, lastPart: nat, flushInode: bool, wantFree: bool)
      requires Sound()
      ensures Scanning(0, Verdicts(lastPart, flushInode, wantFree), readRanges, pending, false, true, None, 0, priority,
                       lastPart, flushInode, wantFree)
    {
      hide Sound, Scan, LocksSame, Verdict, Starts;
      NothingBefore();
      ScanStart(buffers.dirtyQueue, 0, Verdicts(lastPart, flushInode, wantFree), pending, priority);
      LocksSameStart(buffers.dirtyQueue, 0, Starts(sizes), readRanges);
      assert pending - pending == {};
    }

    /** One turn of the scan. `v` is what it makes of each part, judged by the locks held before it. */
    method ScanTurn(i: int, lastPart: nat, flushInode: bool, wantFree: bool, priority: nat, partly: Option<nat>,
                    initiated: bool, complete: bool, ghost count: nat, ghost cursor: int, ghost v: int -> Visit,
                    ghost locks: seq<ReadRange>, ghost was: set<int>)
      returns (ready: bool, partly': Option<nat>, initiated': bool, complete': bool, ghost count': nat)
      requires Valid() && upload.Multi? && upload.completion.Open? && IsFirst(buffers.dirtyQueue, cursor, Some(i))
      requires Scanning(cursor, v, locks, was, initiated, complete, partly, count, priority, lastPart, flushInode,
                        wantFree)
      modifies `readRanges, `isFlushing, `pending
      ensures Valid()
      ensures Scanning(i + 1, v, locks, was, initiated', complete', partly', count', priority, lastPart, flushInode,
                       wantFree)
      ensures initiated' == (initiated || ready) && count' == count + if ready then 1 else 0
      ensures ready ==> isFlushing == old(isFlushing) + 1 && OneLonger(old(readRanges), readRanges)
      ensures !ready ==> pending == old(pending) && readRanges == old(readRanges) && isFlushing == old(isFlushing)
      ensures partly' == partly || (partly'.Some? && Startable(partly'.value) && pending == old(pending))
    {
      hide Sound, Booked, Judges, Parts, StartOf, Starts, Boundaries, Positive, FlushedParts, LengthOf, Scan, Verdict,
           LocksSame, QueueOfParts, Visited, FullyDirty;
      ghost var ranges, before := readRanges, pending;
      PositiveSizes();
      var part := buffers.dirtyQueue[i];
      DirtyPartInside(i);
      PartBounds(sizes, part);
      var visit := VisitPart(part, lastPart, flushInode, wantFree);
      LocksSameAt(buffers.dirtyQueue, cursor, i, Starts(sizes), locks, readRanges);
      JudgedAs(v, buffers.at, Starts(sizes), locks, lastPart, flushInode, wantFree, part);
      VerdictSame(buffers.at, Starts(sizes), locks, readRanges, part, lastPart, flushInode, wantFree);
      ready, initiated', complete' := visit.Ready?, initiated || visit.Ready?, complete && visit.Skipped?;
      partly' := partly;
      if ready {
        NotPending(upload, pending, part);
        GoFlushPart(part);
      } else if visit.PartlyZero? && priority >= 2 && partly.None? {
        partly' := Some(part);
      }
      QueueOk();
      LocksSameNext(buffers.dirtyQueue, cursor, i, Starts(sizes), locks, ranges, readRanges,
                    buffers.dirtyParts, buffers.dirtyQid);
      ScanNext(buffers.dirtyQueue, cursor, i, v, was, before, pending, initiated, complete, partly, partly', priority);
      if ready {
        ScanGrows(buffers.dirtyQueue, cursor, v, was, before, initiated, complete, partly, priority);
        OneMore(was, before, pending, part);
      }
      count' := |pending - was|;
    }

    /** The scan itself; `more` says that it came to the end of the queue. */
    method ScanParts(lastPart: nat, flushInode: bool, wantFree: bool, priority: nat, budget: nat)
      returns (initiated: bool, complete: bool, partlyZero: Option<nat>, more: bool, cursor: int, ghost count: nat)
      requires Valid() && upload.Multi? && upload.completion.Open?
      modifies `readRanges, `isFlushing, `pending
      ensures Valid() && (more ==> IsFirst(buffers.dirtyQueue, cursor, None))
      ensures Scanning(cursor, old(Verdicts(lastPart, flushInode, wantFree)), old(readRanges), old(pending),
                       initiated, complete, partlyZero, count, priority, lastPart, flushInode, wantFree)
      ensures !more ==> initiated && (isFlushing >= maxParallelParts || count >= budget)
      ensures count > 1 ==> isFlushing <= maxParallelParts && count <= budget
      ensures Longer(old(readRanges), readRanges, count) && isFlushing == old(isFlushing) + count
      ensures !initiated ==> pending == old(pending) && readRanges == old(readRanges) && isFlushing == old(isFlushing)
      ensures partlyZero.Some? && !initiated ==> Startable(partlyZero.value)
    {
      hide Sound, Booked, Scanning, Startable, Verdicts, Longer;
      LongerStart(readRanges);
      initiated, complete, partlyZero, more, cursor, count := false, true, None, true, 0, 0;
      ghost var v, locks, was := Verdicts(lastPart, flushInode, wantFree), readRanges, pending;
      var left := budget;
      var next := buffers.NextDirtyPart(cursor);
      ScanBegins(priority, lastPart, flushInode, wantFree);
      while next.Some? && more
        invariant Valid() && IsFirst(buffers.dirtyQueue, cursor, next)
        invariant Scanning(cursor, v, locks, was, initiated, complete, partlyZero, count, priority, lastPart,
                           flushInode, wantFree)
        invariant !more ==> initiated && (isFlushing >= maxParallelParts || count >= budget)
        invariant count + left >= budget && (more ==> count + left == budget)
        invariant more && count > 0 ==> left > 0 && isFlushing < maxParallelParts
        invariant count > 1 ==> isFlushing <= maxParallelParts && count <= budget
        invariant Longer(locks, readRanges, count) && isFlushing == old(isFlushing) + count
        invariant !initiated ==> pending == was && readRanges == locks && isFlushing == old(isFlushing)
        invariant partlyZero.Some? && !initiated ==> Startable(partlyZero.value)
        decreases more, KeysFrom(buffers.dirtyQueue, cursor)
      {
        var ready: bool;
        ghost var ranges, started := readRanges, count;
        ready, partlyZero, initiated, complete, count :=
          ScanTurn(next.value, lastPart, flushInode, wantFree, priority, partlyZero, initiated, complete,
                   count, cursor, v, locks, was);
        LongerStep(locks, ranges, readRanges, started, count);
        if ready {
          left := if left > 0 then left - 1 else 0;
          more := left > 0 && isFlushing < maxParallelParts;
        }
        KeysShrink(buffers.dirtyQueue, cursor, next.value);
        cursor := next.value + 1;
        next := buffers.NextDirtyPart(cursor);
      }
      more := next.None?;
    }

    /**
     Starts flushes of dirty parts. When none has to be sent before the upload can be completed,
     every part with unsent changes is one that cannot be sent: some of it left memory.
     */
    method SendUploadParts(lastPart: nat, flushInode: bool, wantFree: bool, priority: nat, budget: nat)
      returns (initiated: bool, shouldComplete: bool)
      requires Valid() && upload.Multi? && upload.completion.Open?
      modifies `readRanges, `isFlushing, `pending
      ensures Valid() && (shouldComplete ==> pending == old(pending) && |Starts(sizes)| > 0 && NothingToSend(State()))
      ensures !initiated ==> readRanges == old(readRanges) && isFlushing == old(isFlushing)
      ensures Longer(old(readRanges), readRanges, |pending - old(pending)|)
      ensures isFlushing == old(isFlushing) + |pending - old(pending)|
      ensures |pending - old(pending)| > 1 ==> isFlushing <= maxParallelParts && |pending - old(pending)| <= budget
      ensures Chosen(buffers.dirtyQueue, old(Verdicts(lastPart, flushInode, wantFree)), old(pending), pending,
                     initiated, shouldComplete, priority,
                     isFlushing >= maxParallelParts || |pending - old(pending)| >= budget)
    {
      hide Sound, LocksHeld, OneFlush, Parts, StartOf, Starts, Boundaries, Positive, FlushedParts, NothingToSend,
           Scan, Chosen, Verdict, Longer;
      ghost var v, locks, was := Verdicts(lastPart, flushInode, wantFree), readRanges, pending;
      var partlyZero: Option<nat>, more: bool, cursor: int;
      ghost var count: nat;
      initiated, shouldComplete, partlyZero, more, cursor, count :=
        ScanParts(lastPart, flushInode, wantFree, priority, budget);
      ghost var limited := isFlushing >= maxParallelParts || |pending - was| >= budget;
      if !more {
        ScanStops(buffers.dirtyQueue, cursor, v, was, pending, shouldComplete, partlyZero, priority);
        shouldComplete := false;
        return;
      }
      ScanEnds(buffers.dirtyQueue, cursor, v, was, pending, initiated, shouldComplete, partlyZero, priority, limited);
      if !initiated && partlyZero.Some? {
        ghost var ranges := readRanges;
        NotPending(upload, pending, partlyZero.value);
        GoFlushPart(partlyZero.value);
        LongerStep(locks, ranges, readRanges, 0, 1);
        OneMore(was, was, pending, partlyZero.value);
        assert was - was == {};
        initiated, shouldComplete := true, false;
        ChosenAnyway(buffers.dirtyQueue, v, was, pending, priority, limited);
        return;
      }
      if shouldComplete {
        AllSkippedIs(buffers.dirtyQueue, v, was, pending, initiated, priority, limited);
        NothingLeft(lastPart, flushInode, wantFree, locks);
      }
    }

    /**
     Starts the next flush of a file with unsaved changes, if one may start: the whole of a small
     file, a multipart upload, parts of one that is open, or its completion.
     */
    method SendUpload(lastPart: nat, flushInode: bool, wantFree: bool, priority: nat, budget: nat)
      returns (started: bool)
      requires Valid() && !cacheState.Cached?
      modifies `readRanges, `isFlushing, `pending, `starting, `upload, `contents
      ensures Valid() && contents == old(contents)
      ensures !started ==> && upload == old(upload) && starting == old(starting) && pending == old(pending)
                           && readRanges == old(readRanges) && isFlushing == old(isFlushing)
      ensures old(isFlushing) >= maxParallelParts ==> !started
      ensures old(isFlushing) < maxParallelParts && !mpu ==>
                && upload == old(upload) && pending == old(pending) && readRanges == old(readRanges)
                && started == (old(isFlushing) == 0 && (size <= singlePartSize ==> flushInode || wantFree))
                && (started ==> starting == if size <= singlePartSize then StartingSmall else StartingMulti)
      ensures old(isFlushing) < maxParallelParts && mpu ==>
                && starting == old(starting) && started == (pending != old(pending) || upload != old(upload))
                && PartsChosen(old(Verdicts(lastPart, flushInode, wantFree)), old(pending), priority, budget)
                && Longer(old(readRanges), readRanges, |pending - old(pending)|)
                && (|pending - old(pending)| > 1 ==>
                      isFlushing <= maxParallelParts && |pending - old(pending)| <= budget)
      ensures old(isFlushing) < maxParallelParts && mpu ==>
                if AllSkip(buffers.dirtyQueue, old(Verdicts(lastPart, flushInode, wantFree)))
                   && !FlushLocked(old(readRanges), 0, size) && (flushInode || wantFree)
                then DecidedNow(old(upload)) else upload == old(upload)
    {
      hide Sound, LocksHeld, OneFlush, Starts, NothingToSend, FlushedParts, Chosen, Verdicts, AllSkip, FlushLocked,
           Longer;
      if isFlushing >= maxParallelParts {
        return false;
      }
      BelowLimit(maxParallelParts, mpu, starting, upload, pending, isFlushing);
      var smallFile := size <= singlePartSize;
      if smallFile && !mpu {
        if isFlushing == 0 && (flushInode || wantFree) {
          isFlushing := isFlushing + maxParallelParts;
          starting := StartingSmall;
          return true;
        }
        return false;
      }
      if !mpu {
        if isFlushing > 0 {
          return false;
        }
        isFlushing := isFlushing + maxParallelParts;
        starting := StartingMulti;
        return true;
      }
      UploadOpen(maxParallelParts, mpu, starting, upload, pending, isFlushing);
      started := SendMore(lastPart, flushInode, wantFree, priority, budget);
    }

    ghost predicate PartsChosen(v: int -> Visit, was: set<int>, priority: nat, budget: nat)
      reads `pending, `isFlushing, buffers`dirtyQueue
    {
      Chosen(buffers.dirtyQueue, v, was, pending, pending != was, AllSkip(buffers.dirtyQueue, v), priority,
             isFlushing >= maxParallelParts || |pending - was| >= budget)
    }

    /** Completion is decided, and no part is being flushed. */
    ghost predicate DecidedNow(before: Upload)
      reads `upload, `size, `pending
    {
      before.Multi? && upload == before.(completion := Decided(size)) && FlushedParts(upload, pending) == {}
    }

    method SendMore(lastPart: nat, flushInode: bool, wantFree: bool, priority: nat, budget: nat) returns (started: bool)
      requires Valid() && upload.Multi? && upload.completion.Open?
      modifies `readRanges, `isFlushing, `pending, `upload, `contents
      ensures Valid() && contents == old(contents)
      ensures !started ==> readRanges == old(readRanges) && isFlushing == old(isFlushing)
      ensures started == (pending != old(pending) || upload != old(upload))
      ensures Longer(old(readRanges), readRanges, |pending - old(pending)|)
      ensures |pending - old(pending)| > 1 ==> isFlushing <= maxParallelParts && |pending - old(pending)| <= budget
      ensures PartsChosen(old(Verdicts(lastPart, flushInode, wantFree)), old(pending), priority, budget)
      ensures if AllSkip(buffers.dirtyQueue, old(Verdicts(lastPart, flushInode, wantFree)))
                 && !FlushLocked(old(readRanges), 0, size) && (flushInode || wantFree)
              then DecidedNow(old(upload)) else upload == old(upload)
    {
      hide Sound, LocksHeld, OneFlush, Starts, NothingToSend, FlushedParts, Chosen, Verdicts, AllSkip, FlushLocked,
           Longer;
      ghost var v, was := Verdicts(lastPart, flushInode, wantFree), pending;
      var initiated, canComplete := SendUploadParts(lastPart, flushInode, wantFree, priority, budget);
      ghost var limited := isFlushing >= maxParallelParts || |pending - was| >= budget;
      ChosenIs(buffers.dirtyQueue, v, was, pending, initiated, canComplete, priority, limited, limited);
      ChosenIs(buffers.dirtyQueue, v, was, pending, initiated, canComplete, priority, limited, true);
      if initiated {
        SomeNotSkipped(buffers.dirtyQueue, v, was, pending, canComplete, priority, limited);
        return true;
      }
      var locked := IsRangeLocked(0, size, true);
      LockedIs(readRanges, size);
      if canComplete && !locked && (flushInode || wantFree) {
        NothingFlushed(Starts(sizes), readRanges, upload, pending, size);
        Completing(Starts(sizes), readRanges, upload, Decided(size), pending, size, maxParallelParts, mpu, starting,
                   isFlushing);
        ghost var before := upload;
        DecideUpload();
        isFlushing := isFlushing + maxParallelParts;
        SamePartsFlushed(before, upload, pending);
        return true;
      }
      return false;
    }

    ghost method DecideUpload()
      requires Sound() && upload.Multi? && upload.completion.Open? && upload.taken == map[] && upload.flights == map[]
      requires |Starts(sizes)| > 0 && NothingToSend(State())
      modifies `upload, `contents
      ensures Sound() && contents == old(contents) && upload == old(upload).(completion := Decided(size))
    {
      hide Inv, Shows, CellAt, Positive, Starts, BufferList.Valid, PartOf, Bytes, NothingToSend;
      var f := State();
      upload := upload.(completion := Decided(size));
      Advance(f, Decide);
    }

    // ----- Completing a multipart upload -----

    /** The first section of completeMultipart: the final size is fixed and the copies are planned. */
    method CompleteStart(maxMerge: nat) returns (finalSize: nat, numParts: nat, ranges: seq<CopyRange>)
      requires Valid() && upload.Multi? && upload.completion.Decided?
      modifies `upload, `contents
      ensures Valid() && contents == old(contents) && finalSize == size
      ensures upload == old(upload).(completion := Collected(old(upload).completion.decidedSize, size, numParts, false))
      ensures CopiesExist(Starts(sizes), mpuParts, server, size, numParts) ==>
                && InsideServer(server, ranges)
                && Concat(WithCopies(mpuParts, server, ranges), numParts) ==
                     Object(Starts(sizes), mpuParts, server, size, numParts, numParts)
      ensures IsPlan(Starts(sizes), mpuParts, size, numParts, ranges)
      ensures IsPartCount(Starts(sizes), size, numParts) && numParts < |Starts(sizes)|
      ensures MergedBelow(Starts(sizes), mpuParts, size, numParts, maxMerge, ranges, numParts)
      ensures maxMerge == 0 ==> Unmerged(Starts(sizes), size, numParts, ranges)
    {
      hide Sound, LocksHeld, OneFlush, Starts, Positive, Boundaries, Parts, Bytes, StartOf, CopiesExist, Object,
           Concat, WithCopies, InsideServer, Unmerged, IsPlan, IsPartCount;
      PositiveSizes();
      PartBounds(sizes, 0);
      SizeWithin();
      NoFlights();
      finalSize := size;
      var n := NumParts(sizes, finalSize);
      numParts := n.value;
      PartCountIs(sizes, size, numParts);
      ranges := CollectRanges(Starts(sizes), mpuParts, finalSize, numParts, maxMerge, server);
      ghost var before := upload;
      FixSize(numParts);
      Completed(Starts(sizes), readRanges, before, upload, pending, size, maxParallelParts, mpu, starting, isFlushing);
    }

    ghost method FixSize(numParts: nat)
      requires Sound() && upload.Multi? && upload.completion.Decided? && IsPartCount(Starts(sizes), size, numParts)
      modifies `upload, `contents
      ensures Sound() && contents == old(contents)
      ensures upload == old(upload).(completion := Collected(old(upload).completion.decidedSize, size, numParts, false))
    {
      hide Inv, Shows, CellAt, Positive, Starts, BufferList.Valid, PartOf, Bytes, IsPartCount;
      var f := State();
      upload := upload.(completion := Collected(upload.completion.decidedSize, size, numParts, false));
      Advance(f, Collect);
    }

    lemma SizeWithin()
      requires Sound()
      ensures size <= Bytes(sizes)
    {
      StartsAreBoundaries(sizes);
    }

    lemma NoFlights()
      requires Sound() && upload.Multi? && !upload.completion.Open?
      ensures upload.taken == map[] && upload.flights == map[]
    {
    }

    /**
     The server applies the commit: the object becomes the uploaded parts and the copies. They are
     where the file has them exactly if no merged copy of an earlier attempt is among them.
     */
    ghost method CommitLands()
      requires Valid() && CanLand(State())
      modifies `server, `upload, `contents
      ensures contents == old(contents) && server == NewObject(old(State()))
      ensures upload == old(upload).(completion := old(upload).completion.(landed := true))
      ensures NoneMerged(Starts(sizes), mpuParts) ==> Valid()
      ensures var c := old(upload).completion;
              InPlace(Starts(sizes), mpuParts, old(server), c.finalSize, c.numParts, c.decidedSize) <==>
              NoneMerged(Starts(sizes), mpuParts)
    {
      hide Inv, Shows, CellAt, Positive, Starts, BufferList.Valid, PartOf, Bytes, LocksHeld, OneFlush, NewObject,
           CopiesExist, InPlace, NoneMerged;
      LandInPlace(State());
      NoFlights();
      var f := State();
      server := NewObject(f);
      upload := upload.(completion := upload.completion.(landed := true));
      Completed(Starts(sizes), readRanges, f.upload, upload, pending, size, maxParallelParts, mpu, starting,
                isFlushing);
      if NoneMerged(Starts(sizes), mpuParts) { Advance(f, Land); }
    }

    /** The reply to a commit that took effect. A file left clean is on the server. */
    method CompleteDone(finalSize: nat)
      requires Valid() && upload.Multi? && upload.completion.Collected? && upload.completion.landed
      requires upload.completion.finalSize == finalSize
      modifies `mpu, `isFlushing, `upload, `contents, `knownSize, `cacheState, buffers, buffers.q
      ensures Valid() && contents == old(contents) && upload.Idle? && knownSize == finalSize
      ensures forall x: int {:trigger CellAt(buffers.at, x)} ::
                CellAt(buffers.at, x) == var c := CellAt(old(buffers.at), x);
                  if c.None? || c.value.kind.state.Dirty? || c.value.kind.state.Clean? then c
                  else if c.value.kind.state.FlCleared? then None
                  else Some(Cell(c.value.kind.(state := Clean), 0, c.value.content))
      ensures cacheState.Cached? <==> size == finalSize && forall x: int {:trigger CellAt(old(buffers.at), x)} ::
                                        !IsDirty(CellAt(old(buffers.at), x))
      ensures cacheState.Cached? ==> server == contents
    {
      hide Inv, Shows, CellAt, Positive, Starts, BufferList.Valid, PartOf, Bytes, LocksHeld, OneFlush, Recached, ListOk;
      NoFlights();
      ghost var f := State();
      Completed(Starts(sizes), readRanges, upload, upload, pending, size, maxParallelParts, mpu, starting, isFlushing);
      MultiSettle(finalSize);
      ghost var f1 := State();
      mpu := false;
      isFlushing := isFlushing - maxParallelParts;
      upload := Idle;
      RecachedSame(f, f1, State());
      CommitCached(f, State());
      Advance(f, Commit);
      if cacheState.Cached? { CachedIsStored(State(), contents); }
    }

    method MultiSettle(finalSize: nat)
      requires buffers.Valid()
      modifies `knownSize, `cacheState, buffers, buffers.q
      ensures buffers.Valid() && buffers.curDirtyID == old(buffers.curDirtyID) && ListOk(buffers.at, buffers.curDirtyID)
      ensures forall x: int {:trigger CellAt(buffers.at, x)} ::
                CellAt(buffers.at, x) == Settled(CellAt(old(buffers.at), x))
      ensures knownSize == finalSize && Recached(old(State()), State())
    {
      hide CellAt, BufferList.Valid, StillDirty;
      buffers.SetFlushedClean();
      knownSize := finalSize;
      ghost var f1 := State();
      Recache();
      StillDirtySame(f1, State());
      buffers.ValidList();
    }

    /** Completion fails or is given up. `copies` are the copies that were made; they stay in the upload. */
    method CompleteFail(copies: Bodies)
      requires Valid() && upload.Multi? && !upload.completion.Open?
      requires copies != map[] ==> upload.completion.Collected? && !upload.completion.landed
      requires forall p: int :: p in copies ==> Copied(State(), p, copies[p])
      modifies `mpuParts, `isFlushing, `upload, `contents
      ensures Valid() && contents == old(contents)
      ensures upload == old(upload).(completion := Open, parts := old(upload).parts + copies)
    {
      hide Inv, Shows, CellAt, Positive, Starts, BufferList.Valid, PartOf, Bytes, LocksHeld, OneFlush, Copied;
      NoFlights();
      ghost var f := State();
      mpuParts := mpuParts + copies;
      upload := upload.(completion := Open, parts := upload.parts + copies);
      Completed(Starts(sizes), readRanges, f.upload, upload, pending, size, maxParallelParts, mpu, starting,
                isFlushing);
      isFlushing := isFlushing - maxParallelParts;
      Advance(f, GiveUp(copies));
    }
  }

  /** A file of two bytes is cut to nothing; then a response for its second byte arrives. */
  method CutThenResponse() returns (inode: Inode)
    ensures fresh(inode) && fresh(inode.buffers) && fresh(inode.buffers.q) && inode.Valid() && inode.size == 0
    ensures inode.cacheState == Modified && inode.maxParallelParts == 1 && inode.singlePartSize == 4
    ensures inode.readRanges == [] && inode.upload.Idle? && inode.isFlushing == 0 && !inode.mpu
    ensures inode.buffers.at != map[] && CellAt(inode.buffers.at, 0).None?
  {
    hide Inode.Sound, Inode.Booked, Inode.CutWaits, CutFits, Agrees, Erased, Added, Overwrote, CellAt, After, Bytes;
    var q := new BufferQueue();
    OneTier();
    inode := NewInode([PartSize(4, 1)], 1, 4, 0, q, Cached, 2, [7, 8]);
    inode.NothingWaits(0);
    ghost var m, cur := inode.buffers.at, inode.buffers.curDirtyID;
    var _ := inode.SetSize(0);
    StillNothing(m, inode.buffers.at, cur);
    ghost var m1, cur1 := inode.buffers.at, inode.buffers.curDirtyID;
    AgreesPastEnd(inode.State(), 1, [8]);
    var _ := inode.AddChunk(1, [8], 1);
    OnlySecond(m1, inode.buffers.at, cur1, 8);
  }

  lemma OneTier()
    ensures Positive([PartSize(4, 1)]) && Bytes([PartSize(4, 1)]) == 4
  {
    var sizes := [PartSize(4, 1)];
    assert sizes[..0] == [];
    assert Bytes(sizes) == Bytes(sizes[..0]) + 4;
  }

  lemma StillNothing(m: Buffers, m': Buffers, cur: nat)
    requires m == map[] && Erased(m, m', cur, 0, 2, Everything)
    ensures CellAt(m', 0).None? && CellAt(m', 1).None?
  {
    assert ErasedAt(m, m', cur, 0, 2, Everything, 0) && ErasedAt(m, m', cur, 0, 2, Everything, 1);
  }

  lemma AgreesPastEnd(f: File, offset: nat, data: seq<byte>)
    requires f.size <= offset
    ensures Agrees(f, offset, data)
  {
  }

  lemma OnlySecond(m: Buffers, m': Buffers, cur: nat, b: byte)
    requires CellAt(m, 0).None? && CellAt(m, 1).None? && Added(m, m', cur, 1, [b], Clean)
    ensures m' != map[] && CellAt(m', 0).None?
  {
    assert AddedAt(m, m', cur, 1, [b], Clean, 0) && AddedAt(m, m', cur, 1, [b], Clean, 1);
  }

  /**
   A response that arrives after the file was cut to nothing leaves a buffer past its end, and
   with it the empty file is not sent.
   */
  method LateResponseBlocksFlush() returns (inode: Inode, reader: MultiReader?)
    ensures fresh(inode) && inode.Valid() && inode.size == 0 && reader == null
  {
    hide Inode.Sound, Inode.Booked, Inode.Verdicts, Inode.PartsChosen, AllSkip, Longer, CellAt, AllKept, Readable;
    inode := CutThenResponse();
    var _ := inode.SendUpload(0, true, false, 0, 1);
    var sz := inode.FlushSmallStart();
    var ids;
    reader, ids := inode.FlushSmallShot(sz.value);
  }
}
