/**
 Reclaiming memory: clean buffers of all files are dropped, oldest first, until enough is
 free. Evicting a buffer can merge it with its neighbour and queue it again, so the scan
 meets entries it made itself.
 */
module Reclaim {
  import opened Options
  import opened FileBuffers
  import opened BufferChanges
  import opened BufferIndexes
  import opened BufferLists
  import opened FlushLocks

  /** Byte `x` is inside a locked range. */
  predicate LockedByte(locks: seq<ReadRange>, x: int)
  {
    exists r :: r in locks && r.offset <= x < r.offset + r.size
  }

  /**
   A byte is untouched, or it was clean or fully flushed, in memory and unlocked, and left
   memory. It is on disk if it was before or if there is a disk cache.
   */
  ghost predicate ReclaimedAt(m: Buffers, m': Buffers, locks: seq<ReadRange>, useDisk: bool, x: int)
  {
    var c, c' := CellAt(m, x), CellAt(m', x);
    || c' == c
    || (&& c.Some? && (c.value.kind.state.Clean? || c.value.kind.state.FlushedFull?) && c.value.content.Some?
        && !LockedByte(locks, x)
        && c' == Evicted(c.value, useDisk || c.value.kind.onDisk))
  }

  ghost predicate Reclaimed(m: Buffers, m': Buffers, locks: seq<ReadRange>, useDisk: bool)
  {
    forall x: int {:trigger CellAt(m', x)} {:trigger ReclaimedAt(m, m', locks, useDisk, x)} ::
      ReclaimedAt(m, m', locks, useDisk, x)
  }

  /** The buffer may leave memory. */
  predicate Evictable(m: Buffers, k: int, locks: seq<ReadRange>)
  {
    k in m && m[k].Queued() && m[k].data.Mem? && forall r :: r in locks ==> !r.Hits(m[k].offset, m[k].End(), false)
  }

  lemma ReclaimStep(m: Buffers, m1: Buffers, m2: Buffers, k: int, onDisk: bool, locks: seq<ReadRange>, useDisk: bool)
    requires k in m1 && onDisk == (useDisk || m1[k].kind.onDisk)
    requires Shape(m1) && Reclaimed(m, m1, locks, useDisk) && Evictable(m1, k, locks)
    requires forall x: int :: EvictedAt(m1, m2, k, onDisk, x)
    ensures Reclaimed(m, m2, locks, useDisk)
  {
    forall x: int ensures ReclaimedAt(m, m2, locks, useDisk, x) {
      assert ReclaimedAt(m, m1, locks, useDisk, x) && EvictedAt(m1, m2, k, onDisk, x);
      if Covers(m1, k, x) {
        CoveredCell(m1, k, x);
      }
    }
  }

  lemma NothingReclaimed(m: Buffers, locks: seq<ReadRange>, useDisk: bool)
    ensures Reclaimed(m, m, locks, useDisk)
  {
  }

  /** What may still be evicted is queued at or after the cursor. */
  ghost predicate Passed(m: Buffers, locks: seq<ReadRange>, cursor: int)
  {
    forall k: int :: Evictable(m, k, locks) ==> m[k].queueId >= cursor
  }

  /** The entry at position `id` was looked at: it is not evictable, or it was evicted. */
  lemma PassOne(m: Buffers, m': Buffers, locks: seq<ReadRange>, inode: nat, queue: map<int, QueuedBuffer>, cur: nat,
                cursor: int, id: int)
    requires QueuesClean(m, inode, queue, cur) && Passed(m, locks, cursor) && IsFirst(queue, cursor, Some(id))
    requires forall k: int :: k in m' && m'[k].data.Mem? ==> k in m && m'[k] == m[k]
    requires queue[id].inode == inode ==> !Evictable(m', queue[id].end, locks)
    ensures Passed(m', locks, id + 1)
  {
    forall k: int | Evictable(m', k, locks) ensures m'[k].queueId >= id + 1 {
      assert Evictable(m, k, locks) && queue[m[k].queueId] == QueuedBuffer(inode, k);
    }
  }

  lemma NothingEvictable(m: Buffers, locks: seq<ReadRange>, inode: nat, queue: map<int, QueuedBuffer>, cur: nat,
                         cursor: int)
    requires QueuesClean(m, inode, queue, cur) && Passed(m, locks, cursor) && forall i: int :: i in queue ==> i < cursor
    ensures forall k: int :: !Evictable(m, k, locks)
  {
  }

  /** Entries of one inode changed: the index of another still agrees with its buffers. */
  lemma QueuesCleanOther(m: Buffers, inode: nat, other: nat, queue: map<int, QueuedBuffer>, cur: nat,
                         queue': map<int, QueuedBuffer>, cur': nat)
    requires QueuesClean(m, inode, queue, cur) && OthersKept(queue, queue', other) && inode != other && cur <= cur'
    requires forall i: int :: i in queue' ==> i <= cur'
    ensures QueuesClean(m, inode, queue', cur')
  {
  }

  function Sum(s: seq<int>): int
  {
    if s == [] then 0 else Sum(s[..|s| - 1]) + s[|s| - 1]
  }

  lemma {:induction false} SumUpdate(s: seq<int>, t: seq<int>, i: nat)
    requires i < |s| == |t| && forall j: int :: 0 <= j < |s| && j != i ==> t[j] == s[j]
    ensures Sum(t) == Sum(s) + t[i] - s[i]
  {
    var n := |s| - 1;
    if i < n { SumUpdate(s[..n], t[..n], i); } else { assert s[..n] == t[..n]; }
  }

  ghost function Residents(trees: seq<Buffers>): set<(int, int)>
  {
    set i: int, k: int | 0 <= i < |trees| && k in ResidentKeys(trees[i]) :: (i, k)
  }

  ghost predicate Queued(trees: seq<Buffers>, queue: map<int, QueuedBuffer>, cur: nat)
  {
    && (forall i: int :: 0 <= i < |trees| ==> Shape(trees[i]) && QueuesClean(trees[i], i, queue, cur))
    && (forall id: int :: id in queue ==> queue[id].inode < |trees|)
  }

  /** Buffers in memory are as they were, unless they were queued before the cursor. */
  ghost predicate Untouched(m: Buffers, m': Buffers, cursor: int)
  {
    forall k: int :: k in m && m[k].data.Mem? && !(m[k].Queued() && m[k].queueId < cursor) ==>
      k in m' && m'[k] == m[k]
  }

  /** The scan has come to `cursor`: only reclaimable bytes of `was` are gone, and nothing before it can go. */
  ghost predicate Scanned(was: seq<Buffers>, trees: seq<Buffers>, locks: seq<seq<ReadRange>>, useDisk: bool,
                          cursor: int)
  {
    && |was| == |trees| == |locks|
    && forall i: int :: 0 <= i < |trees| ==>
         Reclaimed(was[i], trees[i], locks[i], useDisk) && Passed(trees[i], locks[i], cursor)
         && Untouched(was[i], trees[i], cursor)
  }

  lemma UntouchedLater(m: Buffers, m': Buffers, cursor: int, cursor': int)
    requires Untouched(m, m', cursor) && cursor <= cursor'
    ensures Untouched(m, m', cursor')
  {
  }

  lemma UntouchedEvict(m: Buffers, m1: Buffers, m2: Buffers, k: int, inode: nat, queue: map<int, QueuedBuffer>,
                       cur: nat, cursor: int, id: int)
    requires Untouched(m, m1, cursor) && cursor <= id && k in m1 && m1[k].Queued()
    requires QueuesClean(m1, inode, queue, cur) && id in queue && queue[id] == QueuedBuffer(inode, k)
    requires ResidentKeys(m2) == ResidentKeys(m1) - {k}
    requires forall j: int :: j in m2 && m2[j].data.Mem? ==> j in m1 && m2[j] == m1[j]
    ensures Untouched(m, m2, id + 1)
  {
    forall j: int | j in m && m[j].data.Mem? && !(m[j].Queued() && m[j].queueId < id + 1)
      ensures j in m2 && m2[j] == m[j]
    {
      assert j in m1 && m1[j] == m[j] && j in ResidentKeys(m1);
      assert j in ResidentKeys(m2);
    }
  }

  lemma ScanSkipped(was: seq<Buffers>, trees: seq<Buffers>, locks: seq<seq<ReadRange>>, queue: map<int, QueuedBuffer>,
                    cur: nat, useDisk: bool, cursor: int, id: int)
    requires Queued(trees, queue, cur) && Scanned(was, trees, locks, useDisk, cursor)
    requires IsFirst(queue, cursor, Some(id))
    requires var b := queue[id]; !Evictable(trees[b.inode], b.end, locks[b.inode])
    ensures Scanned(was, trees, locks, useDisk, id + 1)
  {
    hide Reclaimed, Passed, QueuesClean, Evictable, Shape, Untouched;
    forall i: int | 0 <= i < |trees| ensures Passed(trees[i], locks[i], id + 1) && Untouched(was[i], trees[i], id + 1) {
      PassOne(trees[i], trees[i], locks[i], i, queue, cur, cursor, id);
      UntouchedLater(was[i], trees[i], cursor, id + 1);
    }
  }

  lemma ScanEvicted(was: seq<Buffers>, trees: seq<Buffers>, trees': seq<Buffers>, locks: seq<seq<ReadRange>>,
                    queue: map<int, QueuedBuffer>, cur: nat, useDisk: bool, cursor: int, id: int, onDisk: bool)
    requires Queued(trees, queue, cur) && Scanned(was, trees, locks, useDisk, cursor)
    requires IsFirst(queue, cursor, Some(id))
    requires |trees'| == |trees| && forall i: int :: 0 <= i < |trees| && i != queue[id].inode ==> trees'[i] == trees[i]
    requires var b := queue[id];
             var m, m' := trees[b.inode], trees'[b.inode];
             && Evictable(m, b.end, locks[b.inode]) && onDisk == (useDisk || m[b.end].kind.onDisk)
             && (forall x: int :: EvictedAt(m, m', b.end, onDisk, x))
             && ResidentKeys(m') == ResidentKeys(m) - {b.end}
             && forall k: int :: k in m' && m'[k].data.Mem? ==> k in m && m'[k] == m[k]
    ensures Scanned(was, trees', locks, useDisk, id + 1) && Residents(trees') < Residents(trees)
  {
    hide Reclaimed, Passed, QueuesClean, Shape, EvictedAt, Untouched;
    var b := queue[id];
    assert b.end !in ResidentKeys(trees'[b.inode]);
    ReclaimStep(was[b.inode], trees[b.inode], trees'[b.inode], b.end, onDisk, locks[b.inode], useDisk);
    UntouchedEvict(was[b.inode], trees[b.inode], trees'[b.inode], b.end, b.inode, queue, cur, cursor, id);
    forall i: int | 0 <= i < |trees|
      ensures Passed(trees'[i], locks[i], id + 1) && Untouched(was[i], trees'[i], id + 1)
    {
      PassOne(trees[i], trees'[i], locks[i], i, queue, cur, cursor, id);
      if i != b.inode { UntouchedLater(was[i], trees[i], cursor, id + 1); }
    }
    assert (b.inode as int, b.end) in Residents(trees) && (b.inode as int, b.end) !in Residents(trees');
  }

  /** In every list only reclaimable bytes are gone. */
  ghost predicate AllReclaimed(was: seq<Buffers>, trees: seq<Buffers>, locks: seq<seq<ReadRange>>, useDisk: bool)
  {
    |was| == |trees| == |locks| && forall i: int :: 0 <= i < |trees| ==> Reclaimed(was[i], trees[i], locks[i], useDisk)
  }

  /** Nothing is left to evict. */
  ghost predicate Exhausted(trees: seq<Buffers>, locks: seq<seq<ReadRange>>)
  {
    |trees| == |locks| && forall i: int, k: int :: 0 <= i < |trees| ==> !Evictable(trees[i], k, locks[i])
  }

  lemma ScanStart(trees: seq<Buffers>, locks: seq<seq<ReadRange>>, useDisk: bool)
    requires |trees| == |locks|
    ensures Scanned(trees, trees, locks, useDisk, 0)
  {
    forall i: int | 0 <= i < |trees| ensures Reclaimed(trees[i], trees[i], locks[i], useDisk) {
      NothingReclaimed(trees[i], locks[i], useDisk);
    }
  }

  lemma ScanEnd(was: seq<Buffers>, trees: seq<Buffers>, locks: seq<seq<ReadRange>>, queue: map<int, QueuedBuffer>,
                cur: nat, useDisk: bool, cursor: int)
    requires Queued(trees, queue, cur) && Scanned(was, trees, locks, useDisk, cursor) && forall i: int :: i in queue ==>
               i < cursor
    ensures Exhausted(trees, locks)
  {
    forall i: int, k: int | 0 <= i < |trees| ensures !Evictable(trees[i], k, locks[i]) {
      NothingEvictable(trees[i], locks[i], i, queue, cur, cursor);
    }
  }

  lemma OnlyReclaimed(was: seq<Buffers>, trees: seq<Buffers>, locks: seq<seq<ReadRange>>, useDisk: bool, cursor: int)
    requires Scanned(was, trees, locks, useDisk, cursor)
    ensures AllReclaimed(was, trees, locks, useDisk)
  {
  }

  ghost predicate UpTo(ptrs: map<int, BufferPointer>, bound: nat)
  {
    forall p: int :: p in ptrs ==> ptrs[p].memLen <= bound
  }

  lemma StillUpTo(ptrs: map<int, BufferPointer>, ptrs': map<int, BufferPointer>, p: int, delta: int, bound: nat)
    requires Releases(ptrs, ptrs', p, delta) && UpTo(ptrs, bound)
    ensures UpTo(ptrs', bound) && -delta <= bound
  {
  }

  const MIN_FREE: int := 5 * 1024 * 1024

  class CleanBuffers {
    const q: BufferQueue
    const lists: seq<BufferList>
    const locks: seq<seq<ReadRange>>

    ghost predicate Valid()
      reads q, lists
    {
      && |locks| == |lists|
      && (forall i: int :: 0 <= i < |lists| ==> lists[i].q == q && lists[i].inode == i && lists[i].Valid())
      && (forall id: int :: id in q.cleanQueue ==> q.cleanQueue[id].inode < |lists|)
    }

    /** The memory each list holds. */
    ghost function Held(): (r: seq<int>)
      reads lists
      ensures |r| == |lists| && forall i: int :: 0 <= i < |lists| ==> r[i] == lists[i].Memory()
    {
      seq(|lists|, i requires 0 <= i < |lists| reads lists => lists[i].Memory())
    }

    /** No array has more than `bound` bytes. */
    ghost predicate ArraysUpTo(bound: nat)
      reads lists
    {
      forall i: int :: 0 <= i < |lists| ==> UpTo(lists[i].ptrs, bound)
    }

    constructor (q: BufferQueue, lists: seq<BufferList>, locks: seq<seq<ReadRange>>)
      ensures this.q == q && this.lists == lists && this.locks == locks
    {
      this.q, this.lists, this.locks := q, lists, locks;
    }

    /** Drops one buffer from memory. */
    method EvictOne(i: nat, k: int, onDisk: bool, ghost bound: nat) returns (delta: int)
      requires Valid() && i < |lists| && Evictable(lists[i].at, k, locks[i])
      modifies lists[i], q
      ensures Valid() && q.curQueueID >= old(q.curQueueID)
      ensures delta == lists[i].Memory() - old(lists[i].Memory())
      ensures old(ArraysUpTo(bound)) ==> ArraysUpTo(bound) && -delta <= bound
      ensures forall x: int :: EvictedAt(old(lists[i].at), lists[i].at, k, onDisk, x)
      ensures ResidentKeys(lists[i].at) == old(ResidentKeys(lists[i].at)) - {k}
      ensures forall j: int :: j in lists[i].at && lists[i].at[j].data.Mem? ==>
                j in old(lists[i].at) && lists[i].at[j] == old(lists[i].at)[j]
    {
      hide CellAt, EvictedAt, Releases, ResidentKeys, CountsSharers, DistinctIds, CountsDirty, QueueOfParts, PartHelper,
           Shape, UpTo;
      ghost var ptrs, p := lists[i].ptrs, lists[i].at[k].data.ptr;
      var deleted;
      delta, deleted := lists[i].EvictFromMemory(k, onDisk);
      if UpTo(ptrs, bound) { StillUpTo(ptrs, lists[i].ptrs, p, delta, bound); }
      forall j: int | 0 <= j < |lists| && j != i ensures lists[j].Valid() {
        QueuesCleanOther(lists[j].at, j, i, old(q.cleanQueue), old(q.curQueueID), q.cleanQueue, q.curQueueID);
      }
    }

    ghost function Trees(): (r: seq<Buffers>)
      reads lists
      ensures |r| == |lists| && forall i: int :: 0 <= i < |lists| ==> r[i] == lists[i].at
    {
      seq(|lists|, i requires 0 <= i < |lists| reads lists => lists[i].at)
    }

    lemma ScanBegins(useDisk: bool)
      requires Valid()
      ensures Scanned(Trees(), Trees(), locks, useDisk, 0)
    {
      ScanStart(Trees(), locks, useDisk);
    }

    lemma AllQueued()
      requires Valid()
      ensures Queued(Trees(), q.cleanQueue, q.curQueueID)
    {
    }

    /** Looks at one queued buffer and drops it if it may go. */
    method Visit(next: nat, useDisk: bool, ghost was: seq<Buffers>, ghost cursor: int, ghost bound: nat)
      returns (delta: int)
      requires Valid() && next > 0 && IsFirst(q.cleanQueue, cursor, Some(next - 1))
      requires Scanned(was, Trees(), locks, useDisk, cursor)
      modifies lists, q
      ensures Valid() && Scanned(was, Trees(), locks, useDisk, next) && delta == Sum(Held()) - old(Sum(Held()))
      ensures old(ArraysUpTo(bound)) ==> ArraysUpTo(bound) && -delta <= bound
      ensures Residents(Trees()) < Residents(old(Trees()))
              || (Trees() == old(Trees()) && q.cleanQueue == old(q.cleanQueue))
    {
      hide BufferList.Valid, Scanned, Sum, CellAt, Queued, Residents, ArraysUpTo;
      var id := next - 1;
      var b := q.cleanQueue[id];
      var list, end := lists[b.inode], b.end;
      ghost var trees, held, queue, cur := Trees(), Held(), q.cleanQueue, q.curQueueID;
      AllQueued();
      delta := 0;
      if Evictable(list.at, end, locks[b.inode]) {
        // A buffer goes to disk first, if there is a disk cache.
        var onDisk := useDisk || list.at[end].kind.onDisk;
        delta := EvictOne(b.inode, end, onDisk, bound);
        ScanEvicted(was, trees, Trees(), locks, queue, cur, useDisk, cursor, id, onDisk);
        SumUpdate(held, Held(), b.inode);
      } else {
        ScanSkipped(was, trees, locks, queue, cur, useDisk, cursor, id);
      }
    }

    /**
     Frees clean buffers, oldest first: those queued before `cursor` that may go are gone, the
     others are untouched. It stops as soon as enough memory is freed or with nothing left
     to evict, it drops only unlocked bytes that the server has, and `freed` is exactly the
     memory given back.
     */
    method FreeSomeCleanBuffers(origSize: int, useDisk: bool, ghost bound: nat) returns (freed: int, ghost cursor: nat)
      requires Valid()
      modifies lists, q
      ensures Valid() && freed == old(Sum(Held())) - Sum(Held())
      ensures AllReclaimed(old(Trees()), Trees(), locks, useDisk)
      ensures Scanned(old(Trees()), Trees(), locks, useDisk, cursor)
      ensures (freed >= origSize && freed >= 5 * 1024 * 1024) || Exhausted(Trees(), locks)
      ensures old(ArraysUpTo(bound)) ==> freed < origSize + bound || freed < 5 * 1024 * 1024 + bound
    {
      hide Valid, ArraysUpTo, Scanned, Sum, CellAt, Queued, Residents, AllReclaimed, Exhausted;
      freed := 0;
      var size := if origSize < MIN_FREE then MIN_FREE else origSize;
      var cleanQueueID: nat, more := 0, true;
      ghost var was, held := Trees(), Sum(Held());
      ghost var trees, queue := was, q.cleanQueue;
      ScanBegins(useDisk);
      while freed < size && more
        invariant old(ArraysUpTo(bound)) ==> ArraysUpTo(bound) && freed < size + bound
        invariant Valid() && Scanned(was, trees, locks, useDisk, cleanQueueID) && freed == held - Sum(Held())
        invariant trees == Trees() && queue == q.cleanQueue && (!more ==> Exhausted(trees, locks))
        decreases more, Residents(trees), KeysFrom(queue, cleanQueueID)
      {
        var _, _, next := q.NextClean(cleanQueueID);
        if next == 0 {
          AllQueued();
          ScanEnd(was, trees, locks, queue, q.curQueueID, useDisk, cleanQueueID);
          more := false;
        } else {
          KeysShrink(queue, cleanQueueID, next - 1);
          var delta := Visit(next, useDisk, was, cleanQueueID, bound);
          cleanQueueID := next;
          freed := freed - delta;
          trees, queue := Trees(), q.cleanQueue;
        }
      }
      OnlyReclaimed(was, trees, locks, useDisk, cleanQueueID);
      cursor := cleanQueueID;
    }
  }
}
