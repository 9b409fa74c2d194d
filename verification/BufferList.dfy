/**
 The in-memory part of a file: a B-tree of buffers keyed by end offset with four indexes
 beside it. Each method follows one operation of the source; its contract says what it
 does to every byte of the file and that all indexes still agree with the tree.
 */
module BufferLists {
  import opened Options
  import opened FileBuffers
  import opened BufferChanges
  import opened BufferIndexes
  import opened BufferReads

  const MAX_BUF: nat := 2 * 1024 * 1024

  /** Entries of inodes other than `inode` are the same in both queues. */
  ghost predicate OthersKept(a: map<int, QueuedBuffer>, b: map<int, QueuedBuffer>, inode: nat)
  {
    && (forall i: int :: i in a && a[i].inode != inode ==> i in b && b[i] == a[i])
    && (forall i: int :: i in b && b[i].inode != inode ==> i in a && a[i] == b[i])
  }

  /** The queue, shared by all inodes, of buffers that may be dropped from memory. */
  class BufferQueue {
    var cleanQueue: map<int, QueuedBuffer>
    var curQueueID: nat

    constructor ()
      ensures cleanQueue == map[] && curQueueID == 0
    {
      cleanQueue, curQueueID := map[], 0;
    }

    method Add(inode: nat, end: int) returns (queueId: nat)
      modifies this
      ensures queueId == curQueueID == old(curQueueID) + 1
      ensures cleanQueue == old(cleanQueue)[queueId := QueuedBuffer(inode, end)]
    {
      curQueueID := curQueueID + 1;
      queueId := curQueueID;
      cleanQueue := cleanQueue[queueId := QueuedBuffer(inode, end)];
    }

    method Delete(queueId: nat)
      modifies this`cleanQueue
      ensures cleanQueue == old(cleanQueue) - {queueId}
    {
      cleanQueue := cleanQueue - {queueId};
    }

    /** The first entry from position `minQueueId` on; `nextQueueId` is 0 if there is none. */
    method NextClean(minQueueId: nat) returns (inode: nat, end: int, nextQueueId: nat)
      ensures nextQueueId == 0 ==> forall i: int :: i in cleanQueue ==> i < minQueueId
      ensures nextQueueId > 0 ==>
                && IsFirst(cleanQueue, minQueueId, Some(nextQueueId - 1))
                && cleanQueue[nextQueueId - 1] == QueuedBuffer(inode, end)
    {
      inode, end, nextQueueId := 0, 0, 0;
      var first := FirstFrom(cleanQueue, minQueueId);
      if first.Some? {
        var b := cleanQueue[first.value];
        inode, end, nextQueueId := b.inode, b.end, first.value + 1;
      }
    }
  }

  /**
   Two clean bytes are added over the caller's array where one byte is dirty. Only the other one is
   reported, although the array holds both.
   */
  method KeptArrayMiscounts() returns (reported: int, ghost held: int)
    ensures reported != held
  {
    hide BufferList.Valid, BufferList.Memory, Added, WritableCount, PartHelper, QueuesClean;
    var q := new BufferQueue();
    OnePart(0);
    var list := new BufferList((x: nat) => 0, 0, q);
    var _ := list.Add(0, [7], 1, Dirty, true);
    OneWritable(list.at);
    ghost var before := list.Memory();
    reported := list.Add(0, [8, 9], 2, Clean, false);
    held := list.Memory() - before;
  }

  lemma OnePart(inode: nat)
    ensures PartHelper((x: nat) => 0) && QueuesClean(map[], inode, map[], 0)
  {
  }

  lemma OneWritable(m: Buffers)
    requires Added(map[], m, 0, 0, [7], Dirty)
    ensures WritableCount(m, Clean, 0, 2) == 1
  {
    assert AddedAt(map[], m, 0, 0, [7], Dirty, 0) && AddedAt(map[], m, 0, 0, [7], Dirty, 1);
    assert WritableCount(m, Clean, 0, 1) == 0;
  }

  class BufferList {
    const part: nat -> nat
    const inode: nat
    const q: BufferQueue

    var at: Buffers
    var dirtyQueue: map<int, int>
    var dirtyParts: map<int, DirtyPart>
    var dirtyQid: nat
    var uncleanCount: int
    var curDirtyID: nat
    /** The pointer records the buffers refer to, by number; a dead record is dropped. */
    var ptrs: map<int, BufferPointer>
    var nextPtr: nat

    /** Every index except memory agrees with the buffers `m`. */
    ghost predicate Indexed(m: Buffers)
      reads this`uncleanCount, this`dirtyParts, this`dirtyQueue, this`dirtyQid, q
    {
      && uncleanCount == |UncleanKeys(m)|
      && QueueOfParts(dirtyParts, dirtyQueue, dirtyQid)
      && CountsDirty(m, part, dirtyParts)
      && QueuesClean(m, inode, q.cleanQueue, q.curQueueID)
    }

    ghost predicate Valid()
      reads this, q
    {
      && PartHelper(part)
      && Shape(at)
      && DistinctIds(at, curDirtyID)
      && Indexed(at)
      && CountsSharers(at, ptrs, nextPtr)
    }

    lemma ValidList()
      requires Valid()
      ensures Shape(at) && DistinctIds(at, curDirtyID)
    {
    }

    ghost function Memory(): int
      reads this
    {
      TotalMem(ptrs, nextPtr)
    }

    constructor (part: nat -> nat, inode: nat, q: BufferQueue)
      requires PartHelper(part) && QueuesClean(map[], inode, q.cleanQueue, q.curQueueID)
      ensures Valid() && at == map[] && Memory() == 0 && curDirtyID == 0
      ensures this.part == part && this.inode == inode && this.q == q
    {
      this.part, this.inode, this.q := part, inode, q;
      at, dirtyQueue, dirtyParts, ptrs := map[], map[], map[], map[];
      dirtyQid, uncleanCount, curDirtyID, nextPtr := 0, 0, 0, 0;
      new;
      assert UncleanKeys(at) == {};
      assert forall p: int :: DirtyKeys(at, part, p) == {};
    }

    method NextID() returns (id: nat)
      requires DistinctIds(at, curDirtyID)
      modifies this`curDirtyID
      ensures id == curDirtyID == old(curDirtyID) + 1
      ensures DistinctIds(at, curDirtyID) && FreshId(at, id)
    {
      curDirtyID := curDirtyID + 1;
      id := curDirtyID;
    }

    /** A pointer record that nothing refers to yet. */
    method NewPointer() returns (ptr: nat)
      requires CountsSharers(at, ptrs, nextPtr)
      modifies this`nextPtr
      ensures CountsSharers(at, ptrs, nextPtr) && Memory() == old(Memory())
      ensures ptr < nextPtr && ptr !in ptrs && nextPtr > old(nextPtr)
    {
      TotalMemBeyond(ptrs, nextPtr, nextPtr + 1);
      ptr := nextPtr;
      nextPtr := nextPtr + 1;
    }

    method ReferenceDirtyPart(p: int)
      requires QueueOfParts(dirtyParts, dirtyQueue, dirtyQid)
      modifies this`dirtyQid, this`dirtyParts, this`dirtyQueue
      ensures QueueOfParts(dirtyParts, dirtyQueue, dirtyQid)
      ensures p in dirtyParts && dirtyParts[p].queueId == dirtyQid == old(dirtyQid) + 1
      ensures forall i: int :: Refs(dirtyParts, i) == Refs(old(dirtyParts), i) + if i == p then 1 else 0
    {
      dirtyQid := dirtyQid + 1;
      if p !in dirtyParts {
        dirtyParts := dirtyParts[p := DirtyPart(dirtyQid, 1)];
      } else {
        dirtyQueue := dirtyQueue - {dirtyParts[p].queueId};
        dirtyParts := dirtyParts[p := DirtyPart(dirtyQid, dirtyParts[p].refcnt + 1)];
      }
      dirtyQueue := dirtyQueue[dirtyQid := p];
    }

    method ReleaseDirtyPart(p: int)
      requires QueueOfParts(dirtyParts, dirtyQueue, dirtyQid)
      requires Refs(dirtyParts, p) > 0
      modifies this`dirtyParts, this`dirtyQueue
      ensures QueueOfParts(dirtyParts, dirtyQueue, dirtyQid)
      ensures forall i: int :: Refs(dirtyParts, i) == Refs(old(dirtyParts), i) - if i == p then 1 else 0
    {
      var d := dirtyParts[p];
      if d.refcnt == 1 {
        dirtyQueue := dirtyQueue - {d.queueId};
        dirtyParts := dirtyParts - {p};
      } else {
        dirtyParts := dirtyParts[p := d.(refcnt := d.refcnt - 1)];
      }
    }

    method ReferenceDirtyParts(sp: nat, ep: nat)
      requires QueueOfParts(dirtyParts, dirtyQueue, dirtyQid)
      modifies this`dirtyQid, this`dirtyParts, this`dirtyQueue
      ensures QueueOfParts(dirtyParts, dirtyQueue, dirtyQid)
      ensures forall p: int :: Refs(dirtyParts, p) == Refs(old(dirtyParts), p) + if sp <= p <= ep then 1 else 0
    {
      var i := sp;
      while i <= ep
        invariant QueueOfParts(dirtyParts, dirtyQueue, dirtyQid)
        invariant sp <= i && (i <= ep + 1 || i == sp)
        invariant forall p: int :: Refs(dirtyParts, p) == Refs(old(dirtyParts), p) + if sp <= p < i then 1 else 0
      {
        ReferenceDirtyPart(i);
        i := i + 1;
      }
    }

    /** The source panics on a part without references; the precondition rules that out. */
    method ReleaseDirtyParts(sp: nat, ep: nat)
      requires QueueOfParts(dirtyParts, dirtyQueue, dirtyQid)
      requires forall p: int :: sp <= p <= ep ==> Refs(dirtyParts, p) > 0
      modifies this`dirtyParts, this`dirtyQueue
      ensures QueueOfParts(dirtyParts, dirtyQueue, dirtyQid)
      ensures forall p: int :: Refs(dirtyParts, p) == Refs(old(dirtyParts), p) - if sp <= p <= ep then 1 else 0
    {
      var i := sp;
      while i < ep + 1
        invariant QueueOfParts(dirtyParts, dirtyQueue, dirtyQid)
        invariant sp <= i && (i <= ep + 1 || i == sp)
        invariant forall p: int :: Refs(dirtyParts, p) == Refs(old(dirtyParts), p) - if sp <= p < i then 1 else 0
      {
        ReleaseDirtyPart(i);
        i := i + 1;
      }
    }

    /** Takes the buffer stored at `k` of `m` out of the indexes. */
    method Unqueue(b: FileBuffer, ghost m: Buffers, ghost k: int)
      requires PartHelper(part) && Indexed(m) && k in m && m[k] == b && b.length > 0
      modifies this`uncleanCount, this`dirtyParts, this`dirtyQueue, q`cleanQueue
      ensures Indexed(m - {k})
      ensures OthersKept(old(q.cleanQueue), q.cleanQueue, inode)
    {
      UncleanWithout(m, k);
      QueuesCleanWithout(m, k, inode, q.cleanQueue, q.curQueueID);
      ghost var parts := dirtyParts;
      if !b.kind.state.Clean? {
        uncleanCount := uncleanCount - 1;
      }
      if b.kind.state.Dirty? {
        forall p: int | part(b.offset) <= p <= part(b.End() - 1) ensures Refs(dirtyParts, p) > 0 {
          assert k in DirtyKeys(m, part, p);
        }
        ReleaseDirtyParts(part(b.offset), part(b.End() - 1));
      } else if b.Queued() {
        q.Delete(b.queueId);
      }
      CountsDirtyWithout(m, part, k, parts, dirtyParts);
    }

    /** Enters `b`, stored at `k`, into the indexes that agree with `m`. */
    method Queue(b: FileBuffer, ghost m: Buffers, ghost k: int) returns (r: FileBuffer)
      requires PartHelper(part) && Indexed(m) && k !in m && b.End() == k
      requires b.length > 0 // the source panics otherwise
      modifies this`uncleanCount, this`dirtyParts, this`dirtyQueue, this`dirtyQid, q
      ensures Indexed(m[k := r]) && r == b.(queueId := r.queueId)
      ensures OthersKept(old(q.cleanQueue), q.cleanQueue, inode) && q.curQueueID >= old(q.curQueueID)
    {
      r := b;
      ghost var parts, queue, cur := dirtyParts, q.cleanQueue, q.curQueueID;
      if !b.kind.state.Clean? {
        uncleanCount := uncleanCount + 1;
      }
      if b.kind.state.Dirty? {
        ReferenceDirtyParts(part(b.offset), part(b.End() - 1));
      } else if b.Queued() {
        var queueId := q.Add(inode, b.End());
        r := b.(queueId := queueId);
      }
      UncleanWith(m, k, r);
      QueuesCleanWith(m, k, r, inode, queue, cur);
      CountsDirtyWith(m, part, k, r, parts, dirtyParts);
    }

    /** Enters the left piece of the buffer at `k` of `m`; the right piece keeps its entries. */
    method RequeueSplit(left: FileBuffer, ghost right: FileBuffer, ghost m: Buffers, ghost k: int)
      returns (r: FileBuffer)
      requires PartHelper(part) && Indexed(m) && k in m && m[k].End() == k && left.End() !in m
      requires m[k].offset == left.offset && left.length > 0 && left.End() < k
      requires right.offset == left.End() && right.End() == k
      requires left.kind == right.kind == m[k].kind && right.queueId == m[k].queueId
      modifies this`uncleanCount, this`dirtyParts, this`dirtyQueue, this`dirtyQid, q
      ensures r == left.(queueId := r.queueId)
      ensures Indexed(m[k := right][left.End() := r])
      ensures OthersKept(old(q.cleanQueue), q.cleanQueue, inode) && q.curQueueID >= old(q.curQueueID)
    {
      r := left;
      ghost var parts, queue, cur := dirtyParts, q.cleanQueue, q.curQueueID;
      if !left.kind.state.Clean? {
        uncleanCount := uncleanCount + 1;
      }
      if left.kind.state.Dirty? {
        var lbound, rbound := part(left.End() - 1), part(left.End());
        if lbound == rbound {
          ReferenceDirtyPart(lbound);
        }
      } else if left.Queued() {
        var queueId := q.Add(inode, left.End());
        r := left.(queueId := queueId);
      }
      UncleanSplit(m, k, left.End(), r, right);
      QueuesCleanReplace(m, k, right, inode, queue, cur);
      QueuesCleanWith(m[k := right], left.End(), r, inode, queue, cur);
      CountsDirtySplit(m, part, k, left.End(), r, right, parts, dirtyParts);
    }

    /** Cuts the buffer at `k` in two; a dirty right piece moves to a fresh dirty id. */
    method Split(k: int, offset: nat) returns (left: FileBuffer, right: FileBuffer)
      requires Valid() && k in at && at[k].offset < offset < k
      modifies this, q
      ensures Valid()
      ensures IsSplit(old(at), at, k, offset, old(curDirtyID), curDirtyID)
      ensures left == at[offset] && right == at[k]
      ensures Memory() == old(Memory())
      ensures OthersKept(old(q.cleanQueue), q.cleanQueue, inode)
    {
      hide Indexed, CountsSharers, DistinctIds, PartHelper, CellAt, Shape;
      var b := at[k];
      StoredBuffer(at, k);
      left := LeftOf(b, offset);
      ghost var m, oldPtrs := at, ptrs;
      if b.data.Mem? {
        HasPointer(m, k, ptrs, nextPtr);
        ptrs := ptrs[b.data.ptr := ptrs[b.data.ptr].(refs := ptrs[b.data.ptr].refs + 1)];
      }
      var id := 0;
      if b.dirtyID != 0 {
        id := NextID();
      }
      right := RightOf(b, offset, id);
      SplitShape(m, k, offset, id, left);
      left := RequeueSplit(left, right, m, k);
      at := at[k := right][offset := left];
      SplitShape(m, k, offset, id, left);
      DistinctIdsSplit(m, k, offset, left, right, old(curDirtyID), id);
      CountsSharersSplit(m, k, offset, left, right, oldPtrs, ptrs, nextPtr);
    }

    /** Drops one reference to a pointer; the result is the change in memory held. */
    method DropRef(p: int) returns (delta: int)
      requires p in ptrs && ptrs[p].refs > 0
      modifies this`ptrs
      ensures ptrs == Dropped(old(ptrs), p)
      ensures delta == if old(ptrs)[p].refs == 1 then -old(ptrs)[p].memLen else 0
    {
      delta := 0;
      if ptrs[p].refs == 1 {
        delta := -ptrs[p].memLen;
        ptrs := ptrs - {p};
      } else {
        ptrs := ptrs[p := ptrs[p].(refs := ptrs[p].refs - 1)];
      }
    }

    method Delete(k: int) returns (delta: int)
      requires Valid() && k in at
      modifies this, q
      ensures Valid() && at == old(at) - {k} && curDirtyID == old(curDirtyID)
      ensures delta == Memory() - old(Memory()) && (old(at)[k].data.Nil? ==> delta == 0)
      ensures if old(at)[k].data.Mem? then Releases(old(ptrs), ptrs, old(at)[k].data.ptr, delta) else ptrs == old(ptrs)
      ensures OthersKept(old(q.cleanQueue), q.cleanQueue, inode) && q.curQueueID == old(q.curQueueID)
    {
      hide Indexed, CountsSharers, PartHelper, CellAt, Releases;
      var b := at[k];
      ghost var m := at;
      delta := 0;
      if b.data.Mem? {
        delta := ReleaseMemory(k);
      } else {
        CountsSharersPlain(m, k, b, ptrs, nextPtr);
      }
      at := at - {k};
      Unqueue(b, m, k);
    }

    /** Stores a new buffer whose bytes nothing covers; its memory is already accounted for. */
    method Store(b: FileBuffer)
      requires PartHelper(part) && Shape(at) && DistinctIds(at, curDirtyID) && Indexed(at)
      requires b.WellFormed() && Vacant(at, b.offset, b.End())
      requires b.End() !in at ==> DistinctIds(at[b.End() := b], curDirtyID)
      requires b.End() !in at ==> CountsSharers(at[b.End() := b], ptrs, nextPtr)
      modifies this`at, this`uncleanCount, this`dirtyParts, this`dirtyQueue, this`dirtyQid, q
      ensures Valid() && old(b.End() !in at)
      ensures b.End() in at && at == old(at)[b.End() := b.(queueId := at[b.End()].queueId)]
      ensures OthersKept(old(q.cleanQueue), q.cleanQueue, inode)
    {
      ghost var m := at;
      InsertShape(m, b);
      var r := Queue(b, m, b.End());
      at := at[b.End() := r];
      IgnoreQueueId(m, b.End(), b, r, curDirtyID, ptrs, nextPtr);
    }

    /** Removes [lo, hi) from the one buffer at `k`, splitting it where an edge falls inside. */
    method Cut(k: int, lo: nat, hi: nat) returns (delta: int)
      requires Valid() && k in at && lo < hi && lo < k && at[k].offset < hi
      modifies this, q
      ensures Valid() && curDirtyID >= old(curDirtyID)
      ensures IsCut(old(at), at, k, lo, hi, old(curDirtyID))
      ensures delta == Memory() - old(Memory())
    {
      ghost var m0, cur0 := at, curDirtyID;
      var b := at[k];
      var rm := k;
      if hi < k {
        var _, _ := Split(rm, hi);
        rm := hi;
      }
      ghost var m1, cur1 := at, curDirtyID;
      if b.offset < lo {
        var _, _ := Split(rm, lo);
      }
      ghost var m2, cur2 := at, curDirtyID;
      delta := Delete(rm);
      CutAbove(m0, m1, m2, at, k, rm, lo, hi, cur0, cur1, cur2);
      forall x: int { CutCells(m0, m1, m2, at, k, rm, lo, hi, cur0, cur1, cur2, x); }
    }

    /** The first buffer an ascending scan of the tree meets from `start` on. */
    method Ascend(start: int) returns (r: Option<int>)
      ensures IsFirst(at, start, r)
    {
      r := FirstFrom(at, start);
    }

    /** One turn of the RemoveRange walk over `m`, at the buffer stored at `k`. */
    method RemoveNext(k: int, lo: nat, hi: nat, filter: Filter, ghost m: Buffers, ghost cur: nat, ghost cursor: int)
      returns (delta: int)
      requires Valid() && curDirtyID >= cur && Shape(m) && SameFrom(m, at, cursor)
      requires ErasedUpTo(m, at, cur, lo, hi, filter, cursor)
      requires lo < hi && lo < cursor && IsNext(at, cursor, k) && at[k].offset < hi
      modifies this, q
      ensures Valid() && curDirtyID >= cur && SameFrom(m, at, k + 1)
      ensures ErasedUpTo(m, at, cur, lo, hi, filter, k + 1)
      ensures delta == Memory() - old(Memory())
    {
      ghost var m', cur' := at, curDirtyID;
      delta := 0;
      if filter.Passes(at[k].kind) {
        delta := Cut(k, lo, hi);
      }
      EraseStep(m, m', at, cur, cur', lo, hi, filter, cursor, k, k + 1);
    }

    /** An empty range must not fall inside a buffer: the walk would split the buffer and lose a piece of it. */
    method RemoveRange(removeOffset: nat, removeSize: nat, filter: Filter) returns (delta: int)
      requires Valid() && (removeSize > 0 || BoundaryAt(at, removeOffset))
      modifies this, q
      ensures Valid() && curDirtyID >= old(curDirtyID)
      ensures Erased(old(at), at, old(curDirtyID), removeOffset, removeOffset + removeSize, filter)
      ensures delta == Memory() - old(Memory())
    {
      hide Indexed, CountsSharers, DistinctIds, PartHelper, CellAt, ErasedUpTo, Erased;
      var endOffset := removeOffset + removeSize;
      delta := 0;
      var cursor := removeOffset + 1;
      ghost var m, cur := at, curDirtyID;
      EraseStart(m, cur, removeOffset, endOffset, filter, cursor);
      var next := Ascend(cursor);
      while next.Some? && at[next.value].offset < endOffset
        invariant Valid() && curDirtyID >= cur && cursor > removeOffset
        invariant SameFrom(m, at, cursor) && IsFirst(at, cursor, next)
        invariant removeSize == 0 ==> BoundaryAt(at, removeOffset)
        invariant ErasedUpTo(m, at, cur, removeOffset, endOffset, filter, cursor)
        invariant delta == Memory() - old(Memory())
        decreases KeysFrom(m, cursor)
      {
        var k := next.value;
        KeysShrink(m, cursor, k);
        var d := RemoveNext(k, removeOffset, endOffset, filter, m, cur, cursor);
        delta := delta + d;
        cursor := k + 1;
        next := Ascend(cursor);
      }
      EraseEnd(m, at, cur, removeOffset, endOffset, filter, cursor, next);
    }

    /** Stores `data` as a buffer of its own, over a copy or over the caller's array. */
    method InsertNew(offset: nat, data: seq<byte>, cap: nat, state: BufferState, id: nat, ptr: nat, memLen: nat,
                     ghost cur: nat)
      requires Valid() && 0 < |data| <= cap && Vacant(at, offset, offset + |data|) && ptr < nextPtr
      requires (state.Clean? && id == 0) || (state.Dirty? && id == curDirtyID && FreshId(at, id))
      modifies this, q
      ensures Valid() && curDirtyID == old(curDirtyID)
      ensures Filled(old(at), at, cur, offset, data, state, id)
      ensures ptr in ptrs && nextPtr == old(nextPtr) && at.Keys == old(at).Keys + {offset + |data|}
      ensures Memory() == old(Memory()) + if ptr in old(ptrs) then 0 else memLen
    {
      hide Indexed, PartHelper, CellAt, Vacant, Filled;
      var b := FileBuffer(offset, |data|, Kind(state, false, false, false), id, 0, Mem(data, cap, ptr));
      ghost var m, oldPtrs := at, ptrs;
      InsertShape(m, b);
      CountsSharersWith(m, b.End(), b, memLen, oldPtrs, nextPtr, nextPtr);
      ptrs := Shared(ptrs, ptr, memLen);
      Store(b);
      FillNew(m, b, at[b.End()].queueId, at, cur);
    }

    /** Extends `b`, the buffer at `k` of `m`, by `data`: in place, or in a larger array. */
    method Append(b: FileBuffer, data: seq<byte>, id: nat, ghost m: Buffers, ghost k: int)
      returns (r: FileBuffer, delta: int)
      requires CountsSharers(m, ptrs, nextPtr) && k in m && m[k] == b && k + |data| !in m - {k}
      requires b.data.Mem? && |b.data.bytes| == b.length && ptrs[b.data.ptr].refs == 1
      modifies this`ptrs, this`nextPtr
      ensures r.data.Mem? && r.data.cap >= b.length + |data|
      ensures var newLen := b.length + |data|;
              r.data.cap ==
              if b.data.cap >= newLen then b.data.cap else if 2 * b.length > newLen then 2 * b.length else newLen
      ensures r.data.ptr == b.data.ptr <==> b.data.cap >= b.length + |data|
      ensures r == Extended(b, data, id, r.data.cap, r.data.ptr)
      ensures CountsSharers((m - {k})[k + |data| := r], ptrs, nextPtr)
      ensures delta == Memory() - old(Memory()) && nextPtr >= old(nextPtr)
    {
      var oldLen, newLen := |b.data.bytes|, |b.data.bytes| + |data|;
      ghost var oldPtrs, oldNext := ptrs, nextPtr;
      if b.data.cap >= newLen {
        r, delta := Extended(b, data, id, b.data.cap, b.data.ptr), 0;
        CountsSharersMoved(m, k, k + |data|, r, ptrs[b.data.ptr].memLen, oldPtrs, oldNext, nextPtr);
        assert ptrs == Shared(Dropped(oldPtrs, b.data.ptr), r.data.ptr, ptrs[b.data.ptr].memLen);
      } else {
        var newCap := if newLen < 2 * oldLen then 2 * oldLen else newLen;
        delta := DropRef(b.data.ptr);
        delta := delta + newCap;
        r := Extended(b, data, id, newCap, nextPtr);
        nextPtr := nextPtr + 1;
        ptrs := ptrs[r.data.ptr := BufferPointer(newCap, 1)];
        CountsSharersMoved(m, k, k + |data|, r, newCap, oldPtrs, oldNext, nextPtr);
        assert ptrs == Shared(Dropped(oldPtrs, b.data.ptr), r.data.ptr, newCap);
      }
    }

    method AppendTo(k: int, data: seq<byte>, id: nat, ghost cur: nat) returns (delta: int)
      requires Valid() && k in at && at[k].data.Mem? && ptrs[at[k].data.ptr].refs == 1
      requires |data| > 0 && Vacant(at, k, k + |data|)
      requires if at[k].kind.state.Dirty? then id == curDirtyID && id > cur && FreshId(at, id) else id == 0
      modifies this, q
      ensures Valid() && curDirtyID == old(curDirtyID) && nextPtr >= old(nextPtr)
      ensures Filled(old(at), at, cur, k, data, old(at)[k].kind.state, id)
      ensures delta == Memory() - old(Memory()) && at.Keys == old(at).Keys - {k} + {k + |data|}
    {
      hide Indexed, CountsSharers, PartHelper, CellAt, Shape;
      StoredBuffer(at, k);
      var b := at[k];
      ghost var m := at;
      ExtendShape(m, k, data, id, b.data.cap + |data|, 0);
      InsertShape(m - {k}, Extended(b, data, id, b.data.cap + |data|, 0));
      var r;
      r, delta := Append(b, data, id, m, k);
      Unqueue(b, m, k);
      at := at - {k};
      ExtendShape(m, k, data, id, r.data.cap, r.data.ptr);
      DistinctIdsMoved(m, k, r.End(), r, curDirtyID);
      Store(r);
      FillExtend(m, k, data, id, r.data.cap, r.data.ptr, at[r.End()].queueId, at, cur);
    }

    /** The last buffer that ends at or before `limit`. */
    method Descend(limit: nat) returns (r: Option<int>)
      requires Shape(at)
      ensures r.Some? ==> r.value in at && r.value <= limit
      ensures forall j: int :: j in at && j <= limit ==> r.Some? && j <= r.value
    {
      r := LastUpTo(at, limit);
    }

    /**
     Puts `data` into a gap: appended to the buffer that ends where it starts when that is
     safe and profitable, else as a new buffer over a copy or over the caller's array.
     */
    method InsertOrAppend(offset: nat, data: seq<byte>, cap: nat, state: BufferState, copyData: bool, dataPtr: nat,
                          memLen: nat)
      returns (delta: int)
      requires Valid() && 0 < |data| <= cap && Vacant(at, offset, offset + |data|) && dataPtr < nextPtr
      requires state.Clean? || state.Dirty?
      modifies this, q
      ensures Valid() && curDirtyID == old(curDirtyID) + if state.Dirty? then 1 else 0
      ensures Filled(old(at), at, old(curDirtyID), offset, data, state, if state.Dirty? then curDirtyID else 0)
      ensures copyData ==> delta == Memory() - old(Memory())
      ensures nextPtr >= old(nextPtr)
      ensures var m := old(at);
              var appended := && copyData && offset in m && part(m[offset].offset) == part(offset)
                && m[offset].kind.state == state && m[offset].data.Mem? && m[offset].data.ptr in old(ptrs)
                && old(ptrs)[m[offset].data.ptr].refs == 1
                && (|m[offset].data.bytes| + |data| <= m[offset].data.cap || m[offset].data.cap <= 1024 * 1024);
              at.Keys == m.Keys - (if appended then {offset} else {}) + {offset + |data|}
      ensures !copyData ==> delta == |data| && dataPtr in ptrs
      ensures !copyData ==> Memory() == old(Memory()) + if dataPtr in old(ptrs) then 0 else memLen
    {
      hide Indexed, CountsSharers, PartHelper, CellAt, Vacant, Filled, Shape;
      ghost var cur := curDirtyID;
      VacantEnd(at, offset, offset + |data|);
      var id := 0;
      if state.Dirty? {
        id := NextID();
      }
      var end := offset + |data|;
      var prev := Descend(end);
      // The source panics when a buffer already ends here; the gap rules that out.
      assert prev != Some(end);
      if copyData && prev == Some(offset) && CanAppend(at[offset], offset, state, |data|) {
        delta := AppendTo(offset, data, id, cur);
      } else if copyData {
        var ptr := NewPointer();
        InsertNew(offset, data, |data|, state, id, ptr, |data|, cur);
        delta := |data|;
      } else {
        InsertNew(offset, data, cap, state, id, dataPtr, memLen, cur);
        delta := |data|;
      }
    }

    predicate CanAppend(prev: FileBuffer, offset: nat, state: BufferState, size: nat)
      reads this
    {
      && part(prev.offset) == part(offset)
      && prev.kind.state == state
      && prev.data.Mem? && prev.data.ptr in ptrs && ptrs[prev.data.ptr].refs == 1
      && (|prev.data.bytes| + size <= prev.data.cap || prev.data.cap <= MAX_BUF / 2)
    }

    /** Passes the buffers that cover `curOffset` and on, and finds the gap behind them. */
    method NextGap(curOffset: nat, endOffset: nat) returns (s: nat, e: nat)
      requires Shape(at)
      ensures curOffset <= s && Covered(at, curOffset, s)
      ensures s < endOffset ==> s < e <= endOffset && Vacant(at, s, e)
    {
      s, e := curOffset, endOffset;
      var next := Ascend(s + 1);
      while s < endOffset && next.Some? && at[next.value].offset <= s
        invariant curOffset <= s && Covered(at, curOffset, s) && IsFirst(at, s + 1, next)
        decreases endOffset - s
      {
        CoveredAhead(at, s, next.value);
        s := next.value;
        next := Ascend(s + 1);
      }
      if s < endOffset {
        if next.Some? && at[next.value].offset < endOffset {
          e := at[next.value].offset;
        }
        GapAhead(at, s, next, e);
      }
    }

    /** Fills one gap of the walk over the gaps of `m`. */
    method FillNext(offset: nat, data: seq<byte>, cap: nat, state: BufferState, copyData: bool, dataPtr: nat, s: nat,
                    e: nat, ghost m: Buffers, ghost cur: nat)
      returns (delta: int)
      requires Valid() && |data| <= cap && dataPtr < nextPtr && (state.Clean? || state.Dirty?)
      requires curDirtyID >= cur && offset <= s < e <= offset + |data| && Vacant(at, s, e)
      requires GapsFilled(m, at, cur, offset, data, state, s)
      modifies this, q
      ensures Valid() && curDirtyID >= cur && GapsFilled(m, at, cur, offset, data, state, e) && dataPtr < nextPtr
      ensures copyData ==> delta == Memory() - old(Memory())
      ensures !copyData ==> delta == e - s && dataPtr in ptrs
      ensures !copyData ==> Memory() == old(Memory()) + if dataPtr in old(ptrs) then 0 else |data|
    {
      ghost var m', cur' := at, curDirtyID;
      delta := InsertOrAppend(s, data[s - offset..e - offset], cap - (s - offset), state, copyData, dataPtr, |data|);
      GapsStep(m, m', at, cur, cur', offset, data, state, s, e, if state.Dirty? then curDirtyID else 0);
    }

    /** The walk of `fill` that gives every gap of the range its part of `data`. */
    method FillGaps(offset: nat, data: seq<byte>, cap: nat, state: BufferState, copyData: bool, dataPtr: nat)
      returns (delta: int)
      requires Valid() && |data| <= cap && dataPtr < nextPtr && dataPtr !in ptrs
      requires state.Clean? || state.Dirty?
      modifies this, q
      ensures Valid() && curDirtyID >= old(curDirtyID)
      ensures GapsFilled(old(at), at, old(curDirtyID), offset, data, state, offset + |data|)
      ensures copyData ==> delta == Memory() - old(Memory())
      ensures !copyData ==> delta == GapCount(old(at), offset, offset + |data|)
      ensures !copyData ==> Memory() == old(Memory()) + if delta > 0 then |data| else 0
    {
      hide Indexed, CountsSharers, DistinctIds, PartHelper, CellAt, GapsFilled;
      var curOffset, endOffset := offset, offset + |data|;
      delta := 0;
      ghost var m, cur := at, curDirtyID;
      GapsStart(m, cur, offset, data, state);
      while curOffset < endOffset
        invariant Valid() && curDirtyID >= cur && offset <= curOffset && dataPtr < nextPtr
        invariant GapsFilled(m, at, cur, offset, data, state, curOffset)
        invariant copyData ==> delta == Memory() - old(Memory())
        invariant !copyData ==> (dataPtr in ptrs <==> delta > 0)
        invariant !copyData ==> delta == GapCount(m, offset, if curOffset < endOffset then curOffset else endOffset)
        invariant !copyData ==> Memory() == old(Memory()) + if delta > 0 then |data| else 0
      {
        var s, e := NextGap(curOffset, endOffset);
        GapsAdvance(m, at, cur, offset, data, state, curOffset, s, e);
        curOffset := s;
        if curOffset < endOffset {
          var d := FillNext(offset, data, cap, state, copyData, dataPtr, s, e, m, cur);
          delta := delta + d;
          curOffset := e;
        }
      }
      GapsClamp(m, at, cur, offset, data, state, curOffset);
    }

    /**
     Adds data to the list. Anything it may overwrite goes; unclean bytes stay when the data
     is clean. The reported memory change is exact unless the caller's array is kept
     (`copyData` false) while only part of it found room.
     */
    method Add(offset: nat, data: seq<byte>, cap: nat, state: BufferState, copyData: bool) returns (delta: int)
      requires Valid() && 0 < |data| <= cap && (state.Clean? || state.Dirty?)
      modifies this, q
      ensures Valid() && curDirtyID >= old(curDirtyID)
      ensures Added(old(at), at, old(curDirtyID), offset, data, state)
      ensures delta == Memory() - old(Memory()) <==>
              copyData || WritableCount(old(at), state, offset, offset + |data|) in {0, |data|}
    {
      hide Indexed, CountsSharers, DistinctIds, PartHelper, Shape, CellAt, Erased, GapsFilled, Added;
      ghost var m, cur := at, curDirtyID;
      delta := RemoveRange(offset, |data|, Overwritten(state));
      ghost var m1, cur1 := at, curDirtyID;
      var dataPtr := NewPointer();
      var d := FillGaps(offset, data, cap, state, copyData, dataPtr);
      delta := delta + d;
      AddCompose(m, m1, at, cur, cur1, offset, data, state);
      WritableIsGap(m, m1, cur, offset, offset + |data|, state, offset + |data|);
    }

    method ZeroRange(offset: nat, size: nat) returns (zeroed: bool, delta: int)
      requires Valid()
      modifies this, q
      ensures Valid() && delta == Memory() - old(Memory())
      ensures zeroed ==> size > 0 && curDirtyID > old(curDirtyID)
                         && Zeroed(old(at), at, old(curDirtyID), offset, offset + size, curDirtyID)
      ensures zeroed <==> size > 0 && !exists k: int :: k in old(at) && old(at)[k].kind.zero
                                                        && old(at)[k].offset <= offset && offset + size <= k
      ensures !zeroed ==> at == old(at) && curDirtyID == old(curDirtyID)
                          && forall x: int :: offset <= x < offset + size ==>
                                              CellAt(at, x).Some? && CellAt(at, x).value.kind.zero
    {
      hide Indexed, PartHelper, DistinctIds, CountsSharers, CellAt, Erased, Zeroed, Vacant, FreshId;
      if size == 0 {
        return false, 0;
      }
      var existing := Ascend(offset + 1);
      forall k: int | k in at && at[k].offset <= offset && offset + size <= k ensures existing == Some(k) {}
      if existing.Some? && at[existing.value].kind.zero && at[existing.value].offset <= offset
         && existing.value >= offset + size {
        forall x: int | offset <= x < offset + size { CoveredCell(at, existing.value, x); }
        return false, 0;
      }
      zeroed := true;
      ghost var m, cur := at, curDirtyID;
      delta := RemoveRange(offset, size, Everything);
      ErasedIsVacant(m, at, cur, offset, offset + size);
      ghost var m1 := at;
      var id := NextID();
      var b := FileBuffer(offset, size, Kind(Dirty, false, false, true), id, 0, Nil);
      InsertShape(at, b);
      DistinctIdsWith(at, offset + size, b, id - 1, id);
      CountsSharersPlain(at, offset + size, b, ptrs, nextPtr);
      Store(b);
      ZeroCompose(m, m1, at, cur, offset, offset + size, id, at[offset + size].queueId);
    }

    method SplitAt(offset: nat)
      requires Valid()
      modifies this, q
      ensures Valid() && curDirtyID >= old(curDirtyID) && AllKept(old(at), at, old(curDirtyID))
      ensures BoundaryAt(at, offset) && forall o: int :: BoundaryAt(old(at), o) ==> BoundaryAt(at, o)
      ensures Memory() == old(Memory())
      ensures if BoundaryAt(old(at), offset) then at == old(at) else at.Keys == old(at).Keys + {offset}
    {
      hide Indexed, CountsSharers, DistinctIds, PartHelper;
      var k := Ascend(offset + 1);
      if k.Some? && at[k.value].offset < offset {
        ghost var m, cur := at, curDirtyID;
        var _, _ := Split(k.value, offset);
        SplitKeeps(m, at, k.value, offset, cur, curDirtyID);
      }
    }

    /** Moves the buffer at `k` to `state` and clears its dirty id. */
    method Restate(k: int, state: BufferState)
      requires Valid() && k in at && InState(at[k], state).WellFormed()
      modifies this, q
      ensures Valid() && curDirtyID == old(curDirtyID) && Memory() == old(Memory())
      ensures k in at && at == old(at)[k := InState(old(at)[k], state).(queueId := at[k].queueId)]
    {
      hide QueueOfParts, CountsDirty, QueuesClean, CellAt;
      ghost var m := at;
      Unqueue(at[k], m, k);
      var r := Queue(InState(at[k], state), m - {k}, k);
      assert (m - {k})[k := r] == m[k := r];
      KeepsAccounts(m, k, r, curDirtyID, ptrs, nextPtr);
      ReplaceCells(m, k, r, 0);
      at := at[k := r];
    }

    /** Visits every buffer that meets the range (and at most one after it) and restates those collected in `ids`. */
    method SetState(offset: nat, size: nat, ids: set<nat>, state: BufferState) returns (ghost cursor: int)
      requires Valid() && (state.Clean? || state.FlushedFull? || state.FlushedCut?)
      modifies this, q
      ensures Valid() && curDirtyID == old(curDirtyID) && Memory() == old(Memory())
      ensures Restated(old(at), at, ids, state, offset + 1, cursor)
      ensures forall k: int :: k in old(at) && offset < k && old(at)[k].offset < offset + size ==> k < cursor
      ensures offset + size > 0 ==> forall j: int, k: int :: j in old(at) && k in old(at) && offset < j < k < cursor ==>
                                      old(at)[j].offset < offset + size - 1
    {
      hide Indexed, CountsSharers, DistinctIds, PartHelper, CellAt, Restated, Shape, VisitedTo;
      // offset + size - 1 in 64-bit arithmetic
      var last := if offset + size == 0 then 0xFFFF_FFFF_FFFF_FFFF else offset + size - 1;
      ghost var m := at;
      var start := offset + 1;
      RestateStart(m, ids, state, start);
      VisitedStart(m, offset, last);
      var done := false;
      var next := Ascend(start);
      while next.Some? && !done
        invariant Valid() && curDirtyID == old(curDirtyID) && Memory() == old(Memory())
        invariant offset < start && SameFrom(m, at, start) && IsFirst(at, start, next)
        invariant Restated(m, at, ids, state, offset + 1, start)
        invariant done ==> AllPast(m, start, last)
        invariant VisitedTo(m, offset, start, last, done)
        decreases KeysFrom(m, start)
      {
        var k := next.value;
        KeysShrink(m, start, k);
        ghost var m' := at;
        StoredBuffer(at, k);
        if at[k].dirtyID != 0 && at[k].dirtyID in ids {
          Restate(k, state);
        }
        done := !(at[k].offset < last);
        if done { PastLast(m, k, last); }
        VisitedNext(m, offset, start, k, last, done);
        RestateStep(m, m', at, ids, state, offset + 1, start, k, k + 1, at[k].queueId);
        start := k + 1;
        next := Ascend(start);
      }
      cursor := start;
      VisitedOnly(m, offset, start, last, done);
    }

    method SetFlushedClean()
      requires Valid()
      modifies this, q
      ensures Valid() && curDirtyID == old(curDirtyID) && Memory() == old(Memory())
      ensures forall x: int {:trigger CellAt(at, x)} :: CellAt(at, x) == Settled(CellAt(old(at), x))
    {
      hide Indexed, CountsSharers, DistinctIds, PartHelper, CellAt;
      ghost var m := at;
      SettleStart(m);
      var start := 0;
      var next := Ascend(start);
      while next.Some?
        invariant Valid() && curDirtyID == old(curDirtyID) && Memory() == old(Memory())
        invariant SettledUpTo(m, at, start) && IsFirst(at, start, next)
        decreases KeysFrom(m, start)
      {
        var k := next.value;
        KeysShrink(m, start, k);
        SettleNext(k, m, start);
        start := k + 1;
        next := Ascend(start);
      }
      forall x: int ensures CellAt(at, x) == Settled(CellAt(m, x)) { SettleEnd(m, at, start, x); }
    }

    /** One turn of the SetFlushedClean walk over `m`. */
    method SettleNext(k: int, ghost m: Buffers, ghost start: int)
      requires Valid() && Shape(m) && SettledUpTo(m, at, start) && IsNext(at, start, k)
      modifies this, q
      ensures Valid() && curDirtyID == old(curDirtyID) && Memory() == old(Memory())
      ensures SettledUpTo(m, at, k + 1)
    {
      hide Indexed, CountsSharers, DistinctIds, PartHelper, CellAt, SettledUpTo;
      ghost var m' := at;
      ghost var q := 0;
      if at[k].kind.state.FlCleared? {
        var d := Delete(k);
        assert d == 0;
      } else if at[k].kind.state.FlushedFull? || at[k].kind.state.FlushedCut? {
        Restate(k, Clean);
        q := at[k].queueId;
      }
      SettleStep(m, m', at, start, k, k + 1, q);
    }

    /** The buffer just before the one at `k`, when it can be merged with it once emptied. */
    method Mergeable(k: int, onDisk: bool) returns (p: Option<int>)
      requires Shape(at) && k in at && at[k].data.Mem? && at[k].Queued()
      ensures p.Some? ==> p.value in at && p.value == at[k].offset && at[p.value].data.Nil?
                          && at[p.value].kind == Emptied(at[k], onDisk).kind
      ensures p.None? ==> at[k].offset !in at || at[at[k].offset].kind.state != Emptied(at[k], onDisk).kind.state
                          || (onDisk && !(at[at[k].offset].data.Nil? && at[at[k].offset].kind.onDisk))
    {
      var kind := Emptied(at[k], onDisk).kind;
      p := Descend(at[k].offset);
      if p.Some? {
        var prev := at[p.value];
        if !(prev.End() == at[k].offset && prev.kind.state == kind.state
             && (onDisk ==> prev.data.Nil? && prev.kind.onDisk)) {
          p := None;
        }
      }
    }

    /** Replaces the buffer at `k` by its emptied form, merged with the buffer at `p` if there is one. */
    method Absorb(k: int, onDisk: bool, p: Option<int>)
      requires PartHelper(part) && Shape(at) && DistinctIds(at, curDirtyID) && Indexed(at)
      requires k in at && at[k].data.Mem? && at[k].Queued() && (onDisk || at[k].kind.state.FlushedFull?)
      requires p.Some? ==> p.value in at && p.value == at[k].offset && at[p.value].data.Nil?
                           && at[p.value].kind == Emptied(at[k], onDisk).kind
      requires CountsSharers(at - {k}, ptrs, nextPtr)
      modifies this`at, this`uncleanCount, this`dirtyParts, this`dirtyQueue, this`dirtyQid, q
      ensures Valid() && k in at && IsAbsorbed(old(at), k, onDisk, p, at[k])
      ensures at == Without(old(at) - {k}, p)[k := at[k]]
      ensures OthersKept(old(q.cleanQueue), q.cleanQueue, inode) && q.curQueueID >= old(q.curQueueID)
    {
      hide Indexed, DistinctIds, CountsSharers, PartHelper, CellAt, Shape;
      ghost var m := at;
      var r := Emptied(at[k], onDisk);
      StoredBuffer(m, k);
      Unqueue(at[k], m, k);
      at := at - {k};
      if p.Some? {
        StoredBuffer(m, p.value);
        var prev := at[p.value];
        r := r.(offset := prev.offset, length := prev.length + r.length);
        Unqueue(prev, at, p.value);
        at := at - {p.value};
      }
      AbsorbShape(m, k, onDisk, p, r);
      r := Queue(r, at, k);
      AbsorbShape(m, k, onDisk, p, r);
      AbsorbAccounts(m, k, p, r, curDirtyID, ptrs, nextPtr);
      at := at[k := r];
    }

    /** Empties the buffer at `k` in place: its bytes are on disk, its queue entry stays. */
    method KeepOnDisk(k: int)
      requires PartHelper(part) && Shape(at) && DistinctIds(at, curDirtyID) && Indexed(at)
      requires k in at && at[k].data.Mem? && at[k].Queued() && CountsSharers(at - {k}, ptrs, nextPtr)
      modifies this`at
      ensures Valid() && k in at && IsAbsorbed(old(at), k, true, None, at[k])
      ensures at == Without(old(at) - {k}, None)[k := at[k]] && at[k].queueId == old(at)[k].queueId
    {
      hide QueueOfParts, CellAt;
      ghost var m := at;
      var r := Emptied(at[k], true);
      OnDiskIsNotIndexed(m, k, r, part, dirtyParts, inode, q.cleanQueue, q.curQueueID);
      AbsorbShape(m, k, true, None, r);
      AbsorbAccounts(m, k, None, r, curDirtyID, ptrs, nextPtr);
      assert m[k := r] == Without(m - {k}, None)[k := r];
      at := at[k := r];
    }

    /**
     Drops the memory of a resident clean or fully flushed buffer. `onDisk` says that the
     bytes have just been written to the disk cache.
     */
    method EvictFromMemory(k: int, onDisk: bool) returns (delta: int, deleted: bool)
      requires Valid() && k in at && at[k].data.Mem? && at[k].Queued()
      modifies this, q
      ensures Valid() && curDirtyID == old(curDirtyID) && delta == Memory() - old(Memory())
      ensures Releases(old(ptrs), ptrs, old(at)[k].data.ptr, delta)
      ensures forall x: int :: EvictedAt(old(at), at, k, onDisk, x)
      ensures ResidentKeys(at) == ResidentKeys(old(at)) - {k}
      ensures var b, m := old(at)[k], old(at);
              var before := b.offset in m && m[b.offset].data.Nil? && m[b.offset].kind.onDisk == onDisk
                && m[b.offset].kind.state == if onDisk then b.kind.state else FlCleared;
              if b.kind.state.Clean? && !onDisk then deleted && at.Keys == m.Keys - {k}
              else
                && deleted == before && at.Keys == m.Keys - (if before then {b.offset} else {})
                && (onDisk && !before ==> at[k].queueId == b.queueId && q.cleanQueue == old(q.cleanQueue))
      ensures forall j: int :: j in at && at[j].data.Mem? ==> j in old(at) && at[j] == old(at)[j]
      ensures OthersKept(old(q.cleanQueue), q.cleanQueue, inode) && q.curQueueID >= old(q.curQueueID)
    {
      hide Indexed, DistinctIds, PartHelper, CellAt, CountsSharers, Releases;
      ghost var m := at;
      if !onDisk && at[k].kind.state.Clean? {
        delta := Delete(k);
        deleted := true;
        forall x: int { DeleteCells(m, k, x); }
        assert ResidentKeys(at) == ResidentKeys(m) - {k};
      } else {
        delta := ReleaseMemory(k);
        var p := Mergeable(k, onDisk);
        deleted := p.Some?;
        if onDisk && p.None? {
          KeepOnDisk(k);
        } else {
          Absorb(k, onDisk, p);
        }
        forall x: int { AbsorbCells(m, k, onDisk, p, at[k], x); }
        AbsorbResidents(m, k, onDisk, p, at[k]);
      }
    }

    /** Drops the reference of the buffer at `k` to its memory. */
    method ReleaseMemory(k: int) returns (delta: int)
      requires k in at && at[k].data.Mem? && CountsSharers(at, ptrs, nextPtr)
      modifies this`ptrs
      ensures CountsSharers(at - {k}, ptrs, nextPtr) && delta == Memory() - old(Memory())
      ensures Releases(old(ptrs), ptrs, at[k].data.ptr, delta)
    {
      CountsSharersWithout(at, k, ptrs, nextPtr);
      delta := DropRef(at[k].data.ptr);
    }

    /** The uncovered parts of the range, and whether a buffer that meets it is loading or evicted. */
    method GetHoles(offset: nat, size: nat) returns (holes: seq<Range>, loading: bool, flushCleared: bool)
      requires Shape(at)
      ensures Separated(holes) && ListsHoles(at, offset, offset + size, holes)
      ensures loading <==> exists k: int :: Meets(at, k, offset, offset + size) && at[k].kind.loading
      ensures flushCleared <==> exists k: int :: Meets(at, k, offset, offset + size) && at[k].kind.state.FlCleared?
      ensures size > 0 ==>
                && (loading <==> exists x: int :: offset <= x < offset + size && CellAt(at, x).Some?
                                                  && CellAt(at, x).value.kind.loading)
                && (flushCleared <==> exists x: int :: offset <= x < offset + size && CellAt(at, x).Some?
                                                       && CellAt(at, x).value.kind.state.FlCleared?)
    {
      hide CellAt, Shape, HolesUpTo, AnyLoading, AnyCleared, ListsHoles, Separated;
      if size > 0 { AnyOfBytes(at, offset, offset + size); }
      var curOffset, endOffset := offset, offset + size;
      holes, loading, flushCleared := [], false, false;
      HolesStart(at, offset, endOffset);
      var next := Ascend(curOffset + 1);
      while next.Some? && at[next.value].offset < endOffset
        invariant offset <= curOffset && IsFirst(at, curOffset + 1, next)
        invariant HolesUpTo(at, offset, endOffset, holes, curOffset)
        invariant loading <==> AnyLoading(at, offset, endOffset, curOffset)
        invariant flushCleared <==> AnyCleared(at, offset, endOffset, curOffset)
        decreases KeysFrom(at, curOffset + 1)
      {
        var k := next.value;
        var b := at[k];
        KeysShrink(at, curOffset + 1, k);
        ghost var before, from := holes, curOffset;
        if b.offset > curOffset {
          holes := holes + [Range(curOffset, b.offset)];
        }
        HolesStep(at, offset, endOffset, before, from, k, holes);
        AnyStep(at, offset, endOffset, from, k);
        StoredBuffer(at, k);
        curOffset := k;
        loading := loading || b.kind.loading;
        flushCleared := flushCleared || b.kind.state.FlCleared?;
        next := Ascend(curOffset + 1);
      }
      ghost var before := holes;
      if curOffset < endOffset {
        holes := holes + [Range(curOffset, endOffset)];
      }
      HolesEnd(at, offset, endOffset, before, curOffset, next, holes);
      AnyEnd(at, offset, endOffset, curOffset);
    }

    /** The bytes of the range in memory order, with the dirty ids they carry if asked for. */
    method GetData(offset: nat, size: nat, returnIds: bool) returns (r: ReadResult)
      requires Shape(at)
      ensures r.Data? ==> |Flat(r.chunks)| == size && Holds(at, offset, Flat(r.chunks))
      ensures r.Data? && returnIds && size > 0 ==> CollectsIds(at, offset, offset + size, r.ids)
      ensures r.Data? && (!returnIds || offset + size == 0) ==> r.ids == {}
      ensures !r.Data? && size > 0 ==> ReadFails(at, offset, offset + size, r)
      ensures !r.Data? && size == 0 ==> EmptyReadFails(at, offset, r)
      ensures r.Data? && size == 0 ==> CellAt(at, offset).Some? || forall k: int :: k in at ==> k <= offset
    {
      hide CellAt, Holds, CollectsIds, ReadFails, Piece, EmptyReadFails;
      var curOffset, endOffset := offset, offset + size;
      var data: seq<seq<byte>>, ids: set<nat> := [], {};
      EmptyRead(at, offset);
      var next := Ascend(curOffset + 1);
      ghost var gap := next.Some? && at[next.value].offset > offset;
      if !gap { NoGapAt(at, offset, next); }
      var more := true;
      while next.Some? && more
        invariant offset <= curOffset <= endOffset && IsFirst(at, curOffset + 1, next)
        invariant if more then curOffset < endOffset || size == 0 else curOffset == endOffset
        invariant |Flat(data)| == curOffset - offset && Holds(at, offset, Flat(data))
        invariant returnIds && size > 0 ==> CollectsIds(at, offset, curOffset, ids)
        invariant !returnIds || endOffset == 0 ==> ids == {}
        invariant size == 0 && gap ==> next.Some? && more && at[next.value].offset > curOffset
        decreases more, KeysFrom(at, curOffset + 1)
      {
        var k := next.value;
        var b := at[k];
        if b.offset > curOffset {
          if size > 0 { ReadStops(at, offset, endOffset, Flat(data), curOffset, next, Missing); }
          if size == 0 { EmptyReadStops(at, offset, k, Missing); }
          return Missing;
        }
        if b.offset >= endOffset {
          break;
        }
        var curEnd := if endOffset < k then endOffset else k;
        ghost var bytes, ids0 := Flat(data), ids;
        if returnIds && b.dirtyID != 0 {
          ids := ids + {b.dirtyID};
        }
        if b.kind.loading {
          if size > 0 { ReadStops(at, offset, endOffset, bytes, curOffset, next, Loading); }
          if size == 0 { EmptyReadStops(at, offset, k, Loading); }
          return Loading;
        }
        if !b.kind.zero && b.data.Nil? {
          if size > 0 { ReadStops(at, offset, endOffset, bytes, curOffset, next, Crash); }
          if size == 0 { EmptyReadStops(at, offset, k, Crash); }
          return Crash;
        }
        data := AppendPiece(data, b, curOffset, curEnd);
        if size > 0 {
          ReadStep(at, offset, bytes, k, curOffset, curEnd, ids0, ids, returnIds);
        } else {
          assert Flat(data) == bytes;
        }
        KeysShrink(at, curOffset + 1, k);
        curOffset := curEnd;
        more := curOffset < endOffset;
        next := Ascend(curOffset + 1);
      }
      if curOffset < endOffset {
        ReadStops(at, offset, endOffset, Flat(data), curOffset, next, Missing);
        return Missing;
      }
      return Data(data, ids);
    }

    /** Every gap of the range gets a buffer that stands for data on its way. */
    method AddLoading(offset: nat, size: nat)
      requires Valid()
      modifies this, q
      ensures Valid() && curDirtyID == old(curDirtyID) && Memory() == old(Memory())
      ensures Marked(old(at), at, offset, offset + size)
    {
      hide Indexed, PartHelper, CellAt, Marked;
      var curOffset, endOffset := offset, offset + size;
      ghost var m := at;
      MarkStart(m, offset);
      while curOffset < endOffset
        invariant Valid() && curDirtyID == old(curDirtyID) && Memory() == old(Memory())
        invariant offset <= curOffset && Marked(m, at, offset, curOffset)
        invariant curOffset > endOffset ==> Covered(m, endOffset, curOffset)
      {
        var s, e := NextGap(curOffset, endOffset);
        MarkedAhead(m, at, offset, curOffset, endOffset, s);
        MarkSkip(m, at, offset, curOffset, s);
        curOffset := s;
        if curOffset < endOffset {
          ghost var m' := at;
          var b := FileBuffer(s, e - s, LOADING_CELL.kind, 0, 0, Nil);
          InsertShape(at, b);
          DistinctIdsWith(at, e, b, curDirtyID, curDirtyID);
          CountsSharersPlain(at, e, b, ptrs, nextPtr);
          Store(b);
          MarkStep(m, m', at, offset, s, e, at[e].queueId);
          curOffset := e;
        }
      }
      MarkClamp(m, at, offset, endOffset, curOffset);
    }

    method AnyUnclean() returns (r: bool)
      requires Valid()
      ensures r <==> exists k: int :: k in at && !at[k].kind.state.Clean?
    {
      r := uncleanCount > 0;
      if k: int :| k in at && !at[k].kind.state.Clean? {
        assert k in UncleanKeys(at);
      } else {
        NoneUnclean(at);
      }
    }

    method AnyFlushed(offset: nat, size: nat) returns (flushed: bool)
      requires Shape(at)
      ensures flushed <==> exists k: int :: Meets(at, k, offset, offset + size) && at[k].Flushed()
    {
      flushed := false;
      var start := offset + 1;
      var next := Ascend(start);
      while next.Some? && at[next.value].offset < offset + size && !flushed
        invariant offset < start && IsFirst(at, start, next)
        invariant flushed ==> exists k: int :: Meets(at, k, offset, offset + size) && at[k].Flushed()
        invariant !flushed ==> forall k: int :: Meets(at, k, offset, offset + size) && k < start ==> !at[k].Flushed()
        decreases !flushed, KeysFrom(at, start)
      {
        var k := next.value;
        KeysShrink(at, start, k);
        assert Meets(at, k, offset, offset + size);
        flushed := at[k].Flushed();
        start := k + 1;
        next := Ascend(start);
      }
    }

    /** What the flusher looks for in [lo, hi); a gap at the end counts as zero. */
    method PartStatus(lo: nat, hi: nat) returns (dirty: bool, evicted: bool, zero: bool, nonZero: bool)
      requires Shape(at)
      ensures dirty == Has(at, lo, hi, HasDirty) && evicted == Has(at, lo, hi, HasEvicted)
      ensures nonZero == Has(at, lo, hi, HasNonZero)
      ensures zero == (Has(at, lo, hi, HasZero) || !Has(at, lo, hi, ReachesEnd))
      ensures lo < hi ==>
                && (dirty <==>
                      exists x: int :: lo <= x < hi && CellAt(at, x).Some? && CellAt(at, x).value.kind.state.Dirty?)
                && (evicted <==>
                      exists x: int :: lo <= x < hi && CellAt(at, x).Some? && CellAt(at, x).value.kind.state.FlCleared?)
                && (nonZero <==>
                      exists x: int :: lo <= x < hi && CellAt(at, x).Some? && !CellAt(at, x).value.kind.zero)
                && (zero <==>
                      || CellAt(at, hi - 1).None?
                      || exists x: int :: lo <= x < hi && CellAt(at, x).Some? && CellAt(at, x).value.kind.zero)
    {
      hide Seen, CellAt, Has;
      if lo < hi { FeaturesOfBytes(at, lo, hi); }
      dirty, evicted, zero, nonZero := false, false, false, false;
      var full, start := false, lo + 1;
      var next := Ascend(start);
      forall t: Feature ensures !Seen(at, lo, hi, start, t) { NotSeen(at, lo, hi, t); }
      while next.Some? && at[next.value].offset < hi
        invariant lo < start && IsFirst(at, start, next)
        invariant dirty <==> Seen(at, lo, hi, start, HasDirty)
        invariant evicted <==> Seen(at, lo, hi, start, HasEvicted)
        invariant zero <==> Seen(at, lo, hi, start, HasZero)
        invariant nonZero <==> Seen(at, lo, hi, start, HasNonZero)
        invariant full <==> Seen(at, lo, hi, start, ReachesEnd)
        decreases KeysFrom(at, start)
      {
        var k := next.value;
        var b := at[k];
        KeysShrink(at, start, k);
        forall t: Feature ensures Seen(at, lo, hi, k + 1, t) <==> Seen(at, lo, hi, start, t) || HasFeature(b, t, hi) {
          SeenStep(at, lo, hi, start, k, t);
        }
        dirty := dirty || b.kind.state.Dirty?;
        evicted := evicted || b.kind.state.FlCleared?;
        zero := zero || b.kind.zero;
        nonZero := nonZero || !b.kind.zero;
        full := full || k >= hi;
        start := k + 1;
        next := Ascend(start);
      }
      forall t: Feature ensures Seen(at, lo, hi, start, t) <==> Has(at, lo, hi, t) {
        SeenEnd(at, lo, hi, start, next, t);
      }
      zero := zero || !full;
    }

    /** The dirty part queued first from position `start` on. */
    method NextDirtyPart(start: int) returns (r: Option<int>)
      ensures IsFirst(dirtyQueue, start, r)
    {
      r := FirstFrom(dirtyQueue, start);
    }
  }
}
