/**
 What the indexes kept beside a buffer list must say about it: the count of unclean
 buffers, the reference count and queue position of every dirty part, the queue of
 buffers that may leave memory, and the reference counts of shared memory.
 */
module BufferIndexes {
  import opened Options
  import opened FileBuffers
  import opened BufferChanges

  datatype DirtyPart = DirtyPart(queueId: nat, refcnt: nat)

  datatype QueuedBuffer = QueuedBuffer(inode: nat, end: int)

  datatype BufferPointer = BufferPointer(memLen: int, refs: int)

  /** What the list asks of the PartNum helper: parts are numbered in order, none is skipped. */
  ghost predicate PartHelper(part: nat -> nat)
  {
    && (forall x: nat, y: nat :: x <= y ==> part(x) <= part(y))
    && (forall x: nat :: part(x + 1) <= part(x) + 1)
  }

  ghost function UncleanKeys(m: Buffers): set<int>
  {
    set k: int | k in m && !m[k].kind.state.Clean?
  }

  lemma NoneUnclean(m: Buffers)
    requires forall k: int :: k in m ==> m[k].kind.state.Clean?
    ensures |UncleanKeys(m)| == 0
  {
    forall x: int ensures x !in UncleanKeys(m) { if x in m { } }
    assert UncleanKeys(m) !! UncleanKeys(m);
  }

  predicate OnPart(b: FileBuffer, part: nat -> nat, p: int)
  {
    b.length > 0 && part(b.offset) <= p <= part(b.End() - 1)
  }

  ghost function DirtyKeys(m: Buffers, part: nat -> nat, p: int): set<int>
  {
    set k: int | k in m && m[k].kind.state.Dirty? && OnPart(m[k], part, p)
  }

  function Refs(parts: map<int, DirtyPart>, p: int): nat
  {
    if p in parts then parts[p].refcnt else 0
  }

  /** The dirty queue lists each dirty part exactly once, under the id the part records. */
  ghost predicate QueueOfParts(parts: map<int, DirtyPart>, queue: map<int, int>, qid: nat)
  {
    && (forall p: int :: p in parts ==>
          parts[p].refcnt > 0 && parts[p].queueId in queue && queue[parts[p].queueId] == p)
    && (forall i: int :: i in queue ==> i <= qid && queue[i] in parts && parts[queue[i]].queueId == i)
  }

  ghost predicate CountsDirty(m: Buffers, part: nat -> nat, parts: map<int, DirtyPart>)
  {
    forall p: int :: Refs(parts, p) == |DirtyKeys(m, part, p)|
  }

  /** Clean and fully flushed buffers, and no others, sit in the clean queue, by end offset. */
  ghost predicate QueuesClean(m: Buffers, inode: nat, queue: map<int, QueuedBuffer>, cur: nat)
  {
    && (forall k: int :: k in m && m[k].Queued() ==>
          m[k].queueId in queue && queue[m[k].queueId] == QueuedBuffer(inode, k))
    && (forall i: int :: i in queue && queue[i].inode == inode ==>
          queue[i].end in m && m[queue[i].end].Queued() && m[queue[i].end].queueId == i)
    && (forall i: int :: i in queue ==> i <= cur)
  }

  ghost function Sharers(m: Buffers, p: int): set<int>
  {
    set k: int | k in m && m[k].data.Mem? && m[k].data.ptr == p
  }

  /** Live pointers are those some buffer uses, and each counts the buffers using it. */
  ghost predicate CountsSharers(m: Buffers, ptrs: map<int, BufferPointer>, next: nat)
  {
    && (forall p: int :: p in ptrs ==> p < next && ptrs[p].refs == |Sharers(m, p)| && ptrs[p].refs > 0)
    && (forall k: int :: k in m && m[k].data.Mem? ==> m[k].data.ptr in ptrs)
  }

  lemma HasPointer(m: Buffers, k: int, ptrs: map<int, BufferPointer>, next: nat)
    requires CountsSharers(m, ptrs, next) && k in m && m[k].data.Mem?
    ensures m[k].data.ptr in ptrs && m[k].data.ptr < next && ptrs[m[k].data.ptr].refs > 0
  {
  }

  function MemLen(ptrs: map<int, BufferPointer>, p: int): int
  {
    if p in ptrs then ptrs[p].memLen else 0
  }

  /** Bytes of memory held by the live pointers numbered below `n`. */
  function TotalMem(ptrs: map<int, BufferPointer>, n: nat): int
  {
    if n == 0 then 0 else TotalMem(ptrs, n - 1) + MemLen(ptrs, n - 1)
  }

  lemma {:induction false} TotalMemSame(a: map<int, BufferPointer>, b: map<int, BufferPointer>, n: nat)
    requires forall i: int :: i < n ==> MemLen(b, i) == MemLen(a, i)
    ensures TotalMem(b, n) == TotalMem(a, n)
  {
    if n > 0 { TotalMemSame(a, b, n - 1); }
  }

  lemma {:induction false} TotalMemChange(a: map<int, BufferPointer>, b: map<int, BufferPointer>, p: int, n: nat)
    requires 0 <= p < n
    requires forall i: int :: i != p ==> MemLen(b, i) == MemLen(a, i)
    ensures TotalMem(b, n) == TotalMem(a, n) + MemLen(b, p) - MemLen(a, p)
  {
    if p == n - 1 { TotalMemSame(a, b, n - 1); } else { TotalMemChange(a, b, p, n - 1); }
  }

  // ----- How each index moves when one buffer leaves, joins or is replaced -----

  lemma UncleanWithout(m: Buffers, k: int)
    requires k in m
    ensures |UncleanKeys(m - {k})| == |UncleanKeys(m)| - (if m[k].kind.state.Clean? then 0 else 1)
  {
    assert UncleanKeys(m - {k}) == UncleanKeys(m) - {k};
  }

  lemma UncleanWith(m: Buffers, k: int, b: FileBuffer)
    requires k !in m
    ensures |UncleanKeys(m[k := b])| == |UncleanKeys(m)| + (if b.kind.state.Clean? then 0 else 1)
  {
    assert m[k := b] - {k} == m;
    UncleanWithout(m[k := b], k);
  }

  lemma DirtyWithout(m: Buffers, part: nat -> nat, k: int, p: int)
    requires k in m
    ensures |DirtyKeys(m - {k}, part, p)| ==
            |DirtyKeys(m, part, p)| - (if m[k].kind.state.Dirty? && OnPart(m[k], part, p) then 1 else 0)
  {
    assert DirtyKeys(m - {k}, part, p) == DirtyKeys(m, part, p) - {k};
  }

  lemma DirtyWith(m: Buffers, part: nat -> nat, k: int, b: FileBuffer, p: int)
    requires k !in m
    ensures |DirtyKeys(m[k := b], part, p)| ==
            |DirtyKeys(m, part, p)| + (if b.kind.state.Dirty? && OnPart(b, part, p) then 1 else 0)
  {
    assert m[k := b] - {k} == m;
    DirtyWithout(m[k := b], part, k, p);
  }

  lemma SharersWithout(m: Buffers, k: int, p: int)
    requires k in m
    ensures |Sharers(m - {k}, p)| ==
            |Sharers(m, p)| - (if m[k].data.Mem? && m[k].data.ptr == p then 1 else 0)
  {
    assert Sharers(m - {k}, p) == Sharers(m, p) - {k};
  }

  lemma SharersWith(m: Buffers, k: int, b: FileBuffer, p: int)
    requires k !in m
    ensures |Sharers(m[k := b], p)| ==
            |Sharers(m, p)| + (if b.data.Mem? && b.data.ptr == p then 1 else 0)
  {
    assert m[k := b] - {k} == m;
    SharersWithout(m[k := b], k, p);
  }

  /** Splitting a dirty buffer adds a reference to at most one part: the one cut in two. */
  lemma DirtySplit(m: Buffers, part: nat -> nat, k: int, off: int, l: FileBuffer, r: FileBuffer, p: int)
    requires PartHelper(part) && k in m && off !in m && m[k].End() == k && m[k].offset < off < k
    requires l.offset == m[k].offset && l.End() == off && r.offset == off && r.End() == k
    requires l.kind == r.kind == m[k].kind
    ensures |DirtyKeys(m[k := r][off := l], part, p)| == |DirtyKeys(m, part, p)| +
            if m[k].kind.state.Dirty? && p == part(off - 1) == part(off) then 1 else 0
  {
    var m1 := m - {k};
    DirtyWithout(m, part, k, p);
    DirtyWith(m1, part, k, r, p);
    DirtyWith(m1[k := r], part, off, l, p);
    assert m1[k := r][off := l] == m[k := r][off := l];
    assert part(m[k].offset) <= part(off - 1) <= part(off) <= part(k - 1);
    assert part((off - 1) + 1) <= part(off - 1) + 1;
  }

  lemma UncleanSplit(m: Buffers, k: int, off: int, l: FileBuffer, r: FileBuffer)
    requires k in m && off !in m && off != k && l.kind == r.kind == m[k].kind
    ensures |UncleanKeys(m[k := r][off := l])| == |UncleanKeys(m)| + if m[k].kind.state.Clean? then 0 else 1
  {
    assert UncleanKeys(m[k := r]) == UncleanKeys(m);
    UncleanWith(m[k := r], off, l);
  }

  lemma SharersSplit(m: Buffers, k: int, off: int, l: FileBuffer, r: FileBuffer, p: int)
    requires k in m && off !in m && off != k
    requires m[k].data.Nil? ==> l.data.Nil? && r.data.Nil?
    requires m[k].data.Mem? ==> l.data.Mem? && r.data.Mem? && l.data.ptr == r.data.ptr == m[k].data.ptr
    ensures |Sharers(m[k := r][off := l], p)| == |Sharers(m, p)| +
            if m[k].data.Mem? && m[k].data.ptr == p then 1 else 0
  {
    assert Sharers(m[k := r], p) == Sharers(m, p);
    SharersWith(m[k := r], off, l, p);
  }

  // ----- The same, index by index -----

  lemma CountsDirtyWithout(m: Buffers, part: nat -> nat, k: int, a: map<int, DirtyPart>, b: map<int, DirtyPart>)
    requires k in m && CountsDirty(m, part, a)
    requires forall p: int ::
               Refs(b, p) == Refs(a, p) - if m[k].kind.state.Dirty? && OnPart(m[k], part, p) then 1 else 0
    ensures CountsDirty(m - {k}, part, b)
  {
    forall p: int ensures Refs(b, p) == |DirtyKeys(m - {k}, part, p)| { DirtyWithout(m, part, k, p); }
  }

  lemma CountsDirtyWith(m: Buffers, part: nat -> nat, k: int, f: FileBuffer, a: map<int, DirtyPart>,
                        b: map<int, DirtyPart>)
    requires k !in m && CountsDirty(m, part, a)
    requires forall p: int :: Refs(b, p) == Refs(a, p) + if f.kind.state.Dirty? && OnPart(f, part, p) then 1 else 0
    ensures CountsDirty(m[k := f], part, b)
  {
    forall p: int ensures Refs(b, p) == |DirtyKeys(m[k := f], part, p)| { DirtyWith(m, part, k, f, p); }
  }

  lemma CountsDirtySplit(m: Buffers, part: nat -> nat, k: int, off: int, l: FileBuffer, r: FileBuffer,
                         a: map<int, DirtyPart>, b: map<int, DirtyPart>)
    requires PartHelper(part) && k in m && off !in m && m[k].End() == k && m[k].offset < off < k
    requires l.offset == m[k].offset && l.End() == off && r.offset == off && r.End() == k
    requires l.kind == r.kind == m[k].kind && CountsDirty(m, part, a)
    requires forall p: int :: Refs(b, p) == Refs(a, p) +
               if m[k].kind.state.Dirty? && p == part(off - 1) == part(off) then 1 else 0
    ensures CountsDirty(m[k := r][off := l], part, b)
  {
    forall p: int ensures Refs(b, p) == |DirtyKeys(m[k := r][off := l], part, p)| {
      DirtySplit(m, part, k, off, l, r, p);
    }
  }

  lemma QueuesCleanWithout(m: Buffers, k: int, inode: nat, queue: map<int, QueuedBuffer>, cur: nat)
    requires k in m && QueuesClean(m, inode, queue, cur)
    ensures QueuesClean(m - {k}, inode, if m[k].Queued() then queue - {m[k].queueId} else queue, cur)
  {
  }

  lemma QueuesCleanWith(m: Buffers, k: int, b: FileBuffer, inode: nat, queue: map<int, QueuedBuffer>, cur: nat)
    requires k !in m && QueuesClean(m, inode, queue, cur)
    ensures !b.Queued() ==> QueuesClean(m[k := b], inode, queue, cur)
    ensures b.Queued() && b.queueId == cur + 1 ==>
              QueuesClean(m[k := b], inode, queue[cur + 1 := QueuedBuffer(inode, k)], cur + 1)
  {
  }

  lemma QueuesCleanReplace(m: Buffers, k: int, b: FileBuffer, inode: nat, queue: map<int, QueuedBuffer>, cur: nat)
    requires k in m && QueuesClean(m, inode, queue, cur)
    requires b.queueId == m[k].queueId && b.kind == m[k].kind
    ensures QueuesClean(m[k := b], inode, queue, cur)
  {
  }

  lemma CountsSharersSplit(m: Buffers, k: int, off: int, l: FileBuffer, r: FileBuffer, a: map<int, BufferPointer>,
                           b: map<int, BufferPointer>, next: nat)
    requires k in m && off !in m && off != k && CountsSharers(m, a, next)
    requires m[k].data.Nil? ==> l.data.Nil? && r.data.Nil? && b == a
    requires m[k].data.Mem? ==> l.data.Mem? && r.data.Mem? && l.data.ptr == r.data.ptr == m[k].data.ptr
                                && b == a[l.data.ptr := a[l.data.ptr].(refs := a[l.data.ptr].refs + 1)]
    ensures CountsSharers(m[k := r][off := l], b, next)
    ensures TotalMem(b, next) == TotalMem(a, next)
  {
    forall p: int | p in b ensures b[p].refs == |Sharers(m[k := r][off := l], p)| {
      SharersSplit(m, k, off, l, r, p);
    }
    TotalMemSame(a, b, next);
  }

  lemma DistinctIdsSplit(m: Buffers, k: int, off: int, l: FileBuffer, r: FileBuffer, cur: nat, id: nat)
    requires k in m && off !in m && off != k && DistinctIds(m, cur)
    requires l.dirtyID == m[k].dirtyID && r.dirtyID == id
    requires if m[k].dirtyID == 0 then id == 0 else id == cur + 1
    ensures DistinctIds(m[k := r][off := l], if id == 0 then cur else id)
  {
  }

  /** The pointer table after one buffer lets go of `p`: a record nobody uses is dropped. */
  function Dropped(ptrs: map<int, BufferPointer>, p: int): map<int, BufferPointer>
    requires p in ptrs && ptrs[p].refs > 0
  {
    if ptrs[p].refs == 1 then ptrs - {p} else ptrs[p := ptrs[p].(refs := ptrs[p].refs - 1)]
  }

  /** One reference to `p` is gone; the array goes with the last one. */
  ghost predicate Releases(ptrs: map<int, BufferPointer>, ptrs': map<int, BufferPointer>, p: int, delta: int)
  {
    && p in ptrs && ptrs[p].refs > 0
    && if ptrs[p].refs == 1 then ptrs' == ptrs - {p} && delta == -ptrs[p].memLen
       else ptrs' == ptrs[p := ptrs[p].(refs := ptrs[p].refs - 1)] && delta == 0
  }

  lemma CountsSharersWithout(m: Buffers, k: int, a: map<int, BufferPointer>, next: nat)
    requires k in m && m[k].data.Mem? && CountsSharers(m, a, next)
    ensures CountsSharers(m - {k}, Dropped(a, m[k].data.ptr), next)
    ensures TotalMem(Dropped(a, m[k].data.ptr), next) ==
            TotalMem(a, next) - if a[m[k].data.ptr].refs == 1 then a[m[k].data.ptr].memLen else 0
  {
    var p := m[k].data.ptr;
    var b := Dropped(a, p);
    forall i: int | i in a ensures |Sharers(m - {k}, i)| == a[i].refs - if i == p then 1 else 0 {
      SharersWithout(m, k, i);
    }
    assert forall j: int :: j in m - {k} && m[j].data.Mem? && m[j].data.ptr == p ==> j in Sharers(m - {k}, p);
    TotalMemChange(a, b, p, next);
  }

  /** A buffer without memory of its own leaves every pointer alone. */
  lemma CountsSharersPlain(m: Buffers, k: int, b: FileBuffer, a: map<int, BufferPointer>, next: nat)
    requires CountsSharers(m, a, next)
    ensures k in m && m[k].data.Nil? ==> CountsSharers(m - {k}, a, next)
    ensures k !in m && b.data.Nil? ==> CountsSharers(m[k := b], a, next)
  {
    if k in m && m[k].data.Nil? {
      assert forall p: int :: Sharers(m - {k}, p) == Sharers(m, p);
    }
    if k !in m && b.data.Nil? {
      assert forall p: int :: Sharers(m[k := b], p) == Sharers(m, p);
    }
  }

  /** The pointer table after one more buffer uses `p`; an unknown pointer is a new record. */
  function Shared(ptrs: map<int, BufferPointer>, p: int, memLen: int): map<int, BufferPointer>
  {
    ptrs[p := if p in ptrs then ptrs[p].(refs := ptrs[p].refs + 1) else BufferPointer(memLen, 1)]
  }

  lemma CountsSharersWith(m: Buffers, k: int, b: FileBuffer, memLen: int, a: map<int, BufferPointer>, next: nat,
                          next': nat)
    requires k !in m && b.data.Mem? && CountsSharers(m, a, next)
    requires b.data.ptr < next' && next <= next'
    ensures CountsSharers(m[k := b], Shared(a, b.data.ptr, memLen), next')
    ensures TotalMem(Shared(a, b.data.ptr, memLen), next') == TotalMem(a, next) + if b.data.ptr in a then 0 else memLen
  {
    var p := b.data.ptr;
    var a' := Shared(a, p, memLen);
    forall i: int | i in a' ensures a'[i].refs == |Sharers(m[k := b], i)| {
      SharersWith(m, k, b, i);
      if i !in a { assert forall j: int :: j !in Sharers(m, i); }
    }
    TotalMemBeyond(a, next, next');
    TotalMemChange(a, a', p, next');
  }

  /** A buffer that was the only user of its memory is replaced by one over `ptr`. */
  lemma CountsSharersMoved(m: Buffers, k: int, e: int, b: FileBuffer, memLen: int, a: map<int, BufferPointer>,
                           next: nat, next': nat)
    requires k in m && m[k].data.Mem? && e !in m - {k} && b.data.Mem? && CountsSharers(m, a, next)
    requires a[m[k].data.ptr].refs == 1 && b.data.ptr < next' && next <= next'
    requires b.data.ptr == m[k].data.ptr || b.data.ptr !in a
    ensures var a' := Shared(Dropped(a, m[k].data.ptr), b.data.ptr, memLen);
            && CountsSharers((m - {k})[e := b], a', next')
            && TotalMem(a', next') == TotalMem(a, next) + memLen - a[m[k].data.ptr].memLen
  {
    CountsSharersWithout(m, k, a, next);
    CountsSharersWith(m - {k}, e, b, memLen, Dropped(a, m[k].data.ptr), next, next');
  }

  lemma {:induction false} TotalMemBeyond(a: map<int, BufferPointer>, n: nat, n': nat)
    requires n <= n' && forall p: int :: p in a ==> p < n
    ensures TotalMem(a, n') == TotalMem(a, n)
  {
    if n < n' { TotalMemBeyond(a, n, n' - 1); }
  }

  lemma DistinctIdsWith(m: Buffers, k: int, b: FileBuffer, cur: nat, cur': nat)
    requires k !in m && DistinctIds(m, cur)
    requires cur <= cur' && (b.dirtyID == 0 || cur < b.dirtyID <= cur')
    ensures DistinctIds(m[k := b], cur')
  {
  }

  lemma IgnoreQueueId(m: Buffers, k: int, b: FileBuffer, r: FileBuffer, cur: nat, ptrs: map<int, BufferPointer>,
                      next: nat)
    requires r == b.(queueId := r.queueId)
    requires Shape(m[k := b]) && DistinctIds(m[k := b], cur) && CountsSharers(m[k := b], ptrs, next)
    ensures Shape(m[k := r]) && DistinctIds(m[k := r], cur) && CountsSharers(m[k := r], ptrs, next)
  {
    var m1, m2 := m[k := b], m[k := r];
    assert forall j: int :: (j in m1 <==> j in m2) && (j in m1 ==> m2[j] == m1[j].(queueId := m2[j].queueId));
    forall p: int | p in ptrs ensures Sharers(m2, p) == Sharers(m1, p) { }
  }

  lemma DistinctIdsMoved(m: Buffers, k: int, e: int, b: FileBuffer, cur: nat)
    requires DistinctIds(m, cur) && (b.dirtyID == 0 || (FreshId(m, b.dirtyID) && b.dirtyID <= cur))
    ensures DistinctIds(m - {k}, cur) && DistinctIds((m - {k})[e := b], cur)
  {
  }

  /** A buffer rewritten in place without touching its memory, and with a zero dirty id. */
  lemma KeepsAccounts(m: Buffers, k: int, b: FileBuffer, cur: nat, ptrs: map<int, BufferPointer>, next: nat)
    requires k in m && b.data == m[k].data && b.dirtyID == 0
    requires DistinctIds(m, cur) && CountsSharers(m, ptrs, next)
    ensures DistinctIds(m[k := b], cur) && CountsSharers(m[k := b], ptrs, next)
  {
    var m' := m[k := b];
    forall p: int | p in ptrs ensures Sharers(m', p) == Sharers(m, p) { }
  }

  lemma AbsorbAccounts(m: Buffers, k: int, p: Option<int>, r: FileBuffer, cur: nat, ptrs: map<int, BufferPointer>,
                       next: nat)
    requires r.data.Nil? && r.dirtyID == 0 && (p.Some? ==> p.value in m - {k} && m[p.value].data.Nil?)
    requires DistinctIds(m, cur) && CountsSharers(m - {k}, ptrs, next)
    ensures DistinctIds(Without(m - {k}, p)[k := r], cur)
    ensures CountsSharers(Without(m - {k}, p)[k := r], ptrs, next)
  {
    if p.Some? { CountsSharersPlain(m - {k}, p.value, r, ptrs, next); }
    CountsSharersPlain(Without(m - {k}, p), k, r, ptrs, next);
  }

  /** Neither the memory of a buffer nor its being on disk matters to the clean queue or the counts. */
  lemma OnDiskIsNotIndexed(m: Buffers, k: int, b: FileBuffer, part: nat -> nat, parts: map<int, DirtyPart>,
                           inode: nat, queue: map<int, QueuedBuffer>, cur: nat)
    requires k in m && b == m[k].(kind := m[k].kind.(onDisk := true), data := Nil)
    requires CountsDirty(m, part, parts) && QueuesClean(m, inode, queue, cur)
    ensures |UncleanKeys(m[k := b])| == |UncleanKeys(m)|
    ensures CountsDirty(m[k := b], part, parts) && QueuesClean(m[k := b], inode, queue, cur)
  {
    var m' := m[k := b];
    assert UncleanKeys(m') == UncleanKeys(m);
    forall p: int ensures DirtyKeys(m', part, p) == DirtyKeys(m, part, p) { }
  }
}
