/**
 Which ranges are locked while flushes run, and how many flushes the inode counts. These
 facts let the code of the inode tell, from its lock list and its counter alone, that an
 eviction, a truncation or a new flush does not meet a flush in progress.
 */
module FlushLocks {
  import opened FileBuffers
  import opened PartSizes
  import opened MultipartObject
  import opened WriteBack

  datatype ReadRange = ReadRange(offset: nat, size: nat, flushing: bool) {
    predicate Hits(lo: nat, hi: nat, onlyFlushing: bool)
    {
      offset < hi && offset + size > lo && (!onlyFlushing || flushing)
    }
  }

  /** A flush whose first section has not run yet. */
  datatype Starting = Nothing | StartingSmall | StartingMulti

  /** Parts locked for flushing: waiting for their snapshot, or being sent. */
  ghost function FlushedParts(upload: Upload, pending: set<int>): set<int>
  {
    if upload.Multi? then pending + upload.flights.Keys else pending
  }

  /** The upload once the end of part `p` is taken. */
  ghost function WithTaken(u: Upload, p: int, end: nat): Upload
  {
    if u.Multi? then u.(taken := u.taken[p := end]) else u
  }

  /** The upload once the flush of part `p` has ended without an effect. */
  ghost function WithoutPart(u: Upload, p: int): Upload
  {
    if u.Multi? then u.(taken := u.taken - {p}, flights := u.flights - {p}) else u
  }

  ghost predicate PartLock(starts: seq<nat>, locks: seq<ReadRange>, size: nat, p: int)
  {
    && 0 <= p < |starts| - 1 && starts[p] < starts[p + 1] && starts[p] < size
    && ReadRange(starts[p], starts[p + 1] - starts[p], true) in locks
  }

  /** Every flush in progress holds the lock of its range. */
  ghost predicate LocksHeld(starts: seq<nat>, locks: seq<ReadRange>, upload: Upload, pending: set<int>, size: nat)
  {
    && (upload.Small? ==> ReadRange(0, upload.sz, true) in locks)
    && forall p: int :: p in FlushedParts(upload, pending) ==> PartLock(starts, locks, size, p)
  }

  /** One kind of flush at a time, and `isFlushing` counts it. */
  ghost predicate OneFlush(max: nat, mpu: bool, starting: Starting, upload: Upload, pending: set<int>, isFlushing: nat)
  {
    && max > 0 && mpu == upload.Multi? && (!starting.Nothing? ==> upload.Idle?)
    && (pending != {} ==> upload.Multi? && upload.completion.Open?)
    && (upload.Multi? ==> forall p: int :: p in pending ==> p !in upload.flights)
    && (upload.Multi? ==> forall p: int :: p in upload.taken ==> p in pending)
    && isFlushing == |FlushedParts(upload, pending)| +
         if !starting.Nothing? || upload.Small? || (upload.Multi? && !upload.completion.Open?) then max else 0
  }

  lemma NoParts(max: nat, mpu: bool, starting: Starting, upload: Upload, pending: set<int>, isFlushing: nat)
    requires OneFlush(max, mpu, starting, upload, pending, isFlushing) && !upload.Multi?
    ensures FlushedParts(upload, pending) == {}
  {
  }

  lemma LocksGrow(starts: seq<nat>, locks: seq<ReadRange>, upload: Upload, pending: set<int>, size: nat, size': nat)
    requires LocksHeld(starts, locks, upload, pending, size) && size <= size'
    ensures LocksHeld(starts, locks, upload, pending, size')
  {
  }

  /** A part whose range is not locked is not being flushed. */
  lemma NotFlushed(starts: seq<nat>, locks: seq<ReadRange>, upload: Upload, pending: set<int>, size: nat, p: int)
    requires LocksHeld(starts, locks, upload, pending, size) && 0 <= p < |starts| - 1
    requires forall r :: r in locks ==> !r.Hits(starts[p], starts[p + 1], true)
    ensures p !in FlushedParts(upload, pending)
  {
  }

  /** Nothing is being flushed when no range of the file is locked. */
  lemma NothingFlushed(starts: seq<nat>, locks: seq<ReadRange>, upload: Upload, pending: set<int>, size: nat)
    requires LocksHeld(starts, locks, upload, pending, size)
    requires forall r :: r in locks ==> !r.Hits(0, size, true)
    ensures FlushedParts(upload, pending) == {}
  {
    forall p: int ensures p !in FlushedParts(upload, pending) { }
  }

  /** A counter below the limit means that nothing but parts is being flushed. */
  lemma BelowLimit(max: nat, mpu: bool, starting: Starting, upload: Upload, pending: set<int>, isFlushing: nat)
    requires OneFlush(max, mpu, starting, upload, pending, isFlushing) && isFlushing < max
    ensures starting.Nothing? && !upload.Small? && (upload.Multi? ==> upload.completion.Open?)
    ensures !mpu ==> upload.Idle? && OneFlush(max, mpu, StartingSmall, upload, pending, isFlushing + max)
    ensures !mpu ==> OneFlush(max, mpu, StartingMulti, upload, pending, isFlushing + max)
  {
  }

  /** The upload is being completed; no part is being flushed. */
  lemma Completing(starts: seq<nat>, locks: seq<ReadRange>, upload: Upload, completion: Completion, pending: set<int>,
                   size: nat, max: nat, mpu: bool, starting: Starting, isFlushing: nat)
    requires upload.Multi? && upload.completion.Open? && !completion.Open? && FlushedParts(upload, pending) == {}
    requires LocksHeld(starts, locks, upload, pending, size)
    requires OneFlush(max, mpu, starting, upload, pending, isFlushing)
    ensures upload.taken == map[] && upload.flights == map[] && pending == {}
    ensures LocksHeld(starts, locks, upload.(completion := completion), pending, size)
    ensures OneFlush(max, mpu, starting, upload.(completion := completion), pending, isFlushing + max)
  {
    assert forall p: int :: p in upload.flights ==> p in FlushedParts(upload, pending);
    assert forall p: int :: p in pending ==> p in FlushedParts(upload, pending);
    assert forall p: int :: p !in upload.taken;
  }

  /** Completion goes on, or ends one way or the other. */
  lemma Completed(starts: seq<nat>, locks: seq<ReadRange>, upload: Upload, upload': Upload, pending: set<int>,
                  size: nat, max: nat, mpu: bool, starting: Starting, isFlushing: nat)
    requires upload.Multi? && !upload.completion.Open? && upload.flights == map[]
    requires LocksHeld(starts, locks, upload, pending, size)
    requires OneFlush(max, mpu, starting, upload, pending, isFlushing)
    ensures isFlushing == max && pending == {}
    ensures OneFlush(max, false, starting, Idle, pending, 0) && LocksHeld(starts, locks, Idle, pending, size)
    ensures upload'.Multi? && upload'.taken == map[] && upload'.flights == map[] ==>
            LocksHeld(starts, locks, upload', pending, size)
    ensures upload'.Multi? && upload'.taken == map[] && upload'.flights == map[] ==>
              OneFlush(max, mpu, starting, upload', pending, if upload'.completion.Open? then 0 else max)
  {
    assert FlushedParts(upload, pending) == {};
  }

  /** Where no flush lock hits, a cut touches nothing that is being flushed. */
  lemma CutMeetsNoFlush(f: File, locks: seq<ReadRange>, pending: set<int>, size: nat)
    requires LocksHeld(f.starts, locks, f.upload, pending, f.size) && size < f.size
    requires f.upload.Multi? ==> forall p: int :: p in f.upload.taken ==> p in pending
    requires forall r :: r in locks ==> !r.Hits(size, f.size, true)
    ensures CutUnlocked(f, size) && LocksHeld(f.starts, locks, f.upload, pending, size)
  {
    if f.upload.Small? { assert !ReadRange(0, f.upload.sz, true).Hits(size, f.size, true); }
    if f.upload.Multi? {
      forall p: int | p in f.upload.taken || p in f.upload.flights ensures p in FlushedParts(f.upload, pending) { }
    }
    forall p: int | p in FlushedParts(f.upload, pending)
      ensures 0 <= p < |f.starts| - 1 && f.starts[p + 1] <= size && PartLock(f.starts, locks, size, p)
    {
      assert PartLock(f.starts, locks, f.size, p);
      assert !ReadRange(f.starts[p], f.starts[p + 1] - f.starts[p], true).Hits(size, f.size, true);
    }
  }

  lemma Unlocked(f: File, locks: seq<ReadRange>, pending: set<int>, lo: nat, hi: nat)
    requires LocksHeld(f.starts, locks, f.upload, pending, f.size) && lo < hi
    requires forall r :: r in locks ==> !r.Hits(lo, hi, false)
    ensures !RangeLocked(f, lo, hi)
  {
    match f.upload
    case Idle =>
    case Small(sz, _, _) => assert ReadRange(0, sz, true) in locks;
    case Multi(_, _, flights, _) =>
      forall p: int | p in flights ensures 0 <= p < |f.starts| - 1 && !(lo < f.starts[p + 1] && f.starts[p] < hi) {
        assert p in FlushedParts(f.upload, pending);
        assert ReadRange(f.starts[p], f.starts[p + 1] - f.starts[p], true) in locks;
      }
  }

  lemma SmallStays(locks: seq<ReadRange>, pending: set<int>, a: Upload, b: Upload, max: nat, mpu: bool,
                   starting: Starting, isFlushing: nat, starts: seq<nat>, size: nat)
    requires a.Small? && b.Small? && a.sz == b.sz
    requires LocksHeld(starts, locks, a, pending, size) && OneFlush(max, mpu, starting, a, pending, isFlushing)
    ensures LocksHeld(starts, locks, b, pending, size) && OneFlush(max, mpu, starting, b, pending, isFlushing)
  {
  }

  lemma SmallEnds(locks: seq<ReadRange>, pending: set<int>, upload: Upload, max: nat, mpu: bool, starting: Starting,
                  isFlushing: nat, starts: seq<nat>, size: nat)
    requires upload.Small? && OneFlush(max, mpu, starting, upload, pending, isFlushing)
    ensures isFlushing == max && OneFlush(max, mpu, starting, Idle, pending, 0)
    ensures forall locks': seq<ReadRange> :: LocksHeld(starts, locks', Idle, pending, size)
  {
  }

  /** A part is locked and waits for its snapshot. */
  lemma PartStarts(starts: seq<nat>, locks: seq<ReadRange>, locks': seq<ReadRange>, upload: Upload, pending: set<int>,
                   size: nat, p: int, max: nat, mpu: bool, starting: Starting, isFlushing: nat)
    requires upload.Multi? && upload.completion.Open? && p !in FlushedParts(upload, pending)
    requires LocksHeld(starts, locks, upload, pending, size)
    requires OneFlush(max, mpu, starting, upload, pending, isFlushing)
    requires 0 <= p < |starts| - 1 && starts[p] < starts[p + 1] && starts[p] < size
    requires locks' == locks + [ReadRange(starts[p], starts[p + 1] - starts[p], true)]
    ensures LocksHeld(starts, locks', upload, pending + {p}, size)
    ensures OneFlush(max, mpu, starting, upload, pending + {p}, isFlushing + 1)
  {
    var parts := FlushedParts(upload, pending);
    assert FlushedParts(upload, pending + {p}) == parts + {p};
    assert LocksHeld(starts, locks', upload, pending + {p}, size) by {
      hide FlushedParts;
      assert locks'[|locks|] in locks';
      forall q: int | q in parts ensures PartLock(starts, locks', size, q) { assert PartLock(starts, locks, size, q); }
    }
    assert OneFlush(max, mpu, starting, upload, pending + {p}, isFlushing + 1) by {
      hide LocksHeld, PartLock;
      assert p !in upload.flights;
    }
  }

  /** A locked part is a part of the file. */
  lemma PendingPart(starts: seq<nat>, locks: seq<ReadRange>, upload: Upload, pending: set<int>, size: nat, p: int,
                    max: nat, mpu: bool, starting: Starting, isFlushing: nat)
    requires LocksHeld(starts, locks, upload, pending, size)
    requires OneFlush(max, mpu, starting, upload, pending, isFlushing)
    requires p in pending
    ensures upload.Multi? && upload.completion.Open? && p !in upload.flights && p in FlushedParts(upload, pending)
    ensures 0 <= p < |starts| - 1 && starts[p] < starts[p + 1] && starts[p] < size && isFlushing > 0
  {
    assert p in FlushedParts(upload, pending);
    SomePart(FlushedParts(upload, pending), p);
  }

  lemma FlyingPart(starts: seq<nat>, locks: seq<ReadRange>, upload: Upload, pending: set<int>, size: nat, p: int,
                   max: nat, mpu: bool, starting: Starting, isFlushing: nat)
    requires LocksHeld(starts, locks, upload, pending, size)
    requires OneFlush(max, mpu, starting, upload, pending, isFlushing)
    requires upload.Multi? && p in upload.flights
    ensures p !in pending && p in FlushedParts(upload, pending)
    ensures 0 <= p < |starts| - 1 && starts[p] < starts[p + 1] && starts[p] < size && isFlushing > 0
  {
    assert p in FlushedParts(upload, pending);
    SomePart(FlushedParts(upload, pending), p);
  }

  lemma SomePart(s: set<int>, p: int)
    requires p in s
    ensures |s| > 0
  {
  }

  /** The end of a waiting part is taken. */
  lemma PartTaken(starts: seq<nat>, locks: seq<ReadRange>, upload: Upload, pending: set<int>, size: nat, p: int,
                  end: nat, max: nat, mpu: bool, starting: Starting, isFlushing: nat)
    requires upload.Multi? && p in pending
    requires LocksHeld(starts, locks, upload, pending, size)
    requires OneFlush(max, mpu, starting, upload, pending, isFlushing)
    ensures var taken := WithTaken(upload, p, end);
            && LocksHeld(starts, locks, taken, pending, size)
            && OneFlush(max, mpu, starting, taken, pending, isFlushing)
  {
  }

  /** A waiting part is on its way. */
  lemma PartSent(starts: seq<nat>, locks: seq<ReadRange>, upload: Upload, pending: set<int>, size: nat, p: int,
                 shot: Snapshot, max: nat, mpu: bool, starting: Starting, isFlushing: nat)
    requires upload.Multi? && p in pending
    requires LocksHeld(starts, locks, upload, pending, size)
    requires OneFlush(max, mpu, starting, upload, pending, isFlushing)
    ensures var sent := WithFlight(upload, p, shot);
            && LocksHeld(starts, locks, sent, pending - {p}, size)
            && OneFlush(max, mpu, starting, sent, pending - {p}, isFlushing)
  {
    var sent := WithFlight(upload, p, shot);
    assert FlushedParts(sent, pending - {p}) == FlushedParts(upload, pending);
  }

  /** A part is no longer locked; the others still are. */
  lemma PartEnds(starts: seq<nat>, locks: seq<ReadRange>, locks': seq<ReadRange>, upload: Upload, upload': Upload,
                 pending: set<int>, pending': set<int>, size: nat, p: int, max: nat, mpu: bool, starting: Starting,
                 isFlushing: nat)
    requires Boundaries(starts) && 0 <= p < |starts| - 1
    requires LocksHeld(starts, locks, upload, pending, size)
    requires OneFlush(max, mpu, starting, upload, pending, isFlushing)
    requires upload.Multi? && p in FlushedParts(upload, pending) && pending' == pending - {p} && isFlushing > 0
    requires upload'.Multi? && WithoutPart(upload, p) == upload'.(parts := upload.parts)
    requires locks' == Removed(locks, ReadRange(starts[p], starts[p + 1] - starts[p], true))
    ensures LocksHeld(starts, locks', upload', pending', size)
    ensures OneFlush(max, mpu, starting, upload', pending', isFlushing - 1)
  {
    var parts := FlushedParts(upload, pending);
    assert FlushedParts(upload', pending') == parts - {p};
    hide FlushedParts, LocksHeld, OneFlush, PartLock, Boundaries;
    LocksAfter(starts, locks, locks', upload, upload', pending, pending', size, p);
    CountAfter(upload, upload', pending, pending', p, max, mpu, starting, isFlushing);
  }

  lemma LocksAfter(starts: seq<nat>, locks: seq<ReadRange>, locks': seq<ReadRange>, upload: Upload, upload': Upload,
                   pending: set<int>, pending': set<int>, size: nat, p: int)
    requires Boundaries(starts) && 0 <= p < |starts| - 1 && upload.Multi? && upload'.Multi?
    requires LocksHeld(starts, locks, upload, pending, size)
    requires FlushedParts(upload', pending') == FlushedParts(upload, pending) - {p}
    requires locks' == Removed(locks, ReadRange(starts[p], starts[p + 1] - starts[p], true))
    ensures LocksHeld(starts, locks', upload', pending', size)
  {
    hide FlushedParts;
    forall q: int | q in FlushedParts(upload', pending') ensures PartLock(starts, locks', size, q) {
      assert PartLock(starts, locks, size, q);
      RemovedKeeps(locks, ReadRange(starts[p], starts[p + 1] - starts[p], true),
                   ReadRange(starts[q], starts[q + 1] - starts[q], true));
    }
  }

  lemma CountAfter(upload: Upload, upload': Upload, pending: set<int>, pending': set<int>, p: int, max: nat,
                   mpu: bool, starting: Starting, isFlushing: nat)
    requires OneFlush(max, mpu, starting, upload, pending, isFlushing) && isFlushing > 0
    requires upload.Multi? && p in FlushedParts(upload, pending) && pending' == pending - {p}
    requires upload'.Multi? && WithoutPart(upload, p) == upload'.(parts := upload.parts)
    requires FlushedParts(upload', pending') == FlushedParts(upload, pending) - {p}
    ensures OneFlush(max, mpu, starting, upload', pending', isFlushing - 1)
  {
    hide FlushedParts;
  }

  /** The list without the first lock equal to `r`. */
  function Removed(locks: seq<ReadRange>, r: ReadRange): seq<ReadRange>
  {
    if locks == [] then [] else if locks[0] == r then locks[1..] else [locks[0]] + Removed(locks[1..], r)
  }

  /** Exactly one lock goes, if there is one. */
  lemma {:induction false} RemovedOnce(locks: seq<ReadRange>, r: ReadRange)
    ensures multiset(Removed(locks, r)) == multiset(locks) - multiset{r}
  {
    if locks != [] {
      assert locks == [locks[0]] + locks[1..];
      if locks[0] != r { RemovedOnce(locks[1..], r); }
    }
  }

  lemma RemovedKeeps(locks: seq<ReadRange>, r: ReadRange, other: ReadRange)
    requires other in locks && other != r
    ensures other in Removed(locks, r)
  {
    RemovedOnce(locks, r);
    assert multiset(Removed(locks, r))[other] == multiset(locks)[other] > 0;
  }

  /** A scan that stops at the first lock equal to `r`. */
  lemma {:induction false} RemovedAt(locks: seq<ReadRange>, r: ReadRange, i: nat)
    requires i <= |locks| && r !in locks[..i] && (i < |locks| ==> locks[i] == r)
    ensures Removed(locks, r) == if i < |locks| then locks[..i] + locks[i + 1..] else locks
  {
    if i > 0 {
      assert locks[0] == locks[..i][0] && locks[..i][1..] == locks[1..][..i - 1];
      RemovedAt(locks[1..], r, i - 1);
      assert locks == [locks[0]] + locks[1..];
    }
  }
}
