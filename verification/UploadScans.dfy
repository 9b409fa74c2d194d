/**
 Choosing the parts to flush. The scan looks at each dirty part in the order in which they were
 queued; what it makes of a part depends on the part's buffers and on the locks held before.
 */
module UploadScans {
  import opened Options
  import opened FileBuffers
  import opened BufferReads
  import opened BufferIndexes
  import opened PartSizes
  import opened FlushLocks

  /** What the scan makes of one dirty part. */
  datatype Visit = Busy | Skipped(evicted: bool) | PartlyZero | Ready

  ghost predicate FlushLocked(locks: seq<ReadRange>, lo: nat, hi: nat)
  {
    exists r :: r in locks && r.Hits(lo, hi, true)
  }

  /**
   `Busy` waits for another time. `Skipped` cannot be sent or need not be: a part of which some
   left memory, or one without changes. `PartlyZero` is sent only if nothing better is found.
   */
  ghost function Verdict(m: Buffers, starts: seq<nat>, locks: seq<ReadRange>, p: int, lastPart: nat, flushInode: bool,
                         wantFree: bool): Visit
  {
    if !(0 <= p < |starts| - 1) then Busy
    else
      var lo, hi := starts[p], starts[p + 1];
      if FlushLocked(locks, lo, hi) || (p == lastPart && !flushInode && !wantFree) then Busy
      else if Has(m, lo, hi, HasDirty) ==> Has(m, lo, hi, HasEvicted) then Skipped(Has(m, lo, hi, HasEvicted))
      else if !flushInode && (Has(m, lo, hi, HasZero) || !Has(m, lo, hi, ReachesEnd)) then
        if wantFree && Has(m, lo, hi, HasNonZero) then PartlyZero else Busy
      else Ready
  }

  /** What the scan makes of the part [lo, hi), told by its bytes. `held` is the part still being written. */
  ghost predicate Visited(m: Buffers, locks: seq<ReadRange>, lo: nat, hi: nat, held: bool, flushInode: bool,
                          wantFree: bool, v: Visit)
  {
    var free := !held && forall r :: r in locks ==> !(r.flushing && r.offset < hi && lo < r.offset + r.size);
    var dirty := exists x: int :: lo <= x < hi && CellAt(m, x).Some? && CellAt(m, x).value.kind.state.Dirty?;
    var cleared := exists x: int :: lo <= x < hi && CellAt(m, x).Some? && CellAt(m, x).value.kind.state.FlCleared?;
    var someZero := exists x: int :: lo <= x < hi && CellAt(m, x).Some? && CellAt(m, x).value.kind.zero;
    var nonZero := exists x: int :: lo <= x < hi && CellAt(m, x).Some? && !CellAt(m, x).value.kind.zero;
    var zero := someZero || CellAt(m, hi - 1).None?;
    && (v.Ready? <==> free && dirty && !cleared && (flushInode || !zero))
    && (v.PartlyZero? <==> free && dirty && !cleared && !flushInode && zero && wantFree && nonZero)
    && (v.Skipped? <==> free && (!dirty || cleared)) && (v.Skipped? ==> v.evicted == cleared)
  }

  lemma VerdictByBytes(m: Buffers, starts: seq<nat>, locks: seq<ReadRange>, p: int, lastPart: nat, flushInode: bool,
                       wantFree: bool)
    requires Shape(m) && 0 <= p < |starts| - 1 && starts[p] < starts[p + 1]
    ensures Visited(m, locks, starts[p], starts[p + 1], p == lastPart && !flushInode && !wantFree, flushInode, wantFree,
                    Verdict(m, starts, locks, p, lastPart, flushInode, wantFree))
  {
    hide Has, CellAt, Shape;
    FeaturesOfBytes(m, starts[p], starts[p + 1]);
  }

  /** Nobody flushes the range, and all of its bytes are dirty and none a zero. */
  ghost predicate FullyDirty(m: Buffers, locks: seq<ReadRange>, lo: nat, hi: nat)
  {
    && (forall r :: r in locks ==> !(r.flushing && r.offset < hi && lo < r.offset + r.size))
    && forall x: int :: lo <= x < hi ==>
         CellAt(m, x).Some? && CellAt(m, x).value.kind.state.Dirty? && !CellAt(m, x).value.kind.zero
  }

  /** `v` tells the verdict on each part. */
  ghost predicate Judges(v: int -> Visit, m: Buffers, starts: seq<nat>, locks: seq<ReadRange>, lastPart: nat,
                         flushInode: bool, wantFree: bool)
  {
    forall p: int :: v(p) == Verdict(m, starts, locks, p, lastPart, flushInode, wantFree)
  }

  lemma JudgedAs(v: int -> Visit, m: Buffers, starts: seq<nat>, locks: seq<ReadRange>, lastPart: nat,
                 flushInode: bool, wantFree: bool, p: int)
    requires Judges(v, m, starts, locks, lastPart, flushInode, wantFree)
    ensures v(p) == Verdict(m, starts, locks, p, lastPart, flushInode, wantFree)
  {
  }

  lemma VerdictHeld(m: Buffers, starts: seq<nat>, locks: seq<ReadRange>, p: int, lastPart: nat, flushInode: bool,
                    wantFree: bool)
    requires 0 <= p < |starts| - 1
    requires || (exists r :: r in locks && r.Hits(starts[p], starts[p + 1], true))
             || (p == lastPart && !flushInode && !wantFree)
    ensures Verdict(m, starts, locks, p, lastPart, flushInode, wantFree).Busy?
  {
  }

  lemma VerdictOf(m: Buffers, starts: seq<nat>, locks: seq<ReadRange>, p: int, lastPart: nat, flushInode: bool,
                  wantFree: bool)
    requires 0 <= p < |starts| - 1 && !(p == lastPart && !flushInode && !wantFree)
    requires forall r :: r in locks ==> !r.Hits(starts[p], starts[p + 1], true)
    ensures var lo, hi := starts[p], starts[p + 1];
            Verdict(m, starts, locks, p, lastPart, flushInode, wantFree) ==
            if Has(m, lo, hi, HasDirty) ==> Has(m, lo, hi, HasEvicted) then Skipped(Has(m, lo, hi, HasEvicted))
            else if !flushInode && (Has(m, lo, hi, HasZero) || !Has(m, lo, hi, ReachesEnd)) then
              if wantFree && Has(m, lo, hi, HasNonZero) then PartlyZero else Busy
            else Ready
  {
    hide Has;
  }

  lemma VerdictSame(m: Buffers, starts: seq<nat>, a: seq<ReadRange>, b: seq<ReadRange>, p: int, lastPart: nat,
                    flushInode: bool, wantFree: bool)
    requires 0 <= p < |starts| - 1
    requires (FlushLocked(a, starts[p], starts[p + 1]) <==> FlushLocked(b, starts[p], starts[p + 1]))
    ensures Verdict(m, starts, a, p, lastPart, flushInode, wantFree) ==
            Verdict(m, starts, b, p, lastPart, flushInode, wantFree)
  {
  }

  /** The locks taken so far hit no part that is still to be visited. */
  ghost predicate LocksSame(queue: map<int, int>, cursor: int, starts: seq<nat>, a: seq<ReadRange>, b: seq<ReadRange>)
  {
    forall i: int :: i in queue && i >= cursor && 0 <= queue[i] < |starts| - 1 ==>
      (FlushLocked(a, starts[queue[i]], starts[queue[i] + 1]) <==>
        FlushLocked(b, starts[queue[i]], starts[queue[i] + 1]))
  }

  lemma LocksSameStart(queue: map<int, int>, cursor: int, starts: seq<nat>, a: seq<ReadRange>)
    ensures LocksSame(queue, cursor, starts, a, a)
  {
  }

  lemma LocksSameAt(queue: map<int, int>, cursor: int, i: int, starts: seq<nat>, a: seq<ReadRange>, b: seq<ReadRange>)
    requires LocksSame(queue, cursor, starts, a, b) && i in queue && i >= cursor && 0 <= queue[i] < |starts| - 1
    ensures FlushLocked(a, starts[queue[i]], starts[queue[i] + 1]) <==>
            FlushLocked(b, starts[queue[i]], starts[queue[i] + 1])
  {
  }

  lemma LockOther(starts: seq<nat>, locks: seq<ReadRange>, p: int, q: int)
    requires Boundaries(starts) && 0 <= p < |starts| - 1 && 0 <= q < |starts| - 1 && p != q
    ensures starts[p] < starts[p + 1]
    ensures FlushLocked(locks + [ReadRange(starts[p], starts[p + 1] - starts[p], true)], starts[q], starts[q + 1]) <==>
            FlushLocked(locks, starts[q], starts[q + 1])
  {
    var r := ReadRange(starts[p], starts[p + 1] - starts[p], true);
    assert starts[p] < starts[p + 1];
    assert (p < q ==> starts[p + 1] <= starts[q]) && (q < p ==> starts[q + 1] <= starts[p]);
    if FlushLocked(locks, starts[q], starts[q + 1]) {
      var s :| s in locks && s.Hits(starts[q], starts[q + 1], true);
      assert s in locks + [r];
    }
  }

  lemma LocksSameNext(queue: map<int, int>, cursor: int, i: int, starts: seq<nat>, a: seq<ReadRange>,
                      b: seq<ReadRange>, b': seq<ReadRange>, parts: map<int, DirtyPart>, qid: nat)
    requires LocksSame(queue, cursor, starts, a, b) && QueueOfParts(parts, queue, qid) && Boundaries(starts)
    requires IsFirst(queue, cursor, Some(i)) && 0 <= queue[i] < |starts| - 1 && starts[queue[i]] < starts[queue[i] + 1]
    requires b' == b || b' == b + [ReadRange(starts[queue[i]], starts[queue[i] + 1] - starts[queue[i]], true)]
    ensures LocksSame(queue, i + 1, starts, a, b')
  {
    hide FlushLocked, Boundaries;
    forall j: int | j in queue && j >= i + 1 && 0 <= queue[j] < |starts| - 1
      ensures FlushLocked(a, starts[queue[j]], starts[queue[j] + 1]) <==>
              FlushLocked(b', starts[queue[j]], starts[queue[j] + 1])
    {
      if b' != b { LockOther(starts, b, queue[i], queue[j]); }
    }
  }

  ghost predicate QueuedBefore(queue: map<int, int>, cursor: int, p: int)
  {
    exists i: int :: i in queue && i < cursor && queue[i] == p
  }

  ghost predicate Grew(was: set<int>, now: set<int>)
  {
    exists p: int :: p in now && p !in was
  }

  /** The scan has passed the entries before `cursor`: what was started, and what it means so far. */
  ghost predicate Scan(queue: map<int, int>, cursor: int, v: int -> Visit, was: set<int>, now: set<int>,
                       initiated: bool, complete: bool, partly: Option<nat>, priority: nat)
  {
    && was <= now && (if initiated then Grew(was, now) else now == was)
    && (forall p: int :: p in now && p !in was ==> QueuedBefore(queue, cursor, p) && v(p).Ready?)
    && (forall i: int :: i in queue && i < cursor && v(queue[i]).Ready? ==> queue[i] in now && initiated)
    && (complete <==> forall i: int :: i in queue && i < cursor ==> v(queue[i]).Skipped?)
    && (partly.Some? ==> priority >= 2 && QueuedBefore(queue, cursor, partly.value) && v(partly.value).PartlyZero?)
    && (partly.None? && priority >= 2 ==> forall i: int :: i in queue && i < cursor ==> !v(queue[i]).PartlyZero?)
  }

  lemma ScanStart(queue: map<int, int>, cursor: int, v: int -> Visit, was: set<int>, priority: nat)
    requires forall i: int :: i in queue ==> i >= cursor
    ensures Scan(queue, cursor, v, was, was, false, true, None, priority)
  {
  }

  lemma ScanNext(queue: map<int, int>, cursor: int, i: int, v: int -> Visit, was: set<int>, now: set<int>,
                 now': set<int>, initiated: bool, complete: bool, partly: Option<nat>, partly': Option<nat>,
                 priority: nat)
    requires Scan(queue, cursor, v, was, now, initiated, complete, partly, priority)
    requires IsFirst(queue, cursor, Some(i))
    requires if v(queue[i]).Ready? then now' == now + {queue[i]} && queue[i] !in now else now' == now
    requires if v(queue[i]).PartlyZero? && priority >= 2 && partly.None?
             then partly'.Some? && partly'.value == queue[i] else partly' == partly
    ensures Scan(queue, i + 1, v, was, now', initiated || v(queue[i]).Ready?,
                 complete && v(queue[i]).Skipped?, partly', priority)
  {
    assert QueuedBefore(queue, i + 1, queue[i]);
    forall p: int | QueuedBefore(queue, cursor, p) ensures QueuedBefore(queue, i + 1, p) {
      var j: int :| j in queue && j < cursor && queue[j] == p;
    }
    if v(queue[i]).Ready? { assert queue[i] in now' && queue[i] !in was; }
  }

  lemma ScanGrows(queue: map<int, int>, cursor: int, v: int -> Visit, was: set<int>, now: set<int>, initiated: bool,
                  complete: bool, partly: Option<nat>, priority: nat)
    requires Scan(queue, cursor, v, was, now, initiated, complete, partly, priority)
    ensures was <= now
  {
  }

  ghost predicate IsQueued(queue: map<int, int>, p: int)
  {
    exists i: int :: i in queue && queue[i] == p
  }

  ghost predicate AllSkip(queue: map<int, int>, v: int -> Visit)
  {
    forall i: int :: i in queue ==> v(queue[i]).Skipped?
  }

  /**
   What the scan decides. Ready parts are started, all of them unless a limit stops it. One partly
   zero part is started if no part is ready. The upload may be completed exactly if every part is
   one to skip.
   */
  ghost predicate Chosen(queue: map<int, int>, v: int -> Visit, was: set<int>, now: set<int>, initiated: bool,
                         complete: bool, priority: nat, limited: bool)
  {
    && was <= now && (initiated <==> now != was)
    && (complete <==> AllSkip(queue, v))
    && (forall p: int :: p in now && p !in was ==> IsQueued(queue, p) && (v(p).Ready? || v(p).PartlyZero?))
    && (forall p: int :: p in now && p !in was && v(p).PartlyZero? ==>
          priority >= 2 && now == was + {p} && NoneReady(queue, v))
    && (limited || forall i: int :: i in queue && v(queue[i]).Ready? ==> queue[i] in now)
    && (!initiated ==> NoneReady(queue, v))
    && (!initiated && priority >= 2 ==> forall i: int :: i in queue ==> !v(queue[i]).PartlyZero?)
  }

  ghost predicate NoneReady(queue: map<int, int>, v: int -> Visit)
  {
    forall i: int :: i in queue ==> !v(queue[i]).Ready?
  }

  /** The scan came to the end of the queue. */
  lemma ScanEnds(queue: map<int, int>, cursor: int, v: int -> Visit, was: set<int>, now: set<int>, initiated: bool,
                 complete: bool, partly: Option<nat>, priority: nat, limited: bool)
    requires Scan(queue, cursor, v, was, now, initiated, complete, partly, priority) && IsFirst(queue, cursor, None)
    ensures initiated || partly.None? ==> Chosen(queue, v, was, now, initiated, complete, priority, limited)
    ensures !initiated ==> NoneReady(queue, v)
    ensures !initiated && partly.Some? && partly.value !in now ==>
              Chosen(queue, v, was, now + {partly.value}, true, false, priority, limited)
  {
    forall p: int | QueuedBefore(queue, cursor, p) ensures IsQueued(queue, p) {
      var i: int :| i in queue && i < cursor && queue[i] == p;
    }
    if !initiated {
      assert NoneReady(queue, v);
      if partly.Some? {
        var i: int :| i in queue && i < cursor && queue[i] == partly.value;
        assert !v(queue[i]).Skipped?;
        assert partly.value in now + {partly.value};
      }
    }
  }

  /** A limit stopped the scan after a part had been started. */
  lemma ScanStops(queue: map<int, int>, cursor: int, v: int -> Visit, was: set<int>, now: set<int>, complete: bool,
                  partly: Option<nat>, priority: nat)
    requires Scan(queue, cursor, v, was, now, true, complete, partly, priority)
    ensures Chosen(queue, v, was, now, true, false, priority, true)
  {
    forall p: int | QueuedBefore(queue, cursor, p) ensures IsQueued(queue, p) {
      var i: int :| i in queue && i < cursor && queue[i] == p;
    }
    var p: int :| p in now && p !in was;
    var i: int :| i in queue && i < cursor && queue[i] == p;
    assert !v(queue[i]).Skipped?;
  }

  /** One partly zero part is started whatever the limits say. */
  lemma ChosenAnyway(queue: map<int, int>, v: int -> Visit, was: set<int>, now: set<int>, priority: nat, limited: bool)
    requires Chosen(queue, v, was, now, true, false, priority, limited) && NoneReady(queue, v)
    ensures forall l: bool :: Chosen(queue, v, was, now, true, false, priority, l)
  {
  }

  lemma AllSkippedIs(queue: map<int, int>, v: int -> Visit, was: set<int>, now: set<int>, initiated: bool,
                     priority: nat, limited: bool)
    requires Chosen(queue, v, was, now, initiated, true, priority, limited)
    ensures forall i: int :: i in queue ==> v(queue[i]).Skipped?
    ensures now == was && !initiated
  {
    assert forall p: int :: IsQueued(queue, p) ==> v(p).Skipped?;
    assert forall p: int :: p in now ==> p in was;
    assert now == was;
  }

  lemma ChosenIs(queue: map<int, int>, v: int -> Visit, was: set<int>, now: set<int>, initiated: bool, complete: bool,
                 priority: nat, limited: bool, limited': bool)
    requires Chosen(queue, v, was, now, initiated, complete, priority, limited) && (limited ==> limited')
    ensures initiated == (now != was) && complete == AllSkip(queue, v)
    ensures Chosen(queue, v, was, now, now != was, AllSkip(queue, v), priority, limited')
  {
  }

  lemma SomeNotSkipped(queue: map<int, int>, v: int -> Visit, was: set<int>, now: set<int>, complete: bool,
                       priority: nat, limited: bool)
    requires Chosen(queue, v, was, now, true, complete, priority, limited)
    ensures !AllSkip(queue, v)
  {
    if complete { AllSkippedIs(queue, v, was, now, true, priority, limited); }
  }
}
