/**
 What each operation of a buffer list does to every byte, and the steps by which the walks
 over the list get there. A walk is at a cursor: bytes before it are done, bytes from it on
 are as they were.
 */
module BufferChanges {
  import opened Options
  import opened FileBuffers

  // ----- The walk that erases a range -----

  /** As `ErasedAt`, for a walk that has handled the buffers stored below `cursor`. */
  ghost predicate ErasedBelow(m: Buffers, m': Buffers, cur: nat, lo: int, hi: int, filter: Filter, cursor: int, x: int)
  {
    if Covers(m, KeyAt(m, x), x) && KeyAt(m, x) < cursor
    then ErasedAt(m, m', cur, lo, hi, filter, x)
    else CellAt(m', x) == CellAt(m, x)
  }

  ghost predicate ErasedUpTo(m: Buffers, m': Buffers, cur: nat, lo: int, hi: int, filter: Filter, cursor: int)
  {
    forall x: int {:trigger CellAt(m', x)} {:trigger ErasedBelow(m, m', cur, lo, hi, filter, cursor, x)} ::
      ErasedBelow(m, m', cur, lo, hi, filter, cursor, x)
  }

  lemma EraseStart(m: Buffers, cur: nat, lo: int, hi: int, filter: Filter, start: int)
    requires start == lo + 1
    ensures ErasedUpTo(m, m, cur, lo, hi, filter, start)
  {
    forall x: int ensures ErasedBelow(m, m, cur, lo, hi, filter, start, x) { }
  }

  lemma EraseStepAt(m: Buffers, m': Buffers, m'': Buffers, cur: nat, cur': nat, lo: int, hi: int, filter: Filter,
                    cursor: int, k: int, x: int)
    requires Shape(m) && Shape(m') && cur <= cur' && SameFrom(m, m', cursor) && IsNext(m', cursor, k)
    requires ErasedBelow(m, m', cur, lo, hi, filter, cursor, x)
    requires if filter.Passes(m'[k].kind) then CutAt(m', m'', k, lo, hi, cur', x) else m'' == m'
    ensures ErasedBelow(m, m'', cur, lo, hi, filter, k + 1, x)
  {
    if Covers(m, k, x) {
      CoveredCell(m, k, x);
      CoveredCell(m', k, x);
      assert forall j: int :: Covers(m, j, x) ==> j == k;
    } else {
      assert !Covers(m', k, x);
      assert forall j: int :: Covers(m, j, x) && j < k + 1 ==> j < cursor;
    }
  }

  lemma EraseStep(m: Buffers, m': Buffers, m'': Buffers, cur: nat, cur': nat, lo: int, hi: int, filter: Filter,
                  cursor: int, k: int, next: int)
    requires Shape(m) && Shape(m') && cur <= cur' && SameFrom(m, m', cursor) && IsNext(m', cursor, k)
    requires ErasedUpTo(m, m', cur, lo, hi, filter, cursor) && next == k + 1
    requires if filter.Passes(m'[k].kind) then IsCut(m', m'', k, lo, hi, cur') else m'' == m'
    ensures ErasedUpTo(m, m'', cur, lo, hi, filter, next) && SameFrom(m, m'', next)
  {
    forall x: int ensures ErasedBelow(m, m'', cur, lo, hi, filter, next, x) {
      EraseStepAt(m, m', m'', cur, cur', lo, hi, filter, cursor, k, x);
    }
  }

  /** The walk stops at the first buffer from `cursor` on, if any, that starts at or after `hi`. */
  lemma EraseEnd(m: Buffers, m': Buffers, cur: nat, lo: int, hi: int, filter: Filter, cursor: int, next: Option<int>)
    requires Shape(m) && Shape(m') && SameFrom(m, m', cursor) && IsFirst(m', cursor, next)
    requires next.Some? ==> m'[next.value].offset >= hi
    requires ErasedUpTo(m, m', cur, lo, hi, filter, cursor)
    ensures Erased(m, m', cur, lo, hi, filter)
  {
    hide Shape, ErasedBelow, ErasedAt, IsFirst, SameFrom, CellAt;
    forall x: int ensures ErasedAt(m, m', cur, lo, hi, filter, x) {
      EraseEndAt(m, m', cur, lo, hi, filter, cursor, next, x);
    }
  }

  lemma EraseEndAt(m: Buffers, m': Buffers, cur: nat, lo: int, hi: int, filter: Filter, cursor: int,
                   next: Option<int>, x: int)
    requires Shape(m) && Shape(m') && SameFrom(m, m', cursor) && IsFirst(m', cursor, next)
    requires next.Some? ==> m'[next.value].offset >= hi
    requires ErasedBelow(m, m', cur, lo, hi, filter, cursor, x)
    ensures ErasedAt(m, m', cur, lo, hi, filter, x)
  {
    if k: int :| Covers(m, k, x) && k >= cursor {
      assert k in m';
      assert next.value <= k;
    }
  }

  // ----- Filling a gap -----

  /** [lo, lo + |data|) now reads `data` under `id`; every other byte is kept. */
  ghost predicate FilledAt(m: Buffers, m': Buffers, cur: nat, lo: int, data: seq<byte>, state: BufferState, id: nat,
                           x: int)
  {
    if lo <= x < lo + |data|
    then CellAt(m', x) == Some(Cell(Kind(state, false, false, false), id, Some(data[x - lo])))
    else Kept(CellAt(m, x), CellAt(m', x), cur)
  }

  ghost predicate Filled(m: Buffers, m': Buffers, cur: nat, lo: int, data: seq<byte>, state: BufferState, id: nat)
  {
    forall x: int {:trigger CellAt(m', x)} {:trigger FilledAt(m, m', cur, lo, data, state, id, x)} ::
      FilledAt(m, m', cur, lo, data, state, id, x)
  }

  lemma FillNew(m: Buffers, b: FileBuffer, q: nat, m': Buffers, cur: nat)
    requires Shape(m) && b.WellFormed() && Vacant(m, b.offset, b.End()) && b.data.Mem?
    requires m' == m[b.End() := b.(queueId := q)]
    ensures Filled(m, m', cur, b.offset, b.data.bytes, b.kind.state, b.dirtyID)
  {
    var r := b.(queueId := q);
    InsertShape(m, r);
    forall x: int ensures FilledAt(m, m', cur, b.offset, b.data.bytes, b.kind.state, b.dirtyID, x) {
      InsertCells(m, r, x);
    }
  }

  /** The buffer `b` extended by `data`, after the source's Append. */
  function Extended(b: FileBuffer, data: seq<byte>, id: nat, cap: nat, ptr: nat): FileBuffer
    requires b.data.Mem?
  {
    b.(length := b.length + |data|, dirtyID := id, data := Mem(b.data.bytes + data, cap, ptr))
  }

  lemma ExtendShape(m: Buffers, k: int, data: seq<byte>, id: nat, cap: nat, ptr: nat)
    requires Shape(m) && k in m && m[k].data.Mem? && |data| > 0 && Vacant(m, k, k + |data|)
    requires (m[k].kind.state.Dirty? <==> id != 0) && cap >= m[k].length + |data|
    ensures var b := Extended(m[k], data, id, cap, ptr);
            Shape(m - {k}) && b.WellFormed() && Vacant(m - {k}, b.offset, b.End())
  {
    forall x: int | m[k].offset <= x < k + |data| ensures CellAt(m - {k}, x).None? {
      DeleteCells(m, k, x);
    }
  }

  lemma FillExtend(m: Buffers, k: int, data: seq<byte>, id: nat, cap: nat, ptr: nat, q: nat, m': Buffers, cur: nat)
    requires Shape(m) && k in m && m[k].data.Mem? && |data| > 0 && Vacant(m, k, k + |data|)
    requires (m[k].kind.state.Dirty? <==> id != 0) && cap >= m[k].length + |data| && (id == 0 || id > cur)
    requires m' == (m - {k})[k + |data| := Extended(m[k], data, id, cap, ptr).(queueId := q)]
    ensures Filled(m, m', cur, k, data, m[k].kind.state, id)
  {
    hide FilledAt, Shape, CellAt;
    forall x: int ensures FilledAt(m, m', cur, k, data, m[k].kind.state, id, x) {
      ExtendAt(m, k, data, id, cap, ptr, q, m', cur, x);
    }
  }

  lemma ExtendAt(m: Buffers, k: int, data: seq<byte>, id: nat, cap: nat, ptr: nat, q: nat, m': Buffers, cur: nat,
                 x: int)
    requires Shape(m) && k in m && m[k].data.Mem? && |data| > 0 && Vacant(m, k, k + |data|)
    requires (m[k].kind.state.Dirty? <==> id != 0) && cap >= m[k].length + |data| && (id == 0 || id > cur)
    requires m' == (m - {k})[k + |data| := Extended(m[k], data, id, cap, ptr).(queueId := q)]
    ensures FilledAt(m, m', cur, k, data, m[k].kind.state, id, x)
  {
    hide Shape, CellAt;
    var r := Extended(m[k], data, id, cap, ptr).(queueId := q);
    StoredBuffer(m, k);
    ExtendShape(m, k, data, id, cap, ptr);
    InsertShape(m - {k}, r);
    InsertCells(m - {k}, r, x);
    DeleteCells(m, k, x);
    if Covers(m, k, x) { CoveredCell(m, k, x); }
  }

  // ----- The walk that fills every gap of a range -----

  /** The scan from `s` met nothing, or a buffer that starts later: a gap runs up to it. */
  lemma GapAhead(m: Buffers, s: int, next: Option<int>, e: int)
    requires Shape(m) && IsFirst(m, s + 1, next)
    requires next.Some? ==> m[next.value].offset >= e
    ensures Vacant(m, s, e)
  {
    forall x: int | s <= x < e ensures CellAt(m, x).None? {
      assert forall k: int :: Covers(m, k, x) ==> k >= s + 1;
    }
  }

  lemma CoveredAhead(m: Buffers, s: int, k: int)
    requires Shape(m) && k in m && m[k].offset <= s < k
    ensures Covered(m, s, k)
  {
    forall x: int | s <= x < k ensures CellAt(m, x).Some? { CoveredCell(m, k, x); }
  }

  /** The gaps of `m` below `cursor` now read `data`; everything else is kept. */
  ghost predicate GapsFilledAt(m: Buffers, m': Buffers, cur: nat, lo: int, data: seq<byte>, state: BufferState,
                               cursor: int, x: int)
  {
    if lo <= x < cursor && x < lo + |data| && CellAt(m, x).None?
    then Reads(CellAt(m', x), state, data[x - lo], cur)
    else Kept(CellAt(m, x), CellAt(m', x), cur)
  }

  ghost predicate GapsFilled(m: Buffers, m': Buffers, cur: nat, lo: int, data: seq<byte>, state: BufferState,
                             cursor: int)
  {
    forall x: int {:trigger CellAt(m', x)} {:trigger GapsFilledAt(m, m', cur, lo, data, state, cursor, x)} ::
      GapsFilledAt(m, m', cur, lo, data, state, cursor, x)
  }

  /** A byte of memory holding `b`, clean or under a dirty id newer than `cur`. */
  ghost predicate Reads(c: Option<Cell>, state: BufferState, b: byte, cur: nat)
  {
    && c.Some? && c.value.kind == Kind(state, false, false, false) && c.value.content == Some(b)
    && if state.Dirty? then c.value.id > cur else c.value.id == 0
  }

  lemma GapsStart(m: Buffers, cur: nat, lo: int, data: seq<byte>, state: BufferState)
    ensures GapsFilled(m, m, cur, lo, data, state, lo)
  {
    forall x: int ensures GapsFilledAt(m, m, cur, lo, data, state, lo, x) { }
  }

  lemma GapsSkip(m: Buffers, m': Buffers, cur: nat, lo: int, data: seq<byte>, state: BufferState, cursor: int, s: int)
    requires GapsFilled(m, m', cur, lo, data, state, cursor) && lo <= cursor <= s && Covered(m', cursor, s)
    ensures GapsFilled(m, m', cur, lo, data, state, s)
  {
    forall x: int ensures GapsFilledAt(m, m', cur, lo, data, state, s, x) {
      assert GapsFilledAt(m, m', cur, lo, data, state, cursor, x);
      if cursor <= x < s { assert CellAt(m', x).Some?; }
    }
  }

  lemma GapsStep(m: Buffers, m': Buffers, m'': Buffers, cur: nat, cur': nat, lo: int, data: seq<byte>,
                 state: BufferState, s: int, e: int, id: nat)
    requires cur <= cur' && (if state.Dirty? then id > cur else id == 0)
    requires lo <= s < e <= lo + |data| && Vacant(m', s, e)
    requires GapsFilled(m, m', cur, lo, data, state, s)
    requires Filled(m', m'', cur', s, data[s - lo..e - lo], state, id)
    ensures GapsFilled(m, m'', cur, lo, data, state, e)
  {
    forall x: int ensures GapsFilledAt(m, m'', cur, lo, data, state, e, x) {
      assert GapsFilledAt(m, m', cur, lo, data, state, s, x);
      assert FilledAt(m', m'', cur', s, data[s - lo..e - lo], state, id, x);
      if s <= x < e { assert CellAt(m', x).None?; }
    }
  }

  lemma GapsClamp(m: Buffers, m': Buffers, cur: nat, lo: int, data: seq<byte>, state: BufferState, cursor: int)
    requires GapsFilled(m, m', cur, lo, data, state, cursor) && cursor >= lo + |data|
    ensures GapsFilled(m, m', cur, lo, data, state, lo + |data|)
  {
    var hi := lo + |data|;
    forall x: int ensures GapsFilledAt(m, m', cur, lo, data, state, hi, x) {
      assert GapsFilledAt(m, m', cur, lo, data, state, cursor, x);
    }
  }

  /** How many bytes of [lo, hi) no buffer covers. */
  ghost function GapCount(m: Buffers, lo: int, hi: int): nat
    decreases hi - lo
  {
    if hi <= lo then 0 else GapCount(m, lo, hi - 1) + if CellAt(m, hi - 1).None? then 1 else 0
  }

  lemma {:induction false} GapCountStep(m: Buffers, lo: int, s: int, e: int)
    requires lo <= s <= e && (Covered(m, s, e) || Vacant(m, s, e))
    ensures GapCount(m, lo, e) == GapCount(m, lo, s) + if Covered(m, s, e) then 0 else e - s
    decreases e - s
  {
    if s < e {
      GapCountStep(m, lo, s, e - 1);
      if Covered(m, s, e) { assert CellAt(m, e - 1).Some?; } else { assert CellAt(m, e - 1).None?; }
    }
  }

  lemma GapsAsBefore(m: Buffers, m': Buffers, cur: nat, lo: int, data: seq<byte>, state: BufferState, cursor: int,
                     s: int, e: int)
    requires GapsFilled(m, m', cur, lo, data, state, cursor) && cursor <= s
    ensures Covered(m', s, e) ==> Covered(m, s, e)
    ensures Vacant(m', s, e) ==> Vacant(m, s, e)
  {
    forall x: int | s <= x < e ensures CellAt(m', x).Some? <==> CellAt(m, x).Some? {
      assert GapsFilledAt(m, m', cur, lo, data, state, cursor, x);
    }
  }

  // ----- Adding data: erase what it may overwrite, then fill the gaps -----

  /** Data of state `state` may be stored at `x`: clean data yields to anything unclean. */
  ghost predicate Writable(m: Buffers, state: BufferState, x: int)
  {
    CellAt(m, x).None? || CellAt(m, x).value.kind.state.Clean? || !state.Clean?
  }

  ghost predicate AddedAt(m: Buffers, m': Buffers, cur: nat, lo: int, data: seq<byte>, state: BufferState, x: int)
  {
    if lo <= x < lo + |data| && Writable(m, state, x)
    then Reads(CellAt(m', x), state, data[x - lo], cur)
    else Kept(CellAt(m, x), CellAt(m', x), cur)
  }

  ghost predicate Added(m: Buffers, m': Buffers, cur: nat, lo: int, data: seq<byte>, state: BufferState)
  {
    forall x: int {:trigger CellAt(m', x)} {:trigger AddedAt(m, m', cur, lo, data, state, x)} ::
      AddedAt(m, m', cur, lo, data, state, x)
  }

  ghost function WritableCount(m: Buffers, state: BufferState, lo: int, hi: int): nat
    decreases hi - lo
  {
    if hi <= lo then 0 else WritableCount(m, state, lo, hi - 1) + if Writable(m, state, hi - 1) then 1 else 0
  }

  lemma {:induction false} WritableIsGap(m: Buffers, m1: Buffers, cur: nat, lo: int, hi: int, state: BufferState,
                                         h: int)
    requires Erased(m, m1, cur, lo, hi, Overwritten(state)) && lo <= h <= hi
    ensures WritableCount(m, state, lo, h) == GapCount(m1, lo, h)
    decreases h - lo
  {
    if lo < h {
      WritableIsGap(m, m1, cur, lo, hi, state, h - 1);
      assert ErasedAt(m, m1, cur, lo, hi, Overwritten(state), h - 1);
      assert CellAt(m1, h - 1).None? <==> Writable(m, state, h - 1);
    }
  }

  lemma {:induction false} UncleanDataWritesAll(m: Buffers, state: BufferState, lo: int, hi: int)
    requires !state.Clean? && lo <= hi
    ensures WritableCount(m, state, lo, hi) == hi - lo
    decreases hi - lo
  {
    if lo < hi { UncleanDataWritesAll(m, state, lo, hi - 1); }
  }

  lemma AddCompose(m: Buffers, m1: Buffers, m2: Buffers, cur: nat, cur1: nat, lo: int, data: seq<byte>,
                   state: BufferState)
    requires cur <= cur1 && Erased(m, m1, cur, lo, lo + |data|, Overwritten(state))
    requires GapsFilled(m1, m2, cur1, lo, data, state, lo + |data|)
    ensures Added(m, m2, cur, lo, data, state)
  {
    forall x: int ensures AddedAt(m, m2, cur, lo, data, state, x) {
      assert ErasedAt(m, m1, cur, lo, lo + |data|, Overwritten(state), x);
      assert GapsFilledAt(m1, m2, cur1, lo, data, state, lo + |data|, x);
    }
  }

  /** What one turn of the fill walk adds to the count: nothing over [cursor, s), all of [s, e). */
  lemma GapsAdvance(m: Buffers, m': Buffers, cur: nat, lo: int, data: seq<byte>, state: BufferState, cursor: int,
                    s: int, e: int)
    requires GapsFilled(m, m', cur, lo, data, state, cursor) && lo <= cursor <= s && Covered(m', cursor, s)
    requires cursor < lo + |data| && (s < lo + |data| ==> s < e <= lo + |data| && Vacant(m', s, e))
    ensures GapsFilled(m, m', cur, lo, data, state, s)
    ensures s < lo + |data| ==> GapCount(m, lo, e) == GapCount(m, lo, cursor) + e - s
    ensures s >= lo + |data| ==> GapCount(m, lo, lo + |data|) == GapCount(m, lo, cursor)
  {
    var s' := if s < lo + |data| then s else lo + |data|;
    GapsAsBefore(m, m', cur, lo, data, state, cursor, cursor, s');
    GapCountStep(m, lo, cursor, s');
    GapsSkip(m, m', cur, lo, data, state, cursor, s);
    if s < lo + |data| {
      GapsAsBefore(m, m', cur, lo, data, state, s, s, e);
      GapCountStep(m, lo, s, e);
      assert !Covered(m, s, e) by { assert CellAt(m, s).None?; }
    }
  }

  // ----- Zero-filling, splitting in place -----

  function ZeroCell(id: nat): Cell
  {
    Cell(Kind(Dirty, false, false, true), id, Some(0))
  }

  ghost predicate ZeroedAt(m: Buffers, m': Buffers, cur: nat, lo: int, hi: int, id: nat, x: int)
  {
    if lo <= x < hi then CellAt(m', x) == Some(ZeroCell(id)) else Kept(CellAt(m, x), CellAt(m', x), cur)
  }

  ghost predicate Zeroed(m: Buffers, m': Buffers, cur: nat, lo: int, hi: int, id: nat)
  {
    forall x: int {:trigger CellAt(m', x)} {:trigger ZeroedAt(m, m', cur, lo, hi, id, x)} ::
      ZeroedAt(m, m', cur, lo, hi, id, x)
  }

  lemma ErasedIsVacant(m: Buffers, m': Buffers, cur: nat, lo: int, hi: int)
    requires Erased(m, m', cur, lo, hi, Everything)
    ensures Vacant(m', lo, hi)
  {
    forall x: int | lo <= x < hi ensures CellAt(m', x).None? { assert ErasedAt(m, m', cur, lo, hi, Everything, x); }
  }

  lemma ZeroCompose(m: Buffers, m1: Buffers, m2: Buffers, cur: nat, lo: nat, hi: nat, id: nat, q: nat)
    requires Erased(m, m1, cur, lo, hi, Everything) && lo < hi && id != 0 && Shape(m1)
    requires m2 == m1[hi := FileBuffer(lo, hi - lo, Kind(Dirty, false, false, true), id, q, Nil)]
    ensures Zeroed(m, m2, cur, lo, hi, id)
  {
    ErasedIsVacant(m, m1, cur, lo, hi);
    var b := FileBuffer(lo, hi - lo, Kind(Dirty, false, false, true), id, q, Nil);
    InsertShape(m1, b);
    forall x: int ensures ZeroedAt(m, m2, cur, lo, hi, id, x) {
      assert ErasedAt(m, m1, cur, lo, hi, Everything, x);
      InsertCells(m1, b, x);
    }
  }

  ghost predicate AllKept(m: Buffers, m': Buffers, cur: nat)
  {
    forall x: int {:trigger CellAt(m', x)} :: Kept(CellAt(m, x), CellAt(m', x), cur)
  }

  lemma AllKeptTwice(m: Buffers, m1: Buffers, m2: Buffers, cur: nat, cur1: nat)
    requires AllKept(m, m1, cur) && AllKept(m1, m2, cur1) && cur <= cur1
    ensures AllKept(m, m2, cur)
  {
    forall x: int ensures Kept(CellAt(m, x), CellAt(m2, x), cur) {
      assert Kept(CellAt(m, x), CellAt(m1, x), cur) && Kept(CellAt(m1, x), CellAt(m2, x), cur1);
    }
  }

  /** No buffer has `off` strictly inside. */
  ghost predicate BoundaryAt(m: Buffers, off: int)
  {
    forall k: int :: k in m ==> k <= off || off <= m[k].offset
  }

  lemma SplitKeeps(m: Buffers, m': Buffers, k: int, off: int, cur: nat, cur': nat)
    requires Shape(m) && IsSplit(m, m', k, off, cur, cur')
    ensures AllKept(m, m', cur)
    ensures BoundaryAt(m', off) && forall o: int :: BoundaryAt(m, o) ==> BoundaryAt(m', o)
  {
    forall x: int ensures Kept(CellAt(m, x), CellAt(m', x), cur) {
      SplitCells(m, k, off, m'[k].dirtyID, m'[off], x);
      if Covers(m, k, x) { CoveredCell(m, k, x); }
    }
  }

  // ----- Changing the state of whole buffers -----

  function InState(b: FileBuffer, state: BufferState): FileBuffer
  {
    b.(kind := b.kind.(state := state), dirtyID := 0)
  }

  function CellInState(c: Cell, state: BufferState): Cell
  {
    c.(kind := c.kind.(state := state), id := 0)
  }

  /** Buffers stored in [start, cursor) whose id was collected moved to `state`; nothing else changed. */
  ghost predicate RestatedAt(m: Buffers, m': Buffers, ids: set<nat>, state: BufferState, start: int, cursor: int,
                             x: int)
  {
    if CellAt(m, x).Some? && start <= KeyAt(m, x) < cursor && CellAt(m, x).value.id != 0 && CellAt(m, x).value.id in ids
    then CellAt(m', x) == Some(CellInState(CellAt(m, x).value, state))
    else CellAt(m', x) == CellAt(m, x)
  }

  ghost predicate Restated(m: Buffers, m': Buffers, ids: set<nat>, state: BufferState, start: int, cursor: int)
  {
    && SameExtents(m, m')
    && forall x: int {:trigger CellAt(m', x)} {:trigger RestatedAt(m, m', ids, state, start, cursor, x)} ::
         RestatedAt(m, m', ids, state, start, cursor, x)
  }

  /** The walk from `lo` has passed the buffers stored before `start`: all but the last of them begin before `last`. */
  ghost predicate VisitedTo(m: Buffers, lo: int, start: int, last: int, done: bool)
  {
    && (forall j: int, k: int :: j in m && k in m && lo < j < k < start ==> m[j].offset < last)
    && (!done ==> forall j: int :: j in m && lo < j < start ==> m[j].offset < last)
  }

  lemma VisitedStart(m: Buffers, lo: int, last: int)
    ensures VisitedTo(m, lo, lo + 1, last, false)
  {
  }

  lemma VisitedNext(m: Buffers, lo: int, start: int, k: int, last: int, done: bool)
    requires VisitedTo(m, lo, start, last, false) && IsFirst(m, start, Some(k)) && done == (m[k].offset >= last)
    ensures VisitedTo(m, lo, k + 1, last, done)
  {
  }

  lemma VisitedOnly(m: Buffers, lo: int, start: int, last: int, done: bool)
    requires VisitedTo(m, lo, start, last, done)
    ensures forall j: int, k: int :: j in m && k in m && lo < j < k < start ==> m[j].offset < last
  {
  }

  ghost predicate SameExtents(m: Buffers, m': Buffers)
  {
    forall k: int :: (k in m <==> k in m') && (k in m ==> m'[k].offset == m[k].offset)
  }

  lemma SameKey(m: Buffers, m': Buffers, x: int)
    requires Shape(m) && Shape(m') && SameExtents(m, m')
    ensures KeyAt(m', x) == KeyAt(m, x)
  {
    var k := KeyAt(m, x);
    if Covers(m, k, x) {
      CoveredCell(m, k, x);
      CoveredCell(m', k, x);
    } else {
      assert forall j: int :: Covers(m', j, x) ==> Covers(m, j, x);
    }
  }

  lemma RestateStart(m: Buffers, ids: set<nat>, state: BufferState, start: int)
    ensures Restated(m, m, ids, state, start, start) && SameFrom(m, m, start)
  {
  }

  lemma RestateStep(m: Buffers, m': Buffers, m'': Buffers, ids: set<nat>, state: BufferState, start: int, cursor: int,
                    k: int, next: int, q: nat)
    requires Shape(m) && Shape(m') && SameFrom(m, m', cursor) && IsNext(m', cursor, k) && next == k + 1
    requires start <= cursor
    requires Restated(m, m', ids, state, start, cursor)
    requires if m'[k].dirtyID != 0 && m'[k].dirtyID in ids
             then InState(m'[k], state).WellFormed() && m'' == m'[k := InState(m'[k], state).(queueId := q)]
             else m'' == m'
    ensures Restated(m, m'', ids, state, start, next) && SameFrom(m, m'', next)
  {
    hide CellAt, KeyAt, RestatedAt, Shape;
    forall x: int ensures RestatedAt(m, m'', ids, state, start, next, x) {
      RestatePoint(m, m', m'', ids, state, start, cursor, k, next, q, x);
    }
    assert SameExtents(m, m'');
  }

  lemma RestatePoint(m: Buffers, m': Buffers, m'': Buffers, ids: set<nat>, state: BufferState, start: int,
                     cursor: int, k: int, next: int, q: nat, x: int)
    requires Shape(m) && Shape(m') && SameFrom(m, m', cursor) && IsNext(m', cursor, k) && next == k + 1
    requires start <= cursor
    requires SameExtents(m, m') && RestatedAt(m, m', ids, state, start, cursor, x)
    requires if m'[k].dirtyID != 0 && m'[k].dirtyID in ids
             then InState(m'[k], state).WellFormed() && m'' == m'[k := InState(m'[k], state).(queueId := q)]
             else m'' == m'
    ensures RestatedAt(m, m'', ids, state, start, next, x)
  {
    hide Shape, KeyAt;
    SameKey(m, m', x);
    if m'[k].dirtyID != 0 && m'[k].dirtyID in ids { ReplaceCells(m', k, InState(m'[k], state).(queueId := q), x); }
    if Covers(m', k, x) { CoveredCell(m', k, x); CoveredCell(m, k, x); }
    if CellAt(m, x).Some? && KeyAt(m, x) != k { assert KeyAt(m, x) < next ==> KeyAt(m, x) < cursor; }
  }

  /** Every buffer stored from `start` on begins after `last`. */
  ghost predicate AllPast(m: Buffers, start: int, last: int)
  {
    forall k: int :: k in m && k >= start ==> m[k].offset > last
  }

  lemma PastLast(m: Buffers, k: int, last: int)
    requires Shape(m) && k in m && m[k].offset >= last
    ensures AllPast(m, k + 1, last)
  {
  }

  // ----- After a finished multipart upload -----

  /** What a finished upload leaves of a byte: flushed bytes are clean, evicted ones are gone. */
  function Settled(c: Option<Cell>): Option<Cell>
  {
    if c.None? then None
    else match c.value.kind.state
      case FlCleared => None
      case FlushedFull => Some(CellInState(c.value, Clean))
      case FlushedCut => Some(CellInState(c.value, Clean))
      case _ => c
  }

  ghost predicate SettledAt(m: Buffers, m': Buffers, cursor: int, x: int)
  {
    CellAt(m', x) == if CellAt(m, x).Some? && KeyAt(m, x) < cursor then Settled(CellAt(m, x)) else CellAt(m, x)
  }

  ghost predicate SettledUpTo(m: Buffers, m': Buffers, cursor: int)
  {
    && SameFrom(m, m', cursor)
    && forall x: int {:trigger CellAt(m', x)} {:trigger SettledAt(m, m', cursor, x)} :: SettledAt(m, m', cursor, x)
  }

  lemma SettleStart(m: Buffers)
    requires Shape(m)
    ensures SettledUpTo(m, m, 0)
  {
  }

  /** What SetFlushedClean does to the buffer at `k`. */
  ghost predicate SettledBuffer(m: Buffers, m': Buffers, k: int, q: nat)
    requires k in m
  {
    match m[k].kind.state
    case FlCleared => m' == m - {k}
    case FlushedFull => m' == m[k := InState(m[k], Clean).(queueId := q)]
    case FlushedCut => m' == m[k := InState(m[k], Clean).(queueId := q)]
    case _ => m' == m
  }

  lemma SettleStep(m: Buffers, m': Buffers, m'': Buffers, cursor: int, k: int, next: int, q: nat)
    requires Shape(m) && Shape(m') && Shape(m'') && SettledUpTo(m, m', cursor) && IsNext(m', cursor, k) && next == k + 1
    requires SettledBuffer(m', m'', k, q)
    ensures SettledUpTo(m, m'', next)
  {
    hide SettledAt, CellAt, Shape;
    forall x: int ensures SettledAt(m, m'', next, x) { SettleStepAt(m, m', m'', cursor, k, next, q, x); }
  }

  lemma SettleStepAt(m: Buffers, m': Buffers, m'': Buffers, cursor: int, k: int, next: int, q: nat, x: int)
    requires Shape(m) && Shape(m') && Shape(m'') && SameFrom(m, m', cursor) && IsNext(m', cursor, k) && next == k + 1
    requires SettledBuffer(m', m'', k, q) && SettledAt(m, m', cursor, x)
    ensures SettledAt(m, m'', next, x)
  {
    if Covers(m', k, x) {
      CoveredCell(m', k, x);
      CoveredCell(m, k, x);
      if m'[k].kind.state.FlCleared? { DeleteCells(m', k, x); }
      else { assert Covers(m'', k, x); CoveredCell(m'', k, x); }
    } else {
      SameCover(m', m'', x, {k});
      if CellAt(m, x).Some? { assert KeyAt(m, x) != k; assert KeyAt(m, x) < next ==> KeyAt(m, x) < cursor; }
    }
  }

  lemma SettleEnd(m: Buffers, m': Buffers, cursor: int, x: int)
    requires Shape(m) && SettledUpTo(m, m', cursor) && IsFirst(m', cursor, None)
    ensures CellAt(m', x) == Settled(CellAt(m, x))
  {
    assert SettledAt(m, m', cursor, x);
  }

  // ----- Dropping a buffer from memory -----

  /** What eviction leaves of a byte: on disk, evicted under an open upload, or nothing. */
  function Evicted(c: Cell, onDisk: bool): Option<Cell>
  {
    if onDisk then Some(Cell(c.kind.(onDisk := true), c.id, None))
    else if c.kind.state.FlushedFull? then Some(Cell(c.kind.(state := FlCleared), c.id, None))
    else None
  }

  ghost predicate EvictedAt(m: Buffers, m': Buffers, k: int, onDisk: bool, x: int)
  {
    CellAt(m', x) == if Covers(m, k, x) then Evicted(m[k].CellOf(x), onDisk) else CellAt(m, x)
  }

  /** The buffer at `k` without its memory, if anything of it stays in the list. */
  function Emptied(b: FileBuffer, onDisk: bool): FileBuffer
  {
    b.(kind := if onDisk then b.kind.(onDisk := true) else b.kind.(state := FlCleared), data := Nil)
  }

  /** `r` is the emptied buffer at `k`, having absorbed the one at `p` that ends where it starts, if any. */
  ghost predicate IsAbsorbed(m: Buffers, k: int, onDisk: bool, p: Option<int>, r: FileBuffer)
  {
    && k in m
    && match p
       case None => r == Emptied(m[k], onDisk).(queueId := r.queueId)
       case Some(j) =>
         && j in m && j == m[k].offset && m[j].data.Nil? && m[j].kind == Emptied(m[k], onDisk).kind && m[j].dirtyID == 0
         && r == Emptied(m[k], onDisk).(offset := m[j].offset, length := m[j].length + m[k].length,
                                        queueId := r.queueId)
  }

  function Without(m: Buffers, p: Option<int>): Buffers
  {
    if p.Some? then m - {p.value} else m
  }

  lemma AbsorbShape(m: Buffers, k: int, onDisk: bool, p: Option<int>, r: FileBuffer)
    requires Shape(m) && k in m && m[k].data.Mem? && m[k].Queued() && (onDisk || m[k].kind.state.FlushedFull?)
    requires IsAbsorbed(m, k, onDisk, p, r)
    ensures r.WellFormed() && r.End() == k && Shape(Without(m - {k}, p)[k := r])
  {
    hide Shape;
    var rest := Without(m - {k}, p);
    StoredBuffer(m, k);
    if p.Some? { StoredBuffer(m, p.value); }
    LeftOver(m, rest);
    forall j: int | j in rest ensures (j < k ==> j <= r.offset) && (k < j ==> k <= rest[j].offset) {
      InOrder(m, j, k);
      if p.Some? { InOrder(m, j, p.value); }
    }
    PutBack(rest, k, r);
  }

  lemma InOrder(m: Buffers, j: int, k: int)
    requires Shape(m) && j in m && k in m
    ensures (j < k ==> j <= m[k].offset) && (k < j ==> k <= m[j].offset)
  {
  }

  lemma LeftOver(m: Buffers, rest: Buffers)
    requires Shape(m) && forall j: int :: j in rest ==> j in m && rest[j] == m[j]
    ensures Shape(rest)
  {
  }

  lemma PutBack(rest: Buffers, k: int, r: FileBuffer)
    requires Shape(rest) && r.WellFormed() && r.End() == k && k !in rest
    requires forall j: int :: j in rest ==> (j < k ==> j <= r.offset) && (k < j ==> k <= rest[j].offset)
    ensures Shape(rest[k := r])
  {
  }

  lemma AbsorbCells(m: Buffers, k: int, onDisk: bool, p: Option<int>, r: FileBuffer, x: int)
    requires Shape(m) && k in m && m[k].data.Mem? && m[k].Queued() && (onDisk || m[k].kind.state.FlushedFull?)
    requires IsAbsorbed(m, k, onDisk, p, r)
    ensures EvictedAt(m, Without(m - {k}, p)[k := r], k, onDisk, x)
  {
    AbsorbShape(m, k, onDisk, p, r);
    var m' := Without(m - {k}, p)[k := r];
    if r.offset <= x < k {
      assert Covers(m', k, x);
      CoveredCell(m', k, x);
      if Covers(m, k, x) {
      } else {
        CoveredCell(m, p.value, x);
      }
    } else {
      SameCover(m, m', x, if p.Some? then {k, p.value} else {k});
    }
  }

  ghost function ResidentKeys(m: Buffers): set<int>
  {
    set k: int | k in m && m[k].data.Mem?
  }

  lemma AbsorbResidents(m: Buffers, k: int, onDisk: bool, p: Option<int>, r: FileBuffer)
    requires k in m && m[k].data.Mem? && IsAbsorbed(m, k, onDisk, p, r)
    ensures ResidentKeys(Without(m - {k}, p)[k := r]) == ResidentKeys(m) - {k}
  {
  }

  // ----- Marking gaps as being loaded -----

  const LOADING_CELL := Cell(Kind(Clean, true, false, false), 0, None)

  /** Gaps of [lo, hi) are being loaded; every other byte is untouched. */
  ghost predicate MarkedAt(m: Buffers, m': Buffers, lo: int, hi: int, x: int)
  {
    CellAt(m', x) == if lo <= x < hi && CellAt(m, x).None? then Some(LOADING_CELL) else CellAt(m, x)
  }

  ghost predicate Marked(m: Buffers, m': Buffers, lo: int, hi: int)
  {
    forall x: int {:trigger CellAt(m', x)} {:trigger MarkedAt(m, m', lo, hi, x)} :: MarkedAt(m, m', lo, hi, x)
  }

  lemma MarkStart(m: Buffers, lo: int)
    ensures Marked(m, m, lo, lo)
  {
  }

  lemma MarkedAhead(m: Buffers, m': Buffers, lo: int, cursor: int, hi: int, s: int)
    requires Marked(m, m', lo, cursor) && cursor <= hi && Covered(m', cursor, s)
    ensures Covered(m, hi, s)
  {
    forall x: int | hi <= x < s ensures CellAt(m, x).Some? {
      assert MarkedAt(m, m', lo, cursor, x);
      assert CellAt(m', x).Some?;
    }
  }

  lemma MarkSkip(m: Buffers, m': Buffers, lo: int, cursor: int, s: int)
    requires Marked(m, m', lo, cursor) && lo <= cursor <= s && Covered(m', cursor, s)
    ensures Marked(m, m', lo, s)
  {
    forall x: int ensures MarkedAt(m, m', lo, s, x) {
      assert MarkedAt(m, m', lo, cursor, x);
      if cursor <= x < s { assert CellAt(m', x).Some?; }
    }
  }

  lemma MarkStep(m: Buffers, m': Buffers, m'': Buffers, lo: int, s: nat, e: nat, q: nat)
    requires Shape(m') && Marked(m, m', lo, s) && lo <= s < e && Vacant(m', s, e)
    requires m'' == m'[e := FileBuffer(s, e - s, LOADING_CELL.kind, 0, q, Nil)]
    ensures Marked(m, m'', lo, e)
  {
    var b := FileBuffer(s, e - s, LOADING_CELL.kind, 0, q, Nil);
    InsertShape(m', b);
    forall x: int ensures MarkedAt(m, m'', lo, e, x) {
      assert MarkedAt(m, m', lo, s, x);
      InsertCells(m', b, x);
      if s <= x < e { assert CellAt(m', x).None?; }
    }
  }

  lemma MarkClamp(m: Buffers, m': Buffers, lo: int, hi: int, cursor: int)
    requires Marked(m, m', lo, cursor) && hi <= cursor && Covered(m, hi, cursor)
    ensures Marked(m, m', lo, hi)
  {
    forall x: int ensures MarkedAt(m, m', lo, hi, x) {
      assert MarkedAt(m, m', lo, cursor, x);
      if hi <= x < cursor { assert CellAt(m, x).Some?; }
    }
  }
}
