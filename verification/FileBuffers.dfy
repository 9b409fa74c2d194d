/**
 The values held by a buffer list, and what a list of buffers means byte by byte.

 A list is a map from end offset to buffer, the way the source keys its B-tree.
 `CellAt(m, x)` is the meaning of byte `x`: the kind, dirty id and content of the
 buffer that covers it, or `None` when no buffer does.
 */
module FileBuffers {
  import opened Options

  type byte = b: int | 0 <= b < 256

  datatype BufferState = Clean | Dirty | FlushedFull | FlushedCut | FlCleared

  /** A slice of a shared array: its bytes, its capacity and the array's pointer record. */
  datatype Memory = Nil | Mem(bytes: seq<byte>, cap: nat, ptr: nat)

  datatype Kind = Kind(state: BufferState, loading: bool, onDisk: bool, zero: bool)

  /** The buffer filters that callers pass to RemoveRange. */
  datatype Filter = Everything | Overwritten(state: BufferState) | LoadingFromServer {
    predicate Passes(kind: Kind)
    {
      match this
      case Everything => true
      case Overwritten(state) => kind.state.Clean? || !state.Clean?
      case LoadingFromServer => !kind.onDisk && kind.loading
    }
  }

  datatype Cell = Cell(kind: Kind, id: nat, content: Option<byte>)

  datatype FileBuffer = FileBuffer(
    offset: nat, length: nat, kind: Kind, dirtyID: nat, queueId: nat, data: Memory)
  {
    function End(): nat { offset + length }

    /** Content of the byte at file offset `x`; zero buffers hold no memory and read as 0. */
    function Content(x: int): Option<byte>
    {
      if kind.zero then Some(0)
      else if data.Mem? && offset <= x < offset + |data.bytes| then Some(data.bytes[x - offset])
      else None
    }

    function CellOf(x: int): Cell { Cell(kind, dirtyID, Content(x)) }

    predicate Queued() { kind.state.Clean? || kind.state.FlushedFull? }

    /** Uploaded as a part of an upload that is still open. */
    predicate Flushed() { kind.state.FlushedFull? || kind.state.FlushedCut? || kind.state.FlCleared? }

    predicate WellFormed()
    {
      && length > 0
      && (data.Mem? ==> |data.bytes| == length <= data.cap && !kind.zero && !kind.loading && !kind.onDisk)
      && (kind.zero ==> !kind.loading && !kind.onDisk)
      && (kind.loading ==> kind.state.Clean? && !kind.onDisk)
      && (kind.state.Dirty? <==> dirtyID != 0)
      && (kind.state.Dirty? || kind.state.FlushedCut? ==> data.Mem? || kind.zero)
      && (kind.state.FlCleared? ==> data.Nil? && !kind.zero && !kind.onDisk)
      && (data.Nil? ==> kind.zero || kind.loading || kind.onDisk || kind.state.FlCleared?)
    }
  }

  type Buffers = map<int, FileBuffer>

  ghost predicate Covers(m: Buffers, k: int, x: int)
  {
    k in m && m[k].offset <= x < k
  }

  /** The key of the buffer that covers byte `x`, or -1. */
  ghost function KeyAt(m: Buffers, x: int): int
    ensures KeyAt(m, x) != -1 ==> Covers(m, KeyAt(m, x), x)
    ensures (exists k: int :: Covers(m, k, x)) ==> Covers(m, KeyAt(m, x), x)
  {
    if exists k: int :: Covers(m, k, x) then var k: int :| Covers(m, k, x); k else -1
  }

  ghost function CellAt(m: Buffers, x: int): Option<Cell>
  {
    if Covers(m, KeyAt(m, x), x) then Some(m[KeyAt(m, x)].CellOf(x)) else None
  }

  ghost predicate Vacant(m: Buffers, lo: int, hi: int)
  {
    forall x: int :: lo <= x < hi ==> CellAt(m, x).None?
  }

  ghost predicate Covered(m: Buffers, lo: int, hi: int)
  {
    forall x: int :: lo <= x < hi ==> CellAt(m, x).Some?
  }

  /** Keys are end offsets, buffers are well formed, and no two overlap. */
  ghost predicate Shape(m: Buffers)
  {
    && (forall k: int :: k in m ==> m[k].WellFormed() && m[k].End() == k)
    && (forall j: int, k: int :: j in m && k in m && j < k ==> j <= m[k].offset)
  }

  lemma StoredBuffer(m: Buffers, k: int)
    requires Shape(m) && k in m
    ensures m[k].WellFormed() && m[k].End() == k && m[k].length > 0
  {
  }

  /** Non-zero dirty ids were handed out by the counter and no two buffers share one. */
  ghost predicate DistinctIds(m: Buffers, cur: nat)
  {
    && (forall k: int :: k in m ==> m[k].dirtyID <= cur)
    && (forall j: int, k: int :: j in m && k in m && j != k && m[j].dirtyID != 0 ==> m[j].dirtyID != m[k].dirtyID)
  }

  ghost predicate FreshId(m: Buffers, id: nat)
  {
    id > 0 && forall k: int :: k in m ==> m[k].dirtyID < id
  }

  /** `n` is `o` except that a dirty byte may have moved to an id newer than `cur`. */
  ghost predicate Kept(o: Option<Cell>, n: Option<Cell>, cur: nat)
  {
    || n == o
    || (o.Some? && n.Some? && o.value.id != 0 && n.value.id > cur && n.value == o.value.(id := n.value.id))
  }

  /** The bytes of [lo, hi) held by buffers that pass the filter are gone, all others are kept. */
  ghost predicate Erased(m: Buffers, m': Buffers, cur: nat, lo: int, hi: int, filter: Filter)
  {
    forall x: int {:trigger CellAt(m', x)} {:trigger ErasedAt(m, m', cur, lo, hi, filter, x)} ::
      ErasedAt(m, m', cur, lo, hi, filter, x)
  }

  ghost predicate ErasedAt(m: Buffers, m': Buffers, cur: nat, lo: int, hi: int, filter: Filter, x: int)
  {
    if lo <= x < hi && CellAt(m, x).Some? && filter.Passes(CellAt(m, x).value.kind)
    then CellAt(m', x).None?
    else Kept(CellAt(m, x), CellAt(m', x), cur)
  }

  lemma CoveredCell(m: Buffers, k: int, x: int)
    requires Shape(m) && Covers(m, k, x)
    ensures KeyAt(m, x) == k && CellAt(m, x) == Some(m[k].CellOf(x))
  {
    forall j: int | Covers(m, j, x) ensures j == k {
      if j < k {
      } else if k < j {
      }
    }
  }

  /** No buffer ends in a gap, or where it does. */
  lemma VacantEnd(m: Buffers, lo: int, hi: int)
    requires Shape(m) && Vacant(m, lo, hi)
    ensures forall j: int :: lo < j <= hi ==> j !in m
  {
    forall j: int | lo < j <= hi ensures j !in m {
      if j in m { CoveredCell(m, j, j - 1); }
    }
  }

  lemma InsertShape(m: Buffers, b: FileBuffer)
    requires Shape(m) && b.WellFormed()
    requires Vacant(m, b.offset, b.End())
    ensures b.End() !in m && Shape(m[b.End() := b])
  {
    forall k: int | k in m ensures k <= b.offset || b.End() <= m[k].offset {
      var x := if b.offset <= m[k].offset then m[k].offset else b.offset;
      if b.offset < k && m[k].offset < b.End() {
        CoveredCell(m, k, x);
      }
    }
  }

  lemma InsertCells(m: Buffers, b: FileBuffer, x: int)
    requires Shape(m) && b.End() !in m && Shape(m[b.End() := b])
    ensures CellAt(m[b.End() := b], x) == if b.offset <= x < b.End() then Some(b.CellOf(x)) else CellAt(m, x)
  {
    var e := b.End();
    if b.offset <= x < e {
      assert Covers(m[e := b], e, x);
      CoveredCell(m[e := b], e, x);
    } else {
      SameCover(m, m[e := b], x, {e});
    }
  }

  /** Byte `x` reads the same in two lists that agree on every buffer not stored in `E`. */
  lemma SameCover(m: Buffers, m': Buffers, x: int, E: set<int>)
    requires Shape(m) && Shape(m')
    requires forall e: int :: e in E ==> !Covers(m, e, x) && !Covers(m', e, x)
    requires forall j: int :: j !in E ==> (j in m <==> j in m') && (j in m ==> m'[j] == m[j])
    ensures CellAt(m', x) == CellAt(m, x)
  {
    if k: int :| Covers(m, k, x) {
      assert Covers(m', k, x);
      CoveredCell(m, k, x);
      CoveredCell(m', k, x);
    } else {
      assert forall k: int :: Covers(m', k, x) ==> Covers(m, k, x);
    }
  }

  lemma DeleteCells(m: Buffers, k: int, x: int)
    requires Shape(m) && k in m
    ensures CellAt(m - {k}, x) == if Covers(m, k, x) then None else CellAt(m, x)
  {
    if Covers(m, k, x) {
      assert forall j: int :: Covers(m - {k}, j, x) ==> Covers(m, j, x) && (j < k || k < j);
    } else {
      SameCover(m, m - {k}, x, {k});
    }
  }

  /** Replacing a buffer by one over the same extent changes exactly its own cells. */
  lemma ReplaceCells(m: Buffers, k: int, b: FileBuffer, x: int)
    requires Shape(m) && k in m && b.WellFormed() && b.offset == m[k].offset && b.length == m[k].length
    ensures Shape(m[k := b])
    ensures CellAt(m[k := b], x) == if Covers(m, k, x) then Some(b.CellOf(x)) else CellAt(m, x)
  {
    if Covers(m, k, x) {
      assert Covers(m[k := b], k, x);
      CoveredCell(m[k := b], k, x);
    } else {
      SameCover(m, m[k := b], x, {k});
    }
  }

  /** The piece of `b` below `off`; it keeps the id and the capacity of the whole. */
  function LeftOf(b: FileBuffer, off: int): FileBuffer
    requires b.offset < off < b.End() && b.WellFormed()
  {
    b.(length := off - b.offset,
       data := if b.data.Mem? then b.data.(bytes := b.data.bytes[..off - b.offset]) else Nil)
  }

  /** The piece of `b` from `off` on; `id` replaces its dirty id. */
  function RightOf(b: FileBuffer, off: int, id: nat): FileBuffer
    requires b.offset < off < b.End() && b.WellFormed()
  {
    b.(offset := off, length := b.End() - off, dirtyID := id,
       data := if b.data.Mem?
               then Mem(b.data.bytes[off - b.offset..], b.data.cap - (off - b.offset), b.data.ptr) else Nil)
  }

  lemma SplitShape(m: Buffers, k: int, off: int, id: nat, l: FileBuffer)
    requires Shape(m) && k in m && m[k].offset < off < k
    requires id != 0 <==> m[k].dirtyID != 0
    requires l == LeftOf(m[k], off).(queueId := l.queueId)
    ensures off !in m && Shape(m[k := RightOf(m[k], off, id)][off := l])
  {
    assert RightOf(m[k], off, id).WellFormed() && l.WellFormed();
  }

  lemma SplitCells(m: Buffers, k: int, off: int, id: nat, l: FileBuffer, x: int)
    requires Shape(m) && k in m && m[k].offset < off < k
    requires id != 0 <==> m[k].dirtyID != 0
    requires l == LeftOf(m[k], off).(queueId := l.queueId)
    ensures CellAt(m[k := RightOf(m[k], off, id)][off := l], x) ==
            if off <= x < k then Some(m[k].CellOf(x).(id := id)) else CellAt(m, x)
  {
    var m' := m[k := RightOf(m[k], off, id)][off := l];
    SplitShape(m, k, off, id, l);
    if off <= x < k {
      assert Covers(m', k, x);
      CoveredCell(m', k, x);
    } else if m[k].offset <= x < off {
      assert Covers(m', off, x) && Covers(m, k, x);
      CoveredCell(m', off, x);
      CoveredCell(m, k, x);
    } else {
      SameCover(m, m', x, {k, off});
    }
  }

  /** `m'` is `m` with the buffer at `k` cut in two at `off`. */
  ghost predicate IsSplit(m: Buffers, m': Buffers, k: int, off: int, cur: nat, cur': nat)
    requires Shape(m)
  {
    && k in m && m[k].offset < off < k && off in m'
    && cur' == cur + (if m[k].dirtyID != 0 then 1 else 0)
    && m'[off] == LeftOf(m[k], off).(queueId := m'[off].queueId)
    && m' == m[k := RightOf(m[k], off, if m[k].dirtyID != 0 then cur' else 0)][off := m'[off]]
  }

  /** One buffer loses [lo, hi): every other byte of the list is kept. */
  ghost predicate CutAt(m: Buffers, m': Buffers, k: int, lo: int, hi: int, cur: nat, x: int)
  {
    if !Covers(m, k, x) then CellAt(m', x) == CellAt(m, x)
    else if lo <= x < hi then CellAt(m', x).None?
    else Kept(CellAt(m, x), CellAt(m', x), cur)
  }

  /** The two lists hold the same buffers at every key from `start` on. */
  ghost predicate SameFrom(m: Buffers, m': Buffers, start: int)
  {
    forall j: int :: j >= start ==> (j in m <==> j in m') && (j in m ==> m'[j] == m[j])
  }

  ghost function KeysFrom<T>(m: map<int, T>, start: int): set<int>
  {
    set j: int | j in m && j >= start
  }

  lemma KeysShrink<T>(m: map<int, T>, start: int, k: int)
    requires k in m && k >= start
    ensures KeysFrom(m, k + 1) < KeysFrom(m, start)
  {
    assert k in KeysFrom(m, start) && k !in KeysFrom(m, k + 1);
  }

  lemma CutAbove(m0: Buffers, m1: Buffers, m2: Buffers, m3: Buffers, k: int, rm: int, lo: int, hi: int, cur0: nat,
                 cur1: nat, cur2: nat)
    requires Shape(m0) && Shape(m1) && Shape(m2) && k in m0 && lo < hi && lo < k && m0[k].offset < hi
    requires if hi < k then IsSplit(m0, m1, k, hi, cur0, cur1) && rm == hi else m1 == m0 && rm == k && cur1 == cur0
    requires if m0[k].offset < lo then IsSplit(m1, m2, rm, lo, cur1, cur2) else m2 == m1 && cur2 == cur1
    requires m3 == m2 - {rm}
    ensures SameFrom(m0, m3, k + 1)
  {
    hide Shape;
    assert SameFrom(m0, m1, k + 1);
    assert SameFrom(m1, m2, k + 1);
  }

  ghost predicate IsCut(m: Buffers, m': Buffers, k: int, lo: int, hi: int, cur: nat)
  {
    SameFrom(m, m', k + 1) && forall x: int {:trigger CellAt(m', x)} {:trigger CutAt(m, m', k, lo, hi, cur, x)} ::
      CutAt(m, m', k, lo, hi, cur, x)
  }

  lemma CutCells(m0: Buffers, m1: Buffers, m2: Buffers, m3: Buffers, k: int, rm: int, lo: int, hi: int, cur0: nat,
                 cur1: nat, cur2: nat, x: int)
    requires Shape(m0) && Shape(m1) && Shape(m2) && k in m0 && lo < hi && lo < k && m0[k].offset < hi
    requires if hi < k then IsSplit(m0, m1, k, hi, cur0, cur1) && rm == hi else m1 == m0 && rm == k && cur1 == cur0
    requires if m0[k].offset < lo then IsSplit(m1, m2, rm, lo, cur1, cur2) else m2 == m1 && cur2 == cur1
    requires m3 == m2 - {rm}
    ensures CutAt(m0, m3, k, lo, hi, cur0, x)
  {
    if hi < k { SplitCells(m0, k, hi, m1[k].dirtyID, m1[hi], x); }
    if m0[k].offset < lo { SplitCells(m1, rm, lo, m2[rm].dirtyID, m2[lo], x); }
    DeleteCells(m2, rm, x);
    if Covers(m0, k, x) { CoveredCell(m0, k, x); }
    if Covers(m1, rm, x) { CoveredCell(m1, rm, x); }
  }

  /** The least stored key at or above `start`: what the source's Ascend delivers first. */
  ghost predicate IsNext<T>(m: map<int, T>, start: int, k: int)
  {
    k in m && k >= start && forall j: int :: j in m && j >= start ==> k <= j
  }

  /** What an ascending scan from `start` meets first, or `None` when nothing is left. */
  ghost predicate IsFirst<T>(m: map<int, T>, start: int, r: Option<int>)
  {
    if r.Some? then IsNext(m, start, r.value) else forall j: int :: j in m ==> j < start
  }

  function FirstFrom<T>(m: map<int, T>, start: int): (r: Option<int>)
    ensures IsFirst(m, start, r)
  {
    if exists k: int :: k in m && k >= start then
      ghost var k: int :| k in m && k >= start;
      Some(SearchUp(m, start, k))
    else None
  }

  function SearchUp<T>(m: map<int, T>, start: int, ghost bound: int): (r: int)
    requires bound in m && start <= bound
    ensures IsNext(m, start, r)
    decreases bound - start
  {
    if start in m then start else SearchUp(m, start + 1, bound)
  }

  /** The greatest stored key at or below `limit`: what the source's Descend delivers first. */
  function LastUpTo(m: Buffers, limit: int): (r: Option<int>)
    requires Shape(m)
    ensures r.None? <==> forall j: int :: j in m ==> j > limit
    ensures r.Some? ==> r.value in m && r.value <= limit && forall j: int :: j in m && j <= limit ==> j <= r.value
  {
    if limit in m then Some(limit) else if limit <= 0 then None else LastUpTo(m, limit - 1)
  }
}
