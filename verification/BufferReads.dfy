/** Reading a buffer list: which bytes are missing, and what the present ones are. */
module BufferReads {
  import opened Options
  import opened FileBuffers
  import opened BufferChanges

  datatype Range = Range(start: nat, end: nat)

  /** Sorted, non-empty ranges with room between each and the next. */
  ghost predicate Separated(rr: seq<Range>)
  {
    && (forall i: int :: 0 <= i < |rr| ==> rr[i].start < rr[i].end)
    && (forall i: int, j: int :: 0 <= i < j < |rr| ==> rr[i].end < rr[j].start)
  }

  predicate InRanges(rr: seq<Range>, x: int)
  {
    exists i: int :: 0 <= i < |rr| && rr[i].start <= x < rr[i].end
  }

  lemma InRangesAppend(rr: seq<Range>, r: Range, x: int)
    ensures InRanges(rr + [r], x) <==> InRanges(rr, x) || r.start <= x < r.end
  {
    var s := rr + [r];
    if InRanges(rr, x) {
      var i: int :| 0 <= i < |rr| && rr[i].start <= x < rr[i].end;
      assert s[i] == rr[i];
    }
    if r.start <= x < r.end { assert s[|rr|] == r; }
  }

  ghost predicate Meets(m: Buffers, k: int, lo: int, hi: int)
  {
    k in m && k > lo && m[k].offset < hi
  }

  /** Among the buffers stored up to `cur` that meet [lo, hi), one is loading; one is evicted. */
  ghost predicate AnyLoading(m: Buffers, lo: int, hi: int, cur: int)
  {
    exists k: int :: Meets(m, k, lo, hi) && k <= cur && m[k].kind.loading
  }

  ghost predicate AnyCleared(m: Buffers, lo: int, hi: int, cur: int)
  {
    exists k: int :: Meets(m, k, lo, hi) && k <= cur && m[k].kind.state.FlCleared?
  }

  /** A byte of [lo, hi) that a buffer meeting it holds. */
  lemma MeetingByte(m: Buffers, k: int, lo: int, hi: int) returns (x: int)
    requires Shape(m) && Meets(m, k, lo, hi) && lo < hi
    ensures lo <= x < hi && CellAt(m, x).Some? && CellAt(m, x).value.kind == m[k].kind
  {
    x := if m[k].offset < lo then lo else m[k].offset;
    CoveredCell(m, k, x);
  }

  /** What a buffer that meets the range has, a byte of it has. */
  lemma AnyOfBytes(m: Buffers, lo: int, hi: int)
    requires Shape(m) && lo < hi
    ensures (exists k: int :: Meets(m, k, lo, hi) && m[k].kind.loading) <==>
            exists x: int :: lo <= x < hi && CellAt(m, x).Some? && CellAt(m, x).value.kind.loading
    ensures (exists k: int :: Meets(m, k, lo, hi) && m[k].kind.state.FlCleared?) <==>
            exists x: int :: lo <= x < hi && CellAt(m, x).Some? && CellAt(m, x).value.kind.state.FlCleared?
  {
    if k: int :| Meets(m, k, lo, hi) && m[k].kind.loading { var x := MeetingByte(m, k, lo, hi); }
    if k: int :| Meets(m, k, lo, hi) && m[k].kind.state.FlCleared? { var x := MeetingByte(m, k, lo, hi); }
    forall x: int | lo <= x < hi && CellAt(m, x).Some?
      ensures Meets(m, KeyAt(m, x), lo, hi) && m[KeyAt(m, x)].kind == CellAt(m, x).value.kind {}
  }

  /** What the flusher asks about the buffers of a part. */
  datatype Feature = HasDirty | HasEvicted | HasZero | HasNonZero | ReachesEnd

  predicate KindHas(kind: Kind, t: Feature)
  {
    match t
    case HasDirty => kind.state.Dirty?
    case HasEvicted => kind.state.FlCleared?
    case HasZero => kind.zero
    case HasNonZero => !kind.zero
    case ReachesEnd => false
  }

  predicate HasFeature(b: FileBuffer, t: Feature, hi: int)
  {
    KindHas(b.kind, t) || (t.ReachesEnd? && b.End() >= hi)
  }

  /** A buffer that meets [lo, hi) has the feature. */
  ghost predicate Has(m: Buffers, lo: int, hi: int, t: Feature)
  {
    exists k: int :: Meets(m, k, lo, hi) && HasFeature(m[k], t, hi)
  }

  /** A buffer stored before `cursor` that meets [lo, hi) has the feature. */
  ghost predicate Seen(m: Buffers, lo: int, hi: int, cursor: int, t: Feature)
  {
    exists k: int :: Meets(m, k, lo, hi) && k < cursor && HasFeature(m[k], t, hi)
  }

  lemma FeatureOfBytes(m: Buffers, lo: int, hi: int, t: Feature)
    requires Shape(m) && lo < hi && !t.ReachesEnd?
    ensures Has(m, lo, hi, t) <==>
            exists x: int :: lo <= x < hi && CellAt(m, x).Some? && KindHas(CellAt(m, x).value.kind, t)
  {
    if Has(m, lo, hi, t) {
      var k: int :| Meets(m, k, lo, hi) && HasFeature(m[k], t, hi);
      var x := MeetingByte(m, k, lo, hi);
    }
    if x: int :| lo <= x < hi && CellAt(m, x).Some? && KindHas(CellAt(m, x).value.kind, t) {
      assert Meets(m, KeyAt(m, x), lo, hi) && HasFeature(m[KeyAt(m, x)], t, hi);
    }
  }

  /** The features, byte by byte. */
  lemma FeaturesOfBytes(m: Buffers, lo: int, hi: int)
    requires Shape(m) && lo < hi
    ensures Has(m, lo, hi, HasDirty) <==>
            exists x: int :: lo <= x < hi && CellAt(m, x).Some? && CellAt(m, x).value.kind.state.Dirty?
    ensures Has(m, lo, hi, HasEvicted) <==>
            exists x: int :: lo <= x < hi && CellAt(m, x).Some? && CellAt(m, x).value.kind.state.FlCleared?
    ensures Has(m, lo, hi, HasZero) <==>
            exists x: int :: lo <= x < hi && CellAt(m, x).Some? && CellAt(m, x).value.kind.zero
    ensures Has(m, lo, hi, HasNonZero) <==>
            exists x: int :: lo <= x < hi && CellAt(m, x).Some? && !CellAt(m, x).value.kind.zero
    ensures Has(m, lo, hi, ReachesEnd) <==> CellAt(m, hi - 1).Some?
  {
    hide Has, CellAt, Shape;
    FeatureOfBytes(m, lo, hi, HasDirty);
    FeatureOfBytes(m, lo, hi, HasEvicted);
    FeatureOfBytes(m, lo, hi, HasZero);
    FeatureOfBytes(m, lo, hi, HasNonZero);
    EndOfBytes(m, lo, hi);
  }

  lemma EndOfBytes(m: Buffers, lo: int, hi: int)
    requires Shape(m) && lo < hi
    ensures Has(m, lo, hi, ReachesEnd) <==> CellAt(m, hi - 1).Some?
  {
    if Has(m, lo, hi, ReachesEnd) {
      var k: int :| Meets(m, k, lo, hi) && HasFeature(m[k], ReachesEnd, hi);
      CoveredCell(m, k, hi - 1);
    }
    if CellAt(m, hi - 1).Some? {
      var k := KeyAt(m, hi - 1);
      assert Meets(m, k, lo, hi) && HasFeature(m[k], ReachesEnd, hi);
    }
  }

  lemma NotSeen(m: Buffers, lo: int, hi: int, t: Feature)
    ensures !Seen(m, lo, hi, lo + 1, t)
  {
  }

  lemma SeenStep(m: Buffers, lo: int, hi: int, cursor: int, k: int, t: Feature)
    requires IsNext(m, cursor, k) && Meets(m, k, lo, hi)
    ensures Seen(m, lo, hi, k + 1, t) <==> Seen(m, lo, hi, cursor, t) || HasFeature(m[k], t, hi)
  {
    if Seen(m, lo, hi, cursor, t) {
      var j: int :| Meets(m, j, lo, hi) && j < cursor && HasFeature(m[j], t, hi);
      assert j < k + 1;
    }
  }

  lemma SeenEnd(m: Buffers, lo: int, hi: int, cursor: int, next: Option<int>, t: Feature)
    requires IsFirst(m, cursor, next) && (next.Some? ==> m[next.value].offset >= hi) && Shape(m)
    ensures Seen(m, lo, hi, cursor, t) <==> Has(m, lo, hi, t)
  {
  }

  ghost predicate ListsHoles(m: Buffers, lo: int, hi: int, rr: seq<Range>)
  {
    forall x: int {:trigger CellAt(m, x)} {:trigger InRanges(rr, x)} ::
      InRanges(rr, x) <==> lo <= x < hi && CellAt(m, x).None?
  }

  /** The scan has reached `cur`, the end of the last buffer it passed. */
  ghost predicate HolesUpTo(m: Buffers, lo: int, hi: int, rr: seq<Range>, cur: int)
  {
    && Separated(rr) && (forall i: int :: 0 <= i < |rr| ==> rr[i].end < cur)
    && ListsHoles(m, lo, if cur < hi then cur else hi, rr)
  }

  lemma HolesStep(m: Buffers, lo: nat, hi: int, rr: seq<Range>, cur: nat, k: int, rr': seq<Range>)
    requires Shape(m) && HolesUpTo(m, lo, hi, rr, cur) && lo <= cur && IsNext(m, cur + 1, k) && m[k].offset < hi
    requires rr' == if m[k].offset > cur then rr + [Range(cur, m[k].offset)] else rr
    ensures HolesUpTo(m, lo, hi, rr', k)
    ensures forall j: int :: Meets(m, j, lo, hi) && j <= k <==> (Meets(m, j, lo, hi) && j <= cur) || j == k
  {
    var top := if k < hi then k else hi;
    forall x: int ensures InRanges(rr', x) <==> lo <= x < top && CellAt(m, x).None? {
      if m[k].offset > cur { InRangesAppend(rr, Range(cur, m[k].offset), x); }
      assert InRanges(rr, x) <==> lo <= x < (if cur < hi then cur else hi) && CellAt(m, x).None?;
      if Covers(m, k, x) {
        CoveredCell(m, k, x);
      } else if cur <= x < k {
        assert forall j: int :: Covers(m, j, x) ==> j >= cur + 1 && j < k;
      }
    }
  }

  lemma HolesStart(m: Buffers, lo: nat, hi: int)
    ensures HolesUpTo(m, lo, hi, [], lo) && !AnyLoading(m, lo, hi, lo) && !AnyCleared(m, lo, hi, lo)
  {
  }

  lemma AnyStep(m: Buffers, lo: int, hi: int, cur: int, k: int)
    requires Meets(m, k, lo, hi) && cur <= k
    requires forall j: int :: Meets(m, j, lo, hi) && j <= k <==> (Meets(m, j, lo, hi) && j <= cur) || j == k
    ensures AnyLoading(m, lo, hi, k) <==> AnyLoading(m, lo, hi, cur) || m[k].kind.loading
    ensures AnyCleared(m, lo, hi, k) <==> AnyCleared(m, lo, hi, cur) || m[k].kind.state.FlCleared?
  {
  }

  lemma AnyEnd(m: Buffers, lo: int, hi: int, cur: int)
    requires forall j: int :: Meets(m, j, lo, hi) ==> j <= cur
    ensures AnyLoading(m, lo, hi, cur) <==> exists k: int :: Meets(m, k, lo, hi) && m[k].kind.loading
    ensures AnyCleared(m, lo, hi, cur) <==> exists k: int :: Meets(m, k, lo, hi) && m[k].kind.state.FlCleared?
  {
  }

  lemma HolesEnd(m: Buffers, lo: nat, hi: nat, rr: seq<Range>, cur: nat, next: Option<int>, rr': seq<Range>)
    requires Shape(m) && HolesUpTo(m, lo, hi, rr, cur) && lo <= cur && IsFirst(m, cur + 1, next)
    requires next.Some? ==> m[next.value].offset >= hi
    requires rr' == if cur < hi then rr + [Range(cur, hi)] else rr
    ensures Separated(rr') && ListsHoles(m, lo, hi, rr')
    ensures forall j: int :: Meets(m, j, lo, hi) ==> j <= cur
  {
    forall x: int ensures InRanges(rr', x) <==> lo <= x < hi && CellAt(m, x).None? {
      if cur < hi {
        InRangesAppend(rr, Range(cur, hi), x);
        assert cur <= x < hi ==> forall j: int :: Covers(m, j, x) ==> j >= cur + 1;
      }
      assert InRanges(rr, x) <==> lo <= x < (if cur < hi then cur else hi) && CellAt(m, x).None?;
    }
  }

  // ----- Content -----

  /** The byte at `x` is in memory. */
  ghost predicate Readable(m: Buffers, x: int)
  {
    CellAt(m, x).Some? && CellAt(m, x).value.content.Some?
  }

  ghost function ByteAt(m: Buffers, x: int): byte
    requires Readable(m, x)
  {
    CellAt(m, x).value.content.value
  }

  function Flat(chunks: seq<seq<byte>>): seq<byte>
  {
    if chunks == [] then [] else Flat(chunks[..|chunks| - 1]) + chunks[|chunks| - 1]
  }

  lemma FlatAppend(chunks: seq<seq<byte>>, c: seq<byte>)
    ensures Flat(chunks + [c]) == Flat(chunks) + c
  {
    assert (chunks + [c])[..|chunks|] == chunks;
  }

  /** `bytes` is what the list holds from `lo` on. */
  ghost predicate Holds(m: Buffers, lo: int, bytes: seq<byte>)
  {
    forall x: int {:trigger CellAt(m, x)} {:trigger Readable(m, x)} :: lo <= x < lo + |bytes| ==>
      Readable(m, x) && bytes[x - lo] == ByteAt(m, x)
  }

  /** The non-zero dirty ids of the bytes of [lo, hi). */
  ghost predicate CollectsIds(m: Buffers, lo: int, hi: int, ids: set<nat>)
  {
    && (forall x: int {:trigger CellAt(m, x)} :: lo <= x < hi && CellAt(m, x).Some? && CellAt(m, x).value.id != 0 ==>
          CellAt(m, x).value.id in ids)
    && (forall id: nat :: id in ids ==>
          id != 0 && exists x: int :: lo <= x < hi && CellAt(m, x).Some? && CellAt(m, x).value.id == id)
  }

  /** The part of the buffer at `k` that a read of [.., hi) from `s` takes. */
  function Piece(b: FileBuffer, s: int, e: int): (r: seq<byte>)
    requires b.WellFormed() && b.offset <= s <= e <= b.End() && (b.kind.zero || b.data.Mem?)
    ensures |r| == e - s
  {
    if b.kind.zero then seq(e - s, i => 0) else b.data.bytes[s - b.offset..e - b.offset]
  }

  lemma PieceHolds(m: Buffers, lo: int, bytes: seq<byte>, k: int, s: int, e: int)
    requires Shape(m) && k in m && m[k].offset <= s < e <= k && (m[k].kind.zero || m[k].data.Mem?)
    requires Holds(m, lo, bytes) && s == lo + |bytes|
    ensures Holds(m, lo, bytes + Piece(m[k], s, e))
  {
    var p := bytes + Piece(m[k], s, e);
    forall x: int | lo <= x < lo + |p| ensures Readable(m, x) && p[x - lo] == ByteAt(m, x) {
      if x < s { assert Readable(m, x) && p[x - lo] == bytes[x - lo]; } else { CoveredCell(m, k, x); }
    }
  }

  lemma PieceIds(m: Buffers, lo: int, ids: set<nat>, k: int, s: int, e: int, ids': set<nat>)
    requires Shape(m) && k in m && m[k].offset <= s < e <= k && lo <= s
    requires CollectsIds(m, lo, s, ids)
    requires ids' == if m[k].dirtyID != 0 then ids + {m[k].dirtyID} else ids
    ensures CollectsIds(m, lo, e, ids')
  {
    CoveredCell(m, k, s);
    forall x: int | s <= x < e { CoveredCell(m, k, x); }
  }

  datatype ReadResult =
    | Data(chunks: seq<seq<byte>>, ids: set<nat>)
    | Missing
    | Loading
    | Crash // a slice of a buffer whose memory is gone: the source panics

  /** `x` is the first byte of the range that cannot be read, and `r` is the answer that gives. */
  ghost predicate FirstUnreadable(m: Buffers, lo: int, hi: int, x: int, r: ReadResult)
  {
    && lo <= x < hi && !Readable(m, x) && (forall y: int :: lo <= y < x ==> Readable(m, y))
    && (r.Missing? <==> CellAt(m, x).None?)
    && (r.Loading? <==> CellAt(m, x).Some? && CellAt(m, x).value.kind.loading)
    && (r.Crash? <==> CellAt(m, x).Some? && !CellAt(m, x).value.kind.loading)
  }

  ghost predicate ReadFails(m: Buffers, lo: int, hi: int, r: ReadResult)
  {
    exists x: int :: FirstUnreadable(m, lo, hi, x, r)
  }

  /** A read of no bytes fails between two buffers, before the first one, and inside one that is not in memory. */
  ghost predicate EmptyReadFails(m: Buffers, offset: int, r: ReadResult)
  {
    if r.Missing? then CellAt(m, offset).None? && exists k: int :: k in m && k > offset
    else CellAt(m, offset).Some? && !Readable(m, offset) && CellAt(m, offset - 1).Some?
  }

  lemma NoGapAt(m: Buffers, offset: nat, next: Option<int>)
    requires Shape(m) && IsFirst(m, offset + 1, next) && (next.Some? ==> m[next.value].offset <= offset)
    ensures CellAt(m, offset).Some? || forall k: int :: k in m ==> k <= offset
  {
    if next.Some? { CoveredCell(m, next.value, offset); }
  }

  lemma EmptyReadStops(m: Buffers, offset: nat, k: int, r: ReadResult)
    requires Shape(m) && IsFirst(m, offset + 1, Some(k)) && !r.Data?
    requires if r.Missing? then m[k].offset > offset
             else m[k].offset < offset && (m[k].kind.loading || (!m[k].kind.zero && m[k].data.Nil?))
    ensures EmptyReadFails(m, offset, r)
  {
    if !r.Missing? {
      CoveredCell(m, k, offset);
      CoveredCell(m, k, offset - 1);
    }
  }

  lemma StopsAt(m: Buffers, lo: int, hi: int, bytes: seq<byte>, x: int, r: ReadResult)
    requires Holds(m, lo, bytes) && x == lo + |bytes| && lo <= x < hi
    requires !Readable(m, x) && !r.Data?
    requires (r.Missing? <==> CellAt(m, x).None?)
    requires (r.Loading? <==> CellAt(m, x).Some? && CellAt(m, x).value.kind.loading)
    ensures FirstUnreadable(m, lo, hi, x, r)
  {
  }

  const ZERO_BUF: nat := 1048576

  function Zeros(n: nat): seq<byte>
  {
    seq(n, i => 0)
  }

  /** Appends `zeroLen` zero bytes in chunks that each fit the shared zero buffer. */
  method AppendZero(data: seq<seq<byte>>, zeroLen: nat) returns (r: seq<seq<byte>>)
    ensures Flat(r) == Flat(data) + Zeros(zeroLen)
    ensures forall c :: c in r && c !in data ==> 0 < |c| <= 1048576
  {
    r := data;
    var left: nat := zeroLen;
    assert Flat(r) == Flat(data) + Zeros(0);
    while left > ZERO_BUF
      invariant left <= zeroLen && (left == 0 ==> zeroLen == 0) && Flat(r) == Flat(data) + Zeros(zeroLen - left)
      invariant forall c :: c in r && c !in data ==> 0 < |c| <= ZERO_BUF
    {
      FlatAppend(r, Zeros(ZERO_BUF));
      assert Flat(r) + Zeros(ZERO_BUF) == Flat(data) + Zeros(zeroLen - left + ZERO_BUF);
      r := r + [Zeros(ZERO_BUF)];
      left := left - ZERO_BUF;
    }
    if left > 0 {
      FlatAppend(r, Zeros(left));
      assert Flat(r) + Zeros(left) == Flat(data) + Zeros(zeroLen);
      r := r + [Zeros(left)];
    }
  }

  lemma EmptyRead(m: Buffers, lo: int)
    ensures Holds(m, lo, []) && CollectsIds(m, lo, lo, {}) && Flat([]) == []
  {
  }

  /** Appends the part [s, e) of a buffer, as zero chunks or as one slice of its memory. */
  method AppendPiece(data: seq<seq<byte>>, b: FileBuffer, s: nat, e: nat) returns (r: seq<seq<byte>>)
    requires b.WellFormed() && b.offset <= s <= e <= b.End() && (b.kind.zero || b.data.Mem?)
    ensures Flat(r) == Flat(data) + Piece(b, s, e) && (s == e ==> Flat(r) == Flat(data))
  {
    if b.kind.zero {
      r := AppendZero(data, e - s);
    } else {
      r := data + [b.data.bytes[s - b.offset..e - b.offset]];
      FlatAppend(data, b.data.bytes[s - b.offset..e - b.offset]);
    }
  }

  /** One buffer further: the bytes and ids collected so far stay exact. */
  lemma ReadStep(m: Buffers, lo: int, bytes: seq<byte>, k: int, s: int, e: int, ids: set<nat>, ids': set<nat>,
                 withIds: bool)
    requires Shape(m) && k in m && m[k].offset <= s < e <= k && (m[k].kind.zero || m[k].data.Mem?)
    requires Holds(m, lo, bytes) && s == lo + |bytes|
    requires withIds ==> CollectsIds(m, lo, s, ids) && ids' == if m[k].dirtyID != 0 then ids + {m[k].dirtyID} else ids
    ensures Holds(m, lo, bytes + Piece(m[k], s, e))
    ensures withIds ==> CollectsIds(m, lo, e, ids')
  {
    PieceHolds(m, lo, bytes, k, s, e);
    if withIds { PieceIds(m, lo, ids, k, s, e, ids'); }
  }

  /** The first buffer the scan meets cannot be read, or does not cover `x`. */
  lemma ReadStops(m: Buffers, lo: int, hi: int, bytes: seq<byte>, x: int, next: Option<int>, r: ReadResult)
    requires Shape(m) && Holds(m, lo, bytes) && x == lo + |bytes| && lo <= x < hi && IsFirst(m, x + 1, next)
    requires if next.None? || m[next.value].offset > x then r.Missing?
             else if m[next.value].kind.loading then r.Loading?
             else r.Crash? && !m[next.value].kind.zero && m[next.value].data.Nil?
    ensures ReadFails(m, lo, hi, r)
  {
    if next.None? || m[next.value].offset > x {
      GapAhead(m, x, next, x + 1);
      assert CellAt(m, x).None?;
    } else {
      CoveredCell(m, next.value, x);
    }
    StopsAt(m, lo, hi, bytes, x, r);
  }
}
