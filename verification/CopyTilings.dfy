/** Copying a large object on the server in parts: the ranges and their number. */
module CopyTilings {
  import opened PartSizes

  /** `n` is the number of parts of `size` bytes. */
  ghost predicate Holds(sizes: seq<PartSize>, size: nat, n: nat)
  {
    IsPartCount(Starts(sizes), size, n)
  }

  lemma HoldsOnce(sizes: seq<PartSize>, size: nat, a: nat, b: nat)
    requires Positive(sizes) && Holds(sizes, size, a) && Holds(sizes, size, b)
    ensures a == b
  {
    if a < b - 1 { StartOfMonotone(sizes, a, b - 1); }
    if b < a - 1 { StartOfMonotone(sizes, b, a - 1); }
  }

  lemma RoundUp(size: nat, part: nat)
    requires part > 0
    ensures var q := (size + part - 1) / part; size <= q * part && (q > 0 ==> (q - 1) * part < size)
  {
    var n := size + part - 1;
    var q := n / part;
    Quotient(n, part);
    assert (q + 1) * part == q * part + part;
    assert q > 0 ==> (q - 1) * part == q * part - part;
  }

  method PartsRequired(sizes: seq<PartSize>, size: nat) returns (n: nat)
    requires Positive(sizes)
    ensures if size <= Bytes(sizes) then Holds(sizes, size, n) else n == Parts(sizes)
  {
    hide StartOf, Parts, Bytes;
    n := 0;
    var left: nat := size;
    EmptyPrefix(sizes);
    for i := 0 to |sizes|
      invariant n == Parts(sizes[..i]) && left + Bytes(sizes[..i]) == size && (i > 0 ==> left > 0)
    {
      var s := sizes[i];
      var totalSize := s.count * s.size;
      TierSum(sizes, i);
      if totalSize >= left {
        var q := (left + s.size - 1) / s.size;
        LastTier(sizes, i, left, q);
        n := n + q;
        return;
      }
      n := n + s.count;
      left := left - totalSize;
    }
    assert sizes[..|sizes|] == sizes;
    if size == 0 { NoParts(sizes); }
  }

  lemma NoParts(sizes: seq<PartSize>)
    ensures Holds(sizes, 0, 0)
  {
  }

  lemma TierSum(sizes: seq<PartSize>, i: nat)
    requires i < |sizes|
    ensures Parts(sizes[..i + 1]) == Parts(sizes[..i]) + sizes[i].count
    ensures Bytes(sizes[..i + 1]) == Bytes(sizes[..i]) + sizes[i].count * sizes[i].size
  {
    StartOfTier(sizes, i, 0);
  }

  /** The remaining bytes end inside tier `i`. */
  lemma LastTier(sizes: seq<PartSize>, i: nat, left: nat, q: nat)
    requires Positive(sizes) && i < |sizes| && left <= sizes[i].count * sizes[i].size && (i > 0 ==> left > 0)
    requires q == (left + sizes[i].size - 1) / sizes[i].size
    ensures Bytes(sizes[..i]) + left <= Bytes(sizes)
    ensures Holds(sizes, Bytes(sizes[..i]) + left, Parts(sizes[..i]) + q)
  {
    hide StartOf, Parts, Bytes;
    var s := sizes[i];
    RoundUp(left, s.size);
    if q > s.count { Scale(s.count, q - 1, s.size); }
    StartOfTier(sizes, i, q);
    StartOfPrefix(sizes, i + 1, 0);
    TierSum(sizes, i);
    if q > 0 {
      StartOfTier(sizes, i, q - 1);
    } else {
      EmptyPrefix(sizes);
      NoParts(sizes);
    }
  }

  /** One copy request: bytes [start, end). */
  datatype CopyRequest = CopyRequest(start: nat, end: nat)

  /** Part `k` of a copy of `size` bytes. */
  function RangeOf(sizes: seq<PartSize>, size: nat, k: nat): CopyRequest
  {
    CopyRequest(StartOf(sizes, k), if StartOf(sizes, k + 1) < size then StartOf(sizes, k + 1) else size)
  }

  ghost predicate Issued(sizes: seq<PartSize>, size: nat, ranges: seq<CopyRequest>, k: nat)
  {
    k <= |ranges| && forall i: int :: 0 <= i < k ==> ranges[i] == RangeOf(sizes, size, i) && StartOf(sizes, i) < size
  }

  /** Non-empty ranges, each starting where the one before ends, from 0 to `size`. */
  ghost predicate Tile(ranges: seq<CopyRequest>, size: nat)
  {
    && (forall i: int :: 0 <= i < |ranges| ==> ranges[i].start < ranges[i].end)
    && (forall i: int :: 0 < i < |ranges| ==> ranges[i].start == ranges[i - 1].end)
    && if ranges == [] then size == 0 else ranges[0].start == 0 && ranges[|ranges| - 1].end == size
  }

  lemma IssuedTile(sizes: seq<PartSize>, size: nat, ranges: seq<CopyRequest>)
    requires Positive(sizes) && Holds(sizes, size, |ranges|) && Issued(sizes, size, ranges, |ranges|)
    ensures Tile(ranges, size)
  {
    hide Parts, StartOf;
    StartAtZero(sizes);
    forall i: int | 0 <= i < |ranges|
      ensures ranges[i].start < ranges[i].end && (i + 1 < |ranges| ==> ranges[i].end == StartOf(sizes, i + 1))
    {
      StartOfStep(sizes, i);
    }
  }

  lemma StartAtZero(sizes: seq<PartSize>)
    ensures StartOf(sizes, 0) == 0
  {
    StartOfPrefix(sizes, 0, 0);
  }

  /**
   The copy requests in order. The table of results has exactly one slot for each, and
   together they copy what the parts can hold: the whole object if and only if they hold it.
   */
  method MpuCopyParts(sizes: seq<PartSize>, size: nat) returns (parts: array<CopyRequest>)
    requires Positive(sizes)
    ensures fresh(parts) && Holds(sizes, Copied(sizes, size), parts.Length) && Tile(parts[..], Copied(sizes, size))
    ensures Tile(parts[..], size) <==> size <= Bytes(sizes)
    ensures forall k: nat :: k < parts.Length ==> parts[k] == RangeOf(sizes, size, k)
  {
    hide Parts, StartOf, Bytes, Holds, RangeOf;
    var n := PartsRequired(sizes, size);
    AllParts(sizes, size, n);
    parts := new CopyRequest[n](_ => CopyRequest(0, 0));
    var startOffset: nat, partIdx: nat := 0, 0;
    EmptyPrefix(sizes);
    StartAtZero(sizes);
    if size == 0 {
      NoParts(sizes);
      HoldsOnce(sizes, 0, 0, n);
    }
    for t := 0 to |sizes|
      invariant startOffset == StartOf(sizes, partIdx) && partIdx <= n && Issued(sizes, size, parts[..], partIdx)
      invariant startOffset < size ==> partIdx == Parts(sizes[..t])
      invariant startOffset >= size ==> partIdx == n
    {
      var s, i := sizes[t], 0;
      TierSum(sizes, t);
      while i < s.count && startOffset < size
        invariant startOffset == StartOf(sizes, partIdx) && partIdx <= n && i <= s.count
        invariant Issued(sizes, size, parts[..], partIdx)
        invariant startOffset < size ==> partIdx == Parts(sizes[..t]) + i
        invariant startOffset >= size ==> partIdx == n
      {
        StartOfTier(sizes, t, i);
        StartOfTier(sizes, t, i + 1);
        assert (i + 1) * s.size == i * s.size + s.size;
        NextSlot(sizes, size, n, partIdx);
        var endOffset := if startOffset + s.size < size then startOffset + s.size else size;
        RangeIs(sizes, size, partIdx);
        assert CopyRequest(startOffset, endOffset) == RangeOf(sizes, size, partIdx);
        ghost var before := parts[..];
        parts[partIdx] := CopyRequest(startOffset, endOffset);
        IssuedNext(sizes, size, before, parts[..], partIdx);
        partIdx := partIdx + 1;
        startOffset := startOffset + s.size;
        i := i + 1;
      }
    }
    assert sizes[..|sizes|] == sizes;
    StartOfEnd(sizes);
    assert partIdx == n;
    SameRanges(sizes, size, parts[..]);
    IssuedTile(sizes, Copied(sizes, size), parts[..]);
  }

  /** The bytes that the parts can hold. */
  function Copied(sizes: seq<PartSize>, size: nat): nat
  {
    if size <= Bytes(sizes) then size else Bytes(sizes)
  }

  lemma AllParts(sizes: seq<PartSize>, size: nat, n: nat)
    requires Positive(sizes) && if size <= Bytes(sizes) then Holds(sizes, size, n) else n == Parts(sizes)
    ensures Holds(sizes, Copied(sizes, size), n)
  {
    hide Parts, StartOf, Bytes;
    StartOfEnd(sizes);
    if size > Bytes(sizes) && n > 0 { StartOfStep(sizes, n - 1); }
  }

  /** Clipping at the size or at the end of the parts gives the same ranges. */
  lemma SameRanges(sizes: seq<PartSize>, size: nat, ranges: seq<CopyRequest>)
    requires Positive(sizes) && Holds(sizes, Copied(sizes, size), |ranges|) && Issued(sizes, size, ranges, |ranges|)
    ensures Issued(sizes, Copied(sizes, size), ranges, |ranges|)
  {
    hide Parts, StartOf, Bytes;
    StartOfEnd(sizes);
    forall i: int | 0 <= i < |ranges|
      ensures StartOf(sizes, i) < Copied(sizes, size)
      ensures RangeOf(sizes, Copied(sizes, size), i) == RangeOf(sizes, size, i)
    {
      StartOfStep(sizes, i);
      if i + 1 < Parts(sizes) { StartOfMonotone(sizes, i + 1, Parts(sizes)); }
    }
  }

  /** Parts configured to hold one byte copy one byte of an object of two. */
  method CopyCutShort() returns (parts: array<CopyRequest>)
    ensures fresh(parts) && Tile(parts[..], 1) && !Tile(parts[..], 2)
  {
    var sizes := [PartSize(1, 1)];
    assert sizes[..0] == [];
    assert Bytes(sizes) == Bytes(sizes[..0]) + 1;
    parts := MpuCopyParts(sizes, 2);
  }

  lemma RangeIs(sizes: seq<PartSize>, size: nat, k: nat)
    ensures RangeOf(sizes, size, k) ==
            CopyRequest(StartOf(sizes, k), if StartOf(sizes, k + 1) < size then StartOf(sizes, k + 1) else size)
  {
  }

  /** A part that starts inside the object has a slot; after the last one the object is copied. */
  lemma NextSlot(sizes: seq<PartSize>, size: nat, n: nat, k: nat)
    requires Positive(sizes) && Holds(sizes, Copied(sizes, size), n) && k < Parts(sizes) && StartOf(sizes, k) < size
    ensures k < n && (StartOf(sizes, k + 1) >= size ==> k + 1 == n)
  {
    hide Parts, StartOf, Bytes;
    StartOfEnd(sizes);
    StartOfStep(sizes, k);
    if k + 1 < Parts(sizes) { StartOfMonotone(sizes, k + 1, Parts(sizes)); }
    if n < k { StartOfMonotone(sizes, n, k); }
    if k + 1 < n - 1 { StartOfMonotone(sizes, k + 1, n - 1); }
  }

  lemma IssuedNext(sizes: seq<PartSize>, size: nat, before: seq<CopyRequest>, after: seq<CopyRequest>, k: nat)
    requires Issued(sizes, size, before, k) && k < |before| && StartOf(sizes, k) < size
    requires after == before[k := RangeOf(sizes, size, k)]
    ensures Issued(sizes, size, after, k + 1)
  {
  }

  const MAX_PARTS: nat := 10000
  const MIN_PART_SIZE: nat := 50 * 1024 * 1024

  function DefaultCopyPartSizes(size: nat): seq<PartSize>
  {
    var part := size / (MAX_PARTS - 1);
    [PartSize(if part < MIN_PART_SIZE then MIN_PART_SIZE else part, MAX_PARTS)]
  }

  /**
   The default tier holds any object, in at most the number of parts the store allows. Its
   parts are of 50 MB unless so many of them, less one, would not hold the object.
   */
  lemma DefaultCovers(size: nat)
    ensures var sizes := DefaultCopyPartSizes(size);
            && Positive(sizes) && size <= Bytes(sizes) && Parts(sizes) == 10000
            && sizes[0].size >= 50 * 1024 * 1024
            && (sizes[0].size > 50 * 1024 * 1024 ==> sizes[0].size * 9999 <= size)
  {
    var sizes := DefaultCopyPartSizes(size);
    var part := size / (MAX_PARTS - 1);
    Quotient(size, MAX_PARTS - 1);
    assert sizes[..0] == [];
    assert Bytes(sizes) == Bytes(sizes[..0]) + sizes[0].size * sizes[0].count;
  }
}
