/** The reader an upload is sent from: a list of byte slices and zero runs read as one flat stream. */
module MultiReaders {
  import opened FileBuffers
  import opened BufferReads

  datatype BufferOrZero = BufferOrZero(data: seq<byte>, zero: bool, size: nat) {
    predicate WellFormed() { zero || |data| == size }

    function Bytes(): (r: seq<byte>)
      requires WellFormed()
      ensures |r| == size
    {
      if zero then Zeros(size) else data
    }
  }

  predicate AllWellFormed(bs: seq<BufferOrZero>)
  {
    forall i: int :: 0 <= i < |bs| ==> bs[i].WellFormed()
  }

  function Stream(bs: seq<BufferOrZero>): seq<byte>
    requires AllWellFormed(bs)
  {
    if bs == [] then [] else Stream(bs[..|bs| - 1]) + bs[|bs| - 1].Bytes()
  }

  lemma {:induction false} StreamPrefix(bs: seq<BufferOrZero>, i: nat)
    requires AllWellFormed(bs) && i <= |bs|
    ensures Stream(bs[..i]) <= Stream(bs)
    decreases |bs|
  {
    if i == |bs| {
      assert bs[..i] == bs;
    } else {
      StreamPrefix(bs[..|bs| - 1], i);
      assert bs[..|bs| - 1][..i] == bs[..i];
    }
  }

  /** Buffer `i` occupies the stream from where the buffers before it end. */
  lemma StreamAt(bs: seq<BufferOrZero>, i: nat)
    requires AllWellFormed(bs) && i < |bs|
    ensures Stream(bs[..i + 1]) == Stream(bs[..i]) + bs[i].Bytes() <= Stream(bs)
  {
    assert bs[..i + 1][..i] == bs[..i];
    StreamPrefix(bs, i + 1);
  }

  /** `pos` in the stream is `bufPos` bytes into buffer `idx`. */
  ghost predicate IsAt(bs: seq<BufferOrZero>, idx: nat, bufPos: nat, pos: nat)
    requires AllWellFormed(bs) && idx <= |bs|
  {
    && pos == |Stream(bs[..idx])| + bufPos
    && if idx < |bs| then bufPos <= bs[idx].size else bufPos == 0
  }

  lemma InsideStream(bs: seq<BufferOrZero>, idx: nat, bufPos: nat, pos: nat)
    requires AllWellFormed(bs) && idx <= |bs| && IsAt(bs, idx, bufPos, pos)
    ensures pos <= |Stream(bs)| && (idx == |bs| ==> pos == |Stream(bs)|)
  {
    if idx < |bs| { StreamAt(bs, idx); } else { assert bs[..idx] == bs; }
  }

  lemma SliceOf(p: seq<byte>, b: seq<byte>, s: seq<byte>, i: nat, l: nat)
    requires p + b <= s && i + l <= |b|
    ensures s[|p| + i..|p| + i + l] == b[i..i + l]
  {
    var upTo := |p| + |b|;
    assert s[..upTo] == p + b && s[|p|..upTo] == b;
    assert s[|p| + i..|p| + i + l] == s[|p|..upTo][i..i + l];
  }

  /** `l` bytes further inside a buffer; at its end the position is the start of the next one. */
  lemma MoveInside(bs: seq<BufferOrZero>, idx: nat, bufPos: nat, pos: nat, l: nat)
    requires AllWellFormed(bs) && idx < |bs| && IsAt(bs, idx, bufPos, pos) && bufPos + l <= bs[idx].size
    ensures pos + l <= |Stream(bs)| && bs[idx].Bytes()[bufPos..bufPos + l] == Stream(bs)[pos..pos + l]
    ensures IsAt(bs, idx, bufPos + l, pos + l)
    ensures bufPos + l == bs[idx].size ==> IsAt(bs, idx + 1, 0, pos + l)
  {
    hide Stream, BufferOrZero.Bytes;
    StreamAt(bs, idx);
    SliceOf(Stream(bs[..idx]), bs[idx].Bytes(), Stream(bs), bufPos, l);
  }

  lemma WellFormedAt(bs: seq<BufferOrZero>, i: nat)
    requires AllWellFormed(bs) && i < |bs|
    ensures bs[i].WellFormed()
  {
  }

  lemma BufPosInside(bs: seq<BufferOrZero>, idx: nat, bufPos: nat, pos: nat)
    requires AllWellFormed(bs) && idx < |bs| && IsAt(bs, idx, bufPos, pos)
    ensures bufPos <= bs[idx].size
  {
  }

  lemma AtStart(bs: seq<BufferOrZero>)
    requires AllWellFormed(bs)
    ensures IsAt(bs, 0, 0, 0)
  {
  }

  /** `after` is `before` with `piece` written over it from `out` on. */
  ghost predicate Pasted(before: seq<byte>, after: seq<byte>, out: nat, piece: seq<byte>)
  {
    out + |piece| <= |before| && after == before[..out] + piece + before[out + |piece|..]
  }

  lemma NothingPasted(before: seq<byte>)
    ensures Pasted(before, before, 0, [])
  {
  }

  lemma PastedFurther(b0: seq<byte>, b1: seq<byte>, b2: seq<byte>, s: seq<byte>, start: nat, from: nat, l: nat)
    requires start <= from && from + l <= |s|
    requires Pasted(b0, b1, 0, s[start..from]) && Pasted(b1, b2, from - start, s[from..from + l])
    ensures Pasted(b0, b2, 0, s[start..from + l])
  {
    assert s[start..from + l] == s[start..from] + s[from..from + l];
  }

  datatype Whence = SeekStart | SeekCurrent | SeekEnd

  class MultiReader {
    var buffers: seq<BufferOrZero>
    var idx: nat
    var pos: nat
    var bufPos: nat
    var size: nat

    ghost predicate Valid()
      reads this
    {
      AllWellFormed(buffers) && idx <= |buffers| && IsAt(buffers, idx, bufPos, pos) && size == |Stream(buffers)|
    }

    /** Everything the reader will deliver when read from the start. */
    ghost function Flat(): seq<byte>
      requires Valid()
      reads this
    {
      Stream(buffers)
    }

    constructor ()
      ensures Valid() && Flat() == [] && pos == 0
    {
      buffers, idx, pos, bufPos, size := [], 0, 0, 0, 0;
    }

    method AddBuffer(buf: seq<byte>)
      requires Valid()
      modifies this
      ensures Valid() && Flat() == old(Flat()) + buf && pos == old(pos)
    {
      Append(BufferOrZero(buf, false, |buf|));
    }

    method AddZero(zeroes: nat)
      requires Valid()
      modifies this
      ensures Valid() && Flat() == old(Flat()) + Zeros(zeroes) && pos == old(pos)
    {
      Append(BufferOrZero([], true, zeroes));
    }

    method Append(b: BufferOrZero)
      requires Valid() && b.WellFormed()
      modifies this
      ensures Valid() && Flat() == old(Flat()) + b.Bytes() && pos == old(pos)
    {
      var bs := buffers + [b];
      assert bs[..|buffers|] == buffers && bs[..idx] == buffers[..idx];
      buffers := bs;
      size := size + b.size;
    }

    /**
     Delivers the next bytes of the stream, as many as fit or are left. A read that delivers
     less than fits comes to the end, and the next one reports it.
     */
    method Read(buf: array<byte>) returns (n: nat, eof: bool)
      requires Valid()
      modifies this, buf
      ensures Valid() && Flat() == old(Flat())
      ensures n == if buf.Length < size - old(pos) then buf.Length else size - old(pos)
      ensures Pasted(old(buf[..]), buf[..], 0, Flat()[old(pos)..old(pos) + n])
      ensures pos == old(pos) + n && (eof ==> old(pos) == size)
      ensures (eof <==> old(idx) == |buffers|) && (n < buf.Length ==> idx == |buffers|)
    {
      hide IsAt, Stream, AllWellFormed, Pasted;
      NothingPasted(buf[..]);
      InsideStream(buffers, idx, bufPos, pos);
      assert Stream(buffers)[pos..pos] == [];
      n := 0;
      if idx >= |buffers| {
        return 0, true;
      }
      eof := false;
      ghost var bs, was, start := buffers, buf[..], pos;
      var outPos: nat := 0;
      while idx < |buffers| && outPos < buf.Length
        invariant Valid() && buffers == bs && size == old(size)
        invariant outPos <= buf.Length && pos == start + outPos <= size
        invariant Pasted(was, buf[..], 0, Stream(bs)[start..pos])
        decreases |buffers| - idx, buf.Length - outPos
      {
        var l := ReadTurn(buf, outPos, was, start);
        outPos := outPos + l;
      }
      InsideStream(bs, idx, bufPos, pos);
      n := outPos;
    }

    /** Delivers what the current buffer has left, as far as it fits. */
    method ReadTurn(buf: array<byte>, outPos: nat, ghost was: seq<byte>, ghost start: nat) returns (l: nat)
      requires Valid() && idx < |buffers| && outPos < buf.Length && pos == start + outPos <= size
      requires Pasted(was, buf[..], 0, Stream(buffers)[start..pos])
      modifies `idx, `pos, `bufPos, buf
      ensures Valid() && start <= pos == old(pos) + l <= size && outPos + l <= buf.Length
      ensures Pasted(was, buf[..], 0, Stream(buffers)[start..pos])
      ensures old(idx) <= idx && (idx == old(idx) ==> l > 0)
    {
      hide IsAt, Stream, AllWellFormed, Pasted;
      BufPosInside(buffers, idx, bufPos, pos);
      var remaining := buf.Length - outPos;
      l := buffers[idx].size - bufPos;
      if l > remaining {
        l := remaining;
      }
      ghost var before, from := buf[..], pos;
      ReadNext(buf, outPos, l);
      PastedFurther(was, before, buf[..], Stream(buffers), start, from, l);
    }

    /** Delivers `l` bytes of the current buffer. */
    method ReadNext(buf: array<byte>, outPos: nat, l: nat)
      requires Valid() && idx < |buffers| && outPos + l <= buf.Length && bufPos + l <= buffers[idx].size
      modifies `idx, `pos, `bufPos, buf
      ensures Valid() && pos == old(pos) + l <= size
      ensures old(idx) <= idx && (idx == old(idx) ==> bufPos == old(bufPos) + l < buffers[idx].size)
      ensures Pasted(old(buf[..]), buf[..], outPos, Stream(buffers)[old(pos)..old(pos) + l])
    {
      hide IsAt, Stream, BufferOrZero.Bytes, BufferOrZero.WellFormed, AllWellFormed, Pasted;
      WellFormedAt(buffers, idx);
      MoveInside(buffers, idx, bufPos, pos, l);
      CopyTo(buf, outPos, buffers[idx], bufPos, l);
      Move(l);
    }

    /** Passes `l` bytes of the current buffer. */
    method Move(l: nat)
      requires Valid() && idx < |buffers| && bufPos + l <= buffers[idx].size
      modifies `idx, `pos, `bufPos
      ensures Valid() && pos == old(pos) + l <= size
      ensures old(idx) <= idx && (idx == old(idx) ==> bufPos == old(bufPos) + l < buffers[idx].size)
    {
      hide IsAt, Stream;
      MoveInside(buffers, idx, bufPos, pos, l);
      pos, bufPos := pos + l, bufPos + l;
      if bufPos >= buffers[idx].size {
        idx, bufPos := idx + 1, 0;
      }
    }

    /** Copies `l` bytes of `b` from `from` to `buf` at `out`. */
    static method CopyTo(buf: array<byte>, out: nat, b: BufferOrZero, from: nat, l: nat)
      requires b.WellFormed() && out + l <= buf.Length && from + l <= b.size
      modifies buf
      ensures Pasted(old(buf[..]), buf[..], out, b.Bytes()[from..from + l])
    {
      var j := 0;
      while j < l
        invariant j <= l && (forall i: int :: out <= i < out + j ==> buf[i] == b.Bytes()[from + i - out])
        invariant forall i: int :: 0 <= i < buf.Length && !(out <= i < out + j) ==> buf[i] == old(buf[i])
      {
        buf[out + j] := if b.zero then 0 else b.data[from + j];
        j := j + 1;
      }
    }

    /** Moves to the clamped offset; the next Read continues there. */
    method Seek(offset: int, whence: Whence) returns (newOffset: nat)
      requires Valid()
      modifies `idx, `pos, `bufPos
      ensures Valid() && newOffset == pos
      ensures idx == |buffers| || bufPos == 0 || bufPos < buffers[idx].size
      ensures var target := match whence
                            case SeekStart => offset
                            case SeekCurrent => offset + old(pos)
                            case SeekEnd => offset + size;
              pos == if target > size then size else if target < 0 then 0 else target
    {
      hide IsAt, Stream;
      var target := match whence
        case SeekStart => offset
        case SeekCurrent => offset + pos
        case SeekEnd => offset + size;
      if target > size {
        target := size;
      }
      if target < 0 {
        target := 0;
      }
      AtStart(buffers);
      idx, pos, bufPos := 0, 0, 0;
      while pos < target
        invariant Valid() && pos <= target <= size && (pos < target ==> bufPos == 0)
        invariant idx == |buffers| || bufPos == 0 || bufPos < buffers[idx].size
        decreases target - pos, |buffers| - idx
      {
        InsideStream(buffers, idx, bufPos, pos);
        var end := pos + buffers[idx].size;
        MoveInside(buffers, idx, bufPos, pos, if end <= target then buffers[idx].size else target - pos);
        if end <= target {
          pos, idx := end, idx + 1;
        } else {
          bufPos, pos := target - pos, target;
        }
      }
      newOffset := pos;
    }
  }
}
