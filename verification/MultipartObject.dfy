/**
 The object a multipart upload leaves behind: uploaded parts and server-side copies of the
 old object, in part order. Unmodified parts that follow each other are copied together.
 */
module MultipartObject {
  import opened FileBuffers
  import opened PartSizes

  type Bodies = map<int, seq<byte>>

  /** Offset of the end of part `p` in a file of `size` bytes. */
  function PartEnd(starts: seq<nat>, p: int, size: nat): nat
    requires 0 <= p < |starts| - 1
  {
    if starts[p + 1] < size then starts[p + 1] else size
  }

  /** `n` parts hold `size` bytes, and every part that has to be copied exists in the old object. */
  ghost predicate CopiesExist(starts: seq<nat>, parts: Bodies, server: seq<byte>, size: nat, n: nat)
  {
    && Boundaries(starts) && IsPartCount(starts, size, n)
    && forall p: int :: 0 <= p < n && p !in parts ==> PartEnd(starts, p, size) <= |server|
  }

  /** Every byte past the end of the old object is in an uploaded part. */
  ghost predicate NewBytesUploaded(starts: seq<nat>, parts: Bodies, server: seq<byte>, size: nat)
    requires |starts| > 0
  {
    forall x: int :: |server| <= x < size ==> PartOf(starts, x) in parts
  }

  /** The copies exist exactly when nothing but uploaded parts reaches past the old object. */
  lemma CopiesExistExactly(starts: seq<nat>, parts: Bodies, server: seq<byte>, size: nat, n: nat)
    requires Boundaries(starts) && IsPartCount(starts, size, n)
    ensures CopiesExist(starts, parts, server, size, n) <==> NewBytesUploaded(starts, parts, server, size)
  {
    hide PartOf;
    if CopiesExist(starts, parts, server, size, n) {
      forall x: int | |server| <= x < size ensures PartOf(starts, x) in parts {
        var p := PartOf(starts, x);
        assert size <= starts[n] <= MaxSize(starts);
        PartOfIs(starts, p, x);
        PartBelow(starts, size, n, p, x);
        assert x < PartEnd(starts, p, size);
      }
    }
    if NewBytesUploaded(starts, parts, server, size) {
      forall p: int | 0 <= p < n && p !in parts ensures PartEnd(starts, p, size) <= |server| {
        PartHasBytes(starts, size, n, p);
        var x := PartEnd(starts, p, size) - 1;
        PartOfIs(starts, p, x);
        assert PartOf(starts, x) == p;
      }
    }
  }

  lemma PartHasBytes(starts: seq<nat>, size: nat, n: nat, p: int)
    requires Boundaries(starts) && IsPartCount(starts, size, n) && 0 <= p < n
    ensures starts[p] < PartEnd(starts, p, size) == if p < n - 1 then starts[p + 1] else size
  {
    if p < n - 1 { assert starts[p] < starts[p + 1] <= starts[n - 1]; }
  }

  /** What part `p` of the finished object holds: the upload, or a copy of the old object. */
  ghost function PartContent(starts: seq<nat>, parts: Bodies, server: seq<byte>, size: nat, n: nat, p: int): seq<byte>
    requires CopiesExist(starts, parts, server, size, n) && 0 <= p < n
  {
    PartHasBytes(starts, size, n, p);
    if p in parts then parts[p] else server[starts[p]..PartEnd(starts, p, size)]
  }

  /** The first `k` parts of the finished object, one after the other. */
  ghost function Object(starts: seq<nat>, parts: Bodies, server: seq<byte>, size: nat, n: nat, k: nat): seq<byte>
    requires CopiesExist(starts, parts, server, size, n) && k <= n
  {
    if k == 0 then []
    else Object(starts, parts, server, size, n, k - 1) + PartContent(starts, parts, server, size, n, k - 1)
  }

  /** Every uploaded part reaches to its end in a file of `size` bytes. */
  ghost predicate PartsReach(starts: seq<nat>, parts: Bodies, size: nat)
  {
    forall p: int :: p in parts ==> 0 <= p < |starts| - 1 && starts[p] + |parts[p]| == PartEnd(starts, p, size)
  }

  /** Up to `d`, the size the uploaded parts were sent for, the object is laid out like the file. */
  lemma {:induction false} ObjectStart(starts: seq<nat>, parts: Bodies, server: seq<byte>, size: nat, n: nat, d: nat,
                                       p: nat)
    requires CopiesExist(starts, parts, server, size, n) && PartsReach(starts, parts, d) && d <= size
    requires p <= n && starts[p] <= d
    ensures |Object(starts, parts, server, size, n, p)| == starts[p]
  {
    if p > 0 {
      assert starts[p - 1] < starts[p];
      ObjectStart(starts, parts, server, size, n, d, p - 1);
    }
  }

  lemma {:induction false} ObjectPrefix(starts: seq<nat>, parts: Bodies, server: seq<byte>, size: nat, n: nat, a: nat,
                                        b: nat, x: nat)
    requires CopiesExist(starts, parts, server, size, n) && a <= b <= n
    requires x < |Object(starts, parts, server, size, n, a)|
    ensures x < |Object(starts, parts, server, size, n, b)|
    ensures Object(starts, parts, server, size, n, b)[x] == Object(starts, parts, server, size, n, a)[x]
    decreases b - a
  {
    hide CopiesExist, PartContent;
    if a < b { ObjectPrefix(starts, parts, server, size, n, a, b - 1, x); }
  }

  lemma ObjectAt(starts: seq<nat>, parts: Bodies, server: seq<byte>, size: nat, n: nat, d: nat, p: nat, x: nat)
    requires CopiesExist(starts, parts, server, size, n) && PartsReach(starts, parts, d) && d <= size
    requires p < n && starts[p] <= d && starts[p] <= x < starts[p] + |PartContent(starts, parts, server, size, n, p)|
    ensures x < |Object(starts, parts, server, size, n, n)|
    ensures Object(starts, parts, server, size, n, n)[x] ==
            PartContent(starts, parts, server, size, n, p)[x - starts[p]]
  {
    hide CopiesExist, PartContent, PartsReach;
    ObjectStart(starts, parts, server, size, n, d, p);
    assert Object(starts, parts, server, size, n, p + 1) ==
           Object(starts, parts, server, size, n, p) + PartContent(starts, parts, server, size, n, p);
    ObjectPrefix(starts, parts, server, size, n, p + 1, n, x);
  }

  lemma PartBelow(starts: seq<nat>, size: nat, n: nat, p: int, x: int)
    requires Boundaries(starts) && IsPartCount(starts, size, n) && InPart(starts, p, x) && x < size
    ensures p < n
  {
  }

  /** Byte by byte: the object takes an uploaded part where there is one, and the old object elsewhere. */
  lemma ObjectByte(starts: seq<nat>, parts: Bodies, server: seq<byte>, size: nat, n: nat, d: nat, p: int, x: int)
    requires CopiesExist(starts, parts, server, size, n) && PartsReach(starts, parts, d) && d <= size
    requires InPart(starts, p, x) && x < d
    ensures x < |Object(starts, parts, server, size, n, n)|
    ensures p in parts ==>
              && x - starts[p] < |parts[p]|
              && Object(starts, parts, server, size, n, n)[x] == parts[p][x - starts[p]]
    ensures p !in parts ==> x < |server| && Object(starts, parts, server, size, n, n)[x] == server[x]
  {
    hide Object;
    PartBelow(starts, size, n, p, x);
    PartHasBytes(starts, size, n, p);
    ObjectAt(starts, parts, server, size, n, d, p, x);
  }

  /** No uploaded part below `k` stops short of its end in the final file. */
  ghost predicate NoShortPart(starts: seq<nat>, parts: Bodies, size: nat, k: nat)
  {
    forall p: int :: 0 <= p < k && p < |starts| - 1 && p in parts ==> starts[p] + |parts[p]| == PartEnd(starts, p, size)
  }

  lemma PartContentSize(starts: seq<nat>, parts: Bodies, server: seq<byte>, size: nat, n: nat, d: nat, p: nat)
    requires CopiesExist(starts, parts, server, size, n) && PartsReach(starts, parts, d) && d <= size && p < n
    ensures var room := PartEnd(starts, p, size) - starts[p];
            && |PartContent(starts, parts, server, size, n, p)| <= room
            && (|PartContent(starts, parts, server, size, n, p)| == room
                <==> (p in parts ==> starts[p] + |parts[p]| == PartEnd(starts, p, size)))
  {
    PartHasBytes(starts, size, n, p);
  }

  /** The bytes of a file of `size` bytes that the first `k` of its `n` parts hold. */
  ghost function Whole(starts: seq<nat>, size: nat, n: nat, k: nat): nat
    requires k <= n < |starts|
  {
    if k == n then size else starts[k]
  }

  lemma ObjectStep(starts: seq<nat>, parts: Bodies, server: seq<byte>, size: nat, n: nat, k: nat)
    requires CopiesExist(starts, parts, server, size, n) && 0 < k <= n
    ensures |Object(starts, parts, server, size, n, k)| ==
            |Object(starts, parts, server, size, n, k - 1)| + |PartContent(starts, parts, server, size, n, k - 1)|
    ensures starts[k - 1] <= PartEnd(starts, k - 1, size) == Whole(starts, size, n, k)
    ensures Whole(starts, size, n, k - 1) == starts[k - 1]
  {
    hide PartContent, Boundaries;
    PartHasBytes(starts, size, n, k - 1);
  }

  lemma ObjectEmpty(starts: seq<nat>, parts: Bodies, server: seq<byte>, size: nat, n: nat)
    requires CopiesExist(starts, parts, server, size, n)
    ensures Object(starts, parts, server, size, n, 0) == [] && Whole(starts, size, n, 0) == 0
  {
  }

  lemma {:induction false} ObjectSizeUpTo(starts: seq<nat>, parts: Bodies, server: seq<byte>, size: nat, n: nat,
                                          d: nat, k: nat)
    requires CopiesExist(starts, parts, server, size, n) && PartsReach(starts, parts, d) && d <= size && k <= n
    ensures |Object(starts, parts, server, size, n, k)| <= Whole(starts, size, n, k)
    ensures |Object(starts, parts, server, size, n, k)| == Whole(starts, size, n, k) <==>
            NoShortPart(starts, parts, size, k)
  {
    hide PartContent, PartsReach, Object, Boundaries, Whole, PartEnd, NoShortPart;
    if k > 0 {
      ObjectSizeUpTo(starts, parts, server, size, n, d, k - 1);
      PartContentSize(starts, parts, server, size, n, d, k - 1);
      ObjectStep(starts, parts, server, size, n, k);
      NoShortPartStep(starts, parts, size, k);
    } else {
      ObjectEmpty(starts, parts, server, size, n);
      NoPartShort(starts, parts, size);
    }
  }

  lemma NoPartShort(starts: seq<nat>, parts: Bodies, size: nat)
    ensures NoShortPart(starts, parts, size, 0)
  {
  }

  lemma NoShortPartStep(starts: seq<nat>, parts: Bodies, size: nat, k: nat)
    requires 0 < k < |starts|
    ensures NoShortPart(starts, parts, size, k) <==>
            && NoShortPart(starts, parts, size, k - 1)
            && (k - 1 in parts ==> starts[k - 1] + |parts[k - 1]| == PartEnd(starts, k - 1, size))
  {
  }

  /** The finished object has `size` bytes exactly when no uploaded part is short. */
  lemma ObjectSize(starts: seq<nat>, parts: Bodies, server: seq<byte>, size: nat, n: nat, d: nat)
    requires CopiesExist(starts, parts, server, size, n) && PartsReach(starts, parts, d) && d <= size
    ensures |Object(starts, parts, server, size, n, n)| == size <==> NoShortPart(starts, parts, size, n)
  {
    ObjectSizeUpTo(starts, parts, server, size, n, d, n);
  }

  // ----- Uploaded parts that reach too far -----

  /** Every uploaded part reaches to its end in a file of `d` bytes, or past it, but not past `d`. */
  ghost predicate PartsCover(starts: seq<nat>, parts: Bodies, d: nat)
  {
    forall p: int :: p in parts ==>
      0 <= p < |starts| - 1 && PartEnd(starts, p, d) <= starts[p] + |parts[p]| <= d
  }

  /** No part reaches into the next one. */
  ghost predicate NoneMerged(starts: seq<nat>, parts: Bodies)
  {
    forall p: int :: p in parts && 0 <= p < |starts| - 1 ==> starts[p] + |parts[p]| <= starts[p + 1]
  }

  lemma CoverReach(starts: seq<nat>, parts: Bodies, d: nat)
    requires PartsCover(starts, parts, d) && NoneMerged(starts, parts)
    ensures PartsReach(starts, parts, d)
  {
  }

  /** Up to `d`, every part of the object starts where it starts in the file. */
  ghost predicate InPlace(starts: seq<nat>, parts: Bodies, server: seq<byte>, size: nat, n: nat, d: nat)
    requires CopiesExist(starts, parts, server, size, n)
  {
    forall k: int :: 0 <= k <= n && starts[k] <= d ==> |Object(starts, parts, server, size, n, k)| == starts[k]
  }

  lemma AllInPlace(starts: seq<nat>, parts: Bodies, server: seq<byte>, size: nat, n: nat, d: nat)
    requires CopiesExist(starts, parts, server, size, n) && PartsReach(starts, parts, d) && d <= size
    ensures InPlace(starts, parts, server, size, n, d)
  {
    hide Object, PartsReach, PartContent;
    forall k: int | 0 <= k <= n && starts[k] <= d
      ensures |Object(starts, parts, server, size, n, k)| == starts[k]
    {
      ObjectStart(starts, parts, server, size, n, d, k);
    }
  }

  /** What follows a part that reaches into the next one is out of place. */
  lemma MergedMoves(starts: seq<nat>, parts: Bodies, server: seq<byte>, size: nat, n: nat, d: nat, p: int)
    requires CopiesExist(starts, parts, server, size, n) && InPlace(starts, parts, server, size, n, d) && d <= size
    requires p in parts && 0 <= p < |starts| - 1 && starts[p] + |parts[p]| <= d
    ensures starts[p] + |parts[p]| <= starts[p + 1]
  {
    hide Object;
    if starts[p + 1] < d {
      NextPart(starts, size, n, p);
      ObjectStep(starts, parts, server, size, n, p + 1);
    }
  }

  lemma NextPart(starts: seq<nat>, size: nat, n: nat, p: int)
    requires Boundaries(starts) && IsPartCount(starts, size, n) && 0 <= p < |starts| - 1 && starts[p + 1] < size
    ensures p + 1 <= n && starts[p] < starts[p + 1]
  {
  }

  /** The object is laid out like the file exactly when no part reaches into the next one. */
  lemma InPlaceExactly(starts: seq<nat>, parts: Bodies, server: seq<byte>, size: nat, n: nat, d: nat)
    requires CopiesExist(starts, parts, server, size, n) && PartsCover(starts, parts, d) && d <= size
    ensures InPlace(starts, parts, server, size, n, d) <==> NoneMerged(starts, parts)
  {
    hide CopiesExist, InPlace, PartEnd;
    if NoneMerged(starts, parts) {
      CoverReach(starts, parts, d);
      AllInPlace(starts, parts, server, size, n, d);
    }
    if InPlace(starts, parts, server, size, n, d) {
      forall p: int | p in parts && 0 <= p < |starts| - 1 ensures starts[p] + |parts[p]| <= starts[p + 1] {
        MergedMoves(starts, parts, server, size, n, d, p);
      }
    }
  }

  /** Every uploaded part below `k` ends inside a file of `size` bytes. */
  ghost predicate PartsInside(starts: seq<nat>, parts: Bodies, size: nat, k: nat)
  {
    forall p: int :: 0 <= p < k && p < |starts| && p in parts ==> starts[p] + |parts[p]| <= size
  }

  lemma {:induction false} CutSizeUpTo(starts: seq<nat>, parts: Bodies, server: seq<byte>, size: nat, n: nat, d: nat,
                                       k: nat)
    requires CopiesExist(starts, parts, server, size, n) && PartsReach(starts, parts, d) && size <= d && k <= n
    ensures |Object(starts, parts, server, size, n, k)| >= Whole(starts, size, n, k)
    ensures |Object(starts, parts, server, size, n, k)| == Whole(starts, size, n, k) <==>
            PartsInside(starts, parts, size, k)
  {
    hide Object, PartContent, PartsReach, Boundaries, PartsInside, PartEnd, Whole;
    if k > 0 {
      CutSizeUpTo(starts, parts, server, size, n, d, k - 1);
      CutPartSize(starts, parts, server, size, n, d, k - 1);
      ObjectStep(starts, parts, server, size, n, k);
      PartsInsideStep(starts, parts, size, k);
    } else {
      ObjectEmpty(starts, parts, server, size, n);
      NoPartInside(starts, parts, size);
    }
  }

  lemma NoPartInside(starts: seq<nat>, parts: Bodies, size: nat)
    ensures PartsInside(starts, parts, size, 0)
  {
  }

  lemma PartsInsideStep(starts: seq<nat>, parts: Bodies, size: nat, k: nat)
    requires 0 < k < |starts|
    ensures PartsInside(starts, parts, size, k) <==>
            && PartsInside(starts, parts, size, k - 1)
            && (k - 1 in parts ==> starts[k - 1] + |parts[k - 1]| <= size)
  {
  }

  lemma CutPartSize(starts: seq<nat>, parts: Bodies, server: seq<byte>, size: nat, n: nat, d: nat, p: nat)
    requires CopiesExist(starts, parts, server, size, n) && PartsReach(starts, parts, d) && size <= d && p < n
    ensures var room := PartEnd(starts, p, size) - starts[p];
            && |PartContent(starts, parts, server, size, n, p)| >= room
            && (|PartContent(starts, parts, server, size, n, p)| == room
                <==> (p in parts ==> starts[p] + |parts[p]| <= size))
  {
    PartHasBytes(starts, size, n, p);
  }

  /**
   A file was cut to `size` bytes after its parts had been sent for `d` bytes. Completing the
   upload makes an object of `size` bytes exactly when no uploaded part reaches past them.
   */
  lemma CutObjectSize(starts: seq<nat>, parts: Bodies, server: seq<byte>, size: nat, n: nat, d: nat)
    requires CopiesExist(starts, parts, server, size, n) && PartsReach(starts, parts, d) && size <= d
    ensures |Object(starts, parts, server, size, n, n)| == size <==> PartsInside(starts, parts, size, n)
  {
    CutSizeUpTo(starts, parts, server, size, n, d, n);
  }

  // ----- Copying unmodified parts together -----

  /** One server-side copy: `size` bytes of the old object from `offset`, stored as part `part`. */
  datatype CopyRange = CopyRange(part: nat, offset: nat, size: nat)

  /** What the commit request concatenates: parts without an id are left out. */
  function Concat(parts: Bodies, k: nat): seq<byte>
  {
    if k == 0 then [] else Concat(parts, k - 1) + if k - 1 in parts then parts[k - 1] else []
  }

  /** The parts once the copies are made. */
  ghost function WithCopies(parts: Bodies, server: seq<byte>, ranges: seq<CopyRange>): Bodies
    requires InsideServer(server, ranges)
  {
    if ranges == [] then parts
    else
      var r := ranges[|ranges| - 1];
      WithCopies(parts, server, ranges[..|ranges| - 1])[r.part := server[r.offset..r.offset + r.size]]
  }

  lemma {:induction false} ConcatSkip(parts: Bodies, a: nat, b: nat)
    requires a <= b && forall i: int :: a <= i < b ==> i !in parts
    ensures Concat(parts, b) == Concat(parts, a)
    decreases b - a
  {
    if a < b { ConcatSkip(parts, a, b - 1); }
  }

  lemma {:induction false} ConcatBelow(parts: Bodies, more: Bodies, k: nat)
    requires forall i: int :: 0 <= i < k ==> (i in parts <==> i in more) && (i in parts ==> more[i] == parts[i])
    ensures Concat(more, k) == Concat(parts, k)
  {
    if k > 0 { ConcatBelow(parts, more, k - 1); }
  }

  /** A copy stored at the start of a run of missing parts adds exactly its bytes. */
  lemma ConcatCopy(parts: Bodies, p: nat, body: seq<byte>, k: nat)
    requires p < k && forall i: int :: p <= i < k ==> i !in parts
    ensures Concat(parts[p := body], k) == Concat(parts, k) + body
  {
    var more := parts[p := body];
    ConcatBelow(parts, more, p);
    ConcatSkip(more, p + 1, k);
    ConcatSkip(parts, p, k);
  }

  ghost predicate InsideServer(server: seq<byte>, ranges: seq<CopyRange>)
  {
    forall i: int :: 0 <= i < |ranges| ==> ranges[i].offset + ranges[i].size <= |server|
  }

  /** Each range is one part. */
  ghost predicate Unmerged(starts: seq<nat>, size: nat, n: nat, ranges: seq<CopyRange>)
  {
    forall i: int :: 0 <= i < |ranges| ==>
      var r := ranges[i];
      r.part < n < |starts| && starts[r.part] == r.offset && r.offset + r.size == PartEnd(starts, r.part, size)
  }

  /** `r` copies the parts from `r.part` to `last` together; none of them has an id. */
  ghost predicate CopiesTo(starts: seq<nat>, parts: Bodies, size: nat, n: nat, r: CopyRange, last: int)
  {
    && r.part <= last < n < |starts| && starts[r.part] == r.offset
    && r.offset + r.size == PartEnd(starts, last, size)
    && forall q: int :: r.part <= q <= last ==> q !in parts
  }

  ghost predicate IsCopy(starts: seq<nat>, parts: Bodies, size: nat, n: nat, r: CopyRange)
  {
    exists last: int :: CopiesTo(starts, parts, size, n, r, last)
  }

  /** Copies of whole parts without an id, each stored under a number of its own. */
  ghost predicate IsPlan(starts: seq<nat>, parts: Bodies, size: nat, n: nat, ranges: seq<CopyRange>)
  {
    && (forall i: int :: 0 <= i < |ranges| ==> IsCopy(starts, parts, size, n, ranges[i]))
    && forall i: int, j: int :: 0 <= i < j < |ranges| ==> ranges[i].part != ranges[j].part
  }

  ghost predicate AllBelow(ranges: seq<CopyRange>, p: int)
  {
    forall i: int :: 0 <= i < |ranges| ==> ranges[i].part < p
  }

  lemma PlanNext(starts: seq<nat>, parts: Bodies, size: nat, n: nat, ranges: seq<CopyRange>, r: CopyRange, last: int)
    requires IsPlan(starts, parts, size, n, ranges) && AllBelow(ranges, r.part)
    requires CopiesTo(starts, parts, size, n, r, last)
    ensures IsPlan(starts, parts, size, n, ranges + [r]) && AllBelow(ranges + [r], last + 1)
  {
    assert IsCopy(starts, parts, size, n, r);
  }

  /** The parts from `p` to `i` have no id and make up [from, end). */
  ghost predicate OpenRun(starts: seq<nat>, parts: Bodies, size: nat, n: nat, p: nat, i: nat, from: nat, end: nat)
  {
    && from <= end && p < i && CopiesTo(starts, parts, size, n, CopyRange(p, from, end - from), i - 1)
  }

  lemma RunGrows(starts: seq<nat>, parts: Bodies, size: nat, n: nat, p: nat, i: nat, from: nat, end: nat)
    requires Boundaries(starts) && IsPartCount(starts, size, n) && i < n && i !in parts
    requires OpenRun(starts, parts, size, n, p, i, from, end)
    ensures OpenRun(starts, parts, size, n, p, i + 1, from, PartEnd(starts, i, size))
  {
    PartHasBytes(starts, size, n, i);
    PartHasBytes(starts, size, n, i - 1);
  }

  lemma RunStarts(starts: seq<nat>, parts: Bodies, size: nat, n: nat, i: nat)
    requires Boundaries(starts) && IsPartCount(starts, size, n) && i < n && i !in parts
    ensures OpenRun(starts, parts, size, n, i, i + 1, starts[i], PartEnd(starts, i, size))
  {
    PartHasBytes(starts, size, n, i);
  }

  /** The scan for copies has passed part `i`; a run of missing parts that ends there may be open. */
  ghost predicate Scanned(starts: seq<nat>, parts: Bodies, server: seq<byte>, size: nat, n: nat, all: Bodies, i: nat,
                          open: bool, startPart: nat, startOffset: nat, endOffset: nat)
    requires CopiesExist(starts, parts, server, size, n) && i <= n
  {
    && (forall p: int :: p in parts ==> p in all && all[p] == parts[p])
    && (forall p: int :: p in all && p !in parts ==> p < i)
    && (open ==> startPart < i && startOffset < endOffset <= |server|)
    && (open ==> forall p: int :: startPart <= p < i ==> p !in all)
    && (open && i < n ==> endOffset == starts[i])
    && Object(starts, parts, server, size, n, i) == Concat(all, i) + if open then server[startOffset..endOffset] else []
  }

  lemma ScanUploaded(starts: seq<nat>, parts: Bodies, server: seq<byte>, size: nat, n: nat, all: Bodies, i: nat,
                     startPart: nat, startOffset: nat, endOffset: nat)
    requires CopiesExist(starts, parts, server, size, n) && i < n && i in parts
    requires Scanned(starts, parts, server, size, n, all, i, false, startPart, startOffset, endOffset)
    ensures Scanned(starts, parts, server, size, n, all, i + 1, false, startPart, startOffset, endOffset)
  {
  }

  lemma ScanMissing(starts: seq<nat>, parts: Bodies, server: seq<byte>, size: nat, n: nat, all: Bodies, i: nat,
                    open: bool, startPart: nat, startOffset: nat, endOffset: nat)
    requires CopiesExist(starts, parts, server, size, n) && i < n && i !in parts
    requires Scanned(starts, parts, server, size, n, all, i, open, startPart, startOffset, endOffset)
    ensures Scanned(starts, parts, server, size, n, all, i + 1, true,
                    if open then startPart else i, if open then startOffset else starts[i], PartEnd(starts, i, size))
  {
    hide Object, Concat, Boundaries, PartEnd;
    PartHasBytes(starts, size, n, i);
    MissingPart(starts, parts, server, size, n, all, i);
    if open { Joined(server, startOffset, endOffset, PartEnd(starts, i, size)); }
  }

  lemma MissingPart(starts: seq<nat>, parts: Bodies, server: seq<byte>, size: nat, n: nat, all: Bodies, i: nat)
    requires CopiesExist(starts, parts, server, size, n) && i < n && i !in parts && i !in all
    ensures starts[i] <= PartEnd(starts, i, size) <= |server|
    ensures Object(starts, parts, server, size, n, i + 1) ==
            Object(starts, parts, server, size, n, i) + server[starts[i]..PartEnd(starts, i, size)]
    ensures Concat(all, i + 1) == Concat(all, i)
  {
    PartHasBytes(starts, size, n, i);
  }

  lemma Joined(server: seq<byte>, a: nat, b: nat, c: nat)
    requires a <= b <= c <= |server|
    ensures server[a..b] + server[b..c] == server[a..c]
  {
  }

  lemma ScanClose(starts: seq<nat>, parts: Bodies, server: seq<byte>, size: nat, n: nat, all: Bodies, i: nat,
                  startPart: nat, startOffset: nat, endOffset: nat, p: nat)
    requires CopiesExist(starts, parts, server, size, n) && i <= n
    requires Scanned(starts, parts, server, size, n, all, i, true, startPart, startOffset, endOffset)
    ensures startOffset <= endOffset <= |server|
    ensures Scanned(starts, parts, server, size, n, all[startPart := server[startOffset..endOffset]], i, false,
                    p, startOffset, endOffset)
  {
    ConcatCopy(all, startPart, server[startOffset..endOffset], i);
  }

  lemma WithCopiesAppend(parts: Bodies, server: seq<byte>, ranges: seq<CopyRange>, r: CopyRange)
    requires InsideServer(server, ranges) && r.offset + r.size <= |server|
    ensures InsideServer(server, ranges + [r])
    ensures WithCopies(parts, server, ranges + [r]) ==
            WithCopies(parts, server, ranges)[r.part := server[r.offset..r.offset + r.size]]
  {
    assert (ranges + [r])[..|ranges|] == ranges;
  }

  /** The scan has passed part `i`: the ranges found so far, and a run of missing parts that may be open. */
  ghost predicate Collecting(starts: seq<nat>, parts: Bodies, server: seq<byte>, size: nat, n: nat, i: nat,
                             ranges: seq<CopyRange>, open: bool, p: nat, from: nat, end: nat)
  {
    && Boundaries(starts) && IsPartCount(starts, size, n) && i <= n
    && IsPlan(starts, parts, size, n, ranges) && AllBelow(ranges, if open then p else i)
    && (open ==> OpenRun(starts, parts, size, n, p, i, from, end))
    && (CopiesExist(starts, parts, server, size, n) ==>
          && InsideServer(server, ranges)
          && Scanned(starts, parts, server, size, n, WithCopies(parts, server, ranges), i, open, p, from, end))
  }

  lemma CollectStart(starts: seq<nat>, parts: Bodies, server: seq<byte>, size: nat, n: nat, p: nat, from: nat, end: nat)
    requires Boundaries(starts) && IsPartCount(starts, size, n)
    ensures Collecting(starts, parts, server, size, n, 0, [], false, p, from, end)
  {
  }

  lemma CollectMissing(starts: seq<nat>, parts: Bodies, server: seq<byte>, size: nat, n: nat, i: nat,
                       ranges: seq<CopyRange>, open: bool, p: nat, from: nat, end: nat)
    requires Collecting(starts, parts, server, size, n, i, ranges, open, p, from, end) && i < n && i !in parts
    ensures Collecting(starts, parts, server, size, n, i + 1, ranges, true,
                       if open then p else i, if open then from else starts[i], PartEnd(starts, i, size))
  {
    hide CopiesExist, Scanned, OpenRun, IsPlan, InsideServer, WithCopies, Boundaries, PartEnd;
    if open { RunGrows(starts, parts, size, n, p, i, from, end); } else { RunStarts(starts, parts, size, n, i); }
    if CopiesExist(starts, parts, server, size, n) {
      ScanMissing(starts, parts, server, size, n, WithCopies(parts, server, ranges), i, open, p, from, end);
    }
  }

  lemma CollectUploaded(starts: seq<nat>, parts: Bodies, server: seq<byte>, size: nat, n: nat, i: nat,
                        ranges: seq<CopyRange>, p: nat, from: nat, end: nat)
    requires Collecting(starts, parts, server, size, n, i, ranges, false, p, from, end) && i < n && i in parts
    ensures Collecting(starts, parts, server, size, n, i + 1, ranges, false, p, from, end)
  {
    hide CopiesExist, Scanned, OpenRun, IsPlan, InsideServer, WithCopies, Boundaries;
    if CopiesExist(starts, parts, server, size, n) {
      ScanUploaded(starts, parts, server, size, n, WithCopies(parts, server, ranges), i, p, from, end);
    }
  }

  /** The open run of missing parts becomes one copy. */
  lemma CollectRange(starts: seq<nat>, parts: Bodies, server: seq<byte>, size: nat, n: nat, i: nat,
                     ranges: seq<CopyRange>, p: nat, from: nat, end: nat, p': nat)
    requires Collecting(starts, parts, server, size, n, i, ranges, true, p, from, end)
    ensures from <= end
    ensures Collecting(starts, parts, server, size, n, i, ranges + [CopyRange(p, from, end - from)], false, p', from,
                       end)
  {
    hide CopiesExist, Scanned, OpenRun, IsPlan, AllBelow, InsideServer, WithCopies, Boundaries;
    CloseRun(starts, parts, size, n, ranges, p, i, from, end);
    if CopiesExist(starts, parts, server, size, n) {
      ScanClose(starts, parts, server, size, n, WithCopies(parts, server, ranges), i, p, from, end, p');
      WithCopiesAppend(parts, server, ranges, CopyRange(p, from, end - from));
    }
  }

  lemma CollectDone(starts: seq<nat>, parts: Bodies, server: seq<byte>, size: nat, n: nat, ranges: seq<CopyRange>,
                    p: nat, from: nat, end: nat)
    requires Collecting(starts, parts, server, size, n, n, ranges, false, p, from, end)
    ensures IsPlan(starts, parts, size, n, ranges)
    ensures CopiesExist(starts, parts, server, size, n) ==>
              && InsideServer(server, ranges)
              && Concat(WithCopies(parts, server, ranges), n) == Object(starts, parts, server, size, n, n)
  {
    hide CopiesExist, IsPlan, InsideServer, WithCopies, Concat, Object;
  }

  // ----- How far parts are merged -----

  /**
   The range ends with part `last`: it has at least `maxMerge` bytes, or no part without an id
   follows; and it had less before its last part.
   */
  ghost predicate EndsAt(starts: seq<nat>, parts: Bodies, size: nat, n: nat, maxMerge: nat, r: CopyRange, last: int)
  {
    && CopiesTo(starts, parts, size, n, r, last)
    && (r.size >= maxMerge || last + 1 == n || last + 1 in parts)
    && (last > r.part ==> PartEnd(starts, last - 1, size) < r.offset + maxMerge)
  }

  ghost predicate WellMerged(starts: seq<nat>, parts: Bodies, size: nat, n: nat, maxMerge: nat, r: CopyRange)
  {
    exists last: int :: EndsAt(starts, parts, size, n, maxMerge, r, last)
  }

  ghost predicate InCopy(ranges: seq<CopyRange>, x: nat)
  {
    exists j: int :: 0 <= j < |ranges| && ranges[j].offset <= x < ranges[j].offset + ranges[j].size
  }

  /** Every part below `i` without an id is in a range, and each range is merged as far as it should be. */
  ghost predicate MergedBelow(starts: seq<nat>, parts: Bodies, size: nat, n: nat, maxMerge: nat,
                              ranges: seq<CopyRange>, i: nat)
    requires i <= n < |starts|
  {
    && (forall j: int :: 0 <= j < |ranges| ==> WellMerged(starts, parts, size, n, maxMerge, ranges[j]))
    && forall p: int :: 0 <= p < i && p !in parts ==> InCopy(ranges, starts[p])
  }

  /** The scan has passed part `i`; the run open there had less than `maxMerge` bytes before its last part. */
  ghost predicate Merging(starts: seq<nat>, parts: Bodies, size: nat, n: nat, maxMerge: nat, ranges: seq<CopyRange>,
                          i: nat, open: bool, p: nat, from: nat, end: nat)
  {
    && Boundaries(starts) && IsPartCount(starts, size, n) && i <= n && (open ==> p < i)
    && MergedBelow(starts, parts, size, n, maxMerge, ranges, if open then p else i)
    && (open ==> OpenRun(starts, parts, size, n, p, i, from, end))
    && (open && i - 1 > p ==> PartEnd(starts, i - 2, size) < from + maxMerge)
  }

  lemma MergingStart(starts: seq<nat>, parts: Bodies, size: nat, n: nat, maxMerge: nat, p: nat, from: nat, end: nat)
    requires Boundaries(starts) && IsPartCount(starts, size, n)
    ensures Merging(starts, parts, size, n, maxMerge, [], 0, false, p, from, end)
  {
  }

  lemma MergingMissing(starts: seq<nat>, parts: Bodies, size: nat, n: nat, maxMerge: nat, ranges: seq<CopyRange>,
                       i: nat, open: bool, p: nat, from: nat, end: nat)
    requires Merging(starts, parts, size, n, maxMerge, ranges, i, open, p, from, end) && i < n && i !in parts
    requires open ==> end < from + maxMerge
    ensures Merging(starts, parts, size, n, maxMerge, ranges, i + 1, true,
                    if open then p else i, if open then from else starts[i], PartEnd(starts, i, size))
  {
    hide MergedBelow, Boundaries, PartEnd;
    if open { RunGrows(starts, parts, size, n, p, i, from, end); } else { RunStarts(starts, parts, size, n, i); }
  }

  lemma MergingUploaded(starts: seq<nat>, parts: Bodies, size: nat, n: nat, maxMerge: nat, ranges: seq<CopyRange>,
                        i: nat, p: nat, from: nat, end: nat)
    requires Merging(starts, parts, size, n, maxMerge, ranges, i, false, p, from, end) && i < n && i in parts
    ensures Merging(starts, parts, size, n, maxMerge, ranges, i + 1, false, p, from, end)
  {
    hide WellMerged, InCopy, Boundaries, PartEnd, OpenRun;
  }

  lemma MergingClose(starts: seq<nat>, parts: Bodies, size: nat, n: nat, maxMerge: nat, ranges: seq<CopyRange>,
                     i: nat, p: nat, from: nat, end: nat, p': nat)
    requires Merging(starts, parts, size, n, maxMerge, ranges, i, true, p, from, end)
    requires end >= from + maxMerge || i == n || i in parts
    ensures from <= end
    ensures Merging(starts, parts, size, n, maxMerge, ranges + [CopyRange(p, from, end - from)], i, false, p', from,
                    end)
  {
    hide Boundaries, PartEnd;
    var r := CopyRange(p, from, end - from);
    var more := ranges + [r];
    assert EndsAt(starts, parts, size, n, maxMerge, r, i - 1);
    forall j: int | 0 <= j < |more| ensures WellMerged(starts, parts, size, n, maxMerge, more[j]) {
      if j < |ranges| { assert more[j] == ranges[j]; }
    }
    forall q: int | 0 <= q < i && q !in parts ensures InCopy(more, starts[q]) {
      if q < p { InMore(ranges, r, starts[q]); } else {
        InRun(starts, parts, size, n, p, i, from, end, q);
        assert more[|ranges|] == r;
      }
    }
  }

  lemma InMore(ranges: seq<CopyRange>, r: CopyRange, x: nat)
    requires InCopy(ranges, x)
    ensures InCopy(ranges + [r], x)
  {
    var j: int :| 0 <= j < |ranges| && ranges[j].offset <= x < ranges[j].offset + ranges[j].size;
    assert (ranges + [r])[j] == ranges[j];
  }

  lemma InRun(starts: seq<nat>, parts: Bodies, size: nat, n: nat, p: nat, i: nat, from: nat, end: nat, q: int)
    requires Boundaries(starts) && IsPartCount(starts, size, n) && OpenRun(starts, parts, size, n, p, i, from, end)
    requires p <= q < i
    ensures from <= starts[q] < end
  {
    PartHasBytes(starts, size, n, i - 1);
  }

  lemma MergingDone(starts: seq<nat>, parts: Bodies, size: nat, n: nat, maxMerge: nat, ranges: seq<CopyRange>,
                    p: nat, from: nat, end: nat)
    requires Merging(starts, parts, size, n, maxMerge, ranges, n, false, p, from, end)
    ensures MergedBelow(starts, parts, size, n, maxMerge, ranges, n)
  {
    hide MergedBelow;
  }

  /**
   Collects the ranges of unmodified parts, merging neighbours just until a range reaches `maxMerge`
   bytes. If the old object has them, the copies and the uploaded parts make the same object
   as copying each part by itself.
   */
  method CollectRanges(starts: seq<nat>, parts: Bodies, size: nat, n: nat, maxMerge: nat, ghost server: seq<byte>)
    returns (ranges: seq<CopyRange>)
    requires Boundaries(starts) && IsPartCount(starts, size, n)
    ensures CopiesExist(starts, parts, server, size, n) ==>
              && InsideServer(server, ranges)
              && Concat(WithCopies(parts, server, ranges), n) == Object(starts, parts, server, size, n, n)
    ensures IsPlan(starts, parts, size, n, ranges) && (maxMerge == 0 ==> Unmerged(starts, size, n, ranges))
    ensures MergedBelow(starts, parts, size, n, maxMerge, ranges, n)
  {
    hide Collecting, Merging, MergedBelow, CopiesExist, Object, Concat, WithCopies, Boundaries, InsideServer, IsPlan;
    ranges := [];
    var startPart: nat, endPart: nat, startOffset: nat, endOffset: nat := 0, 0, 0, 0;
    CollectStart(starts, parts, server, size, n, startPart, startOffset, endOffset);
    MergingStart(starts, parts, size, n, maxMerge, startPart, startOffset, endOffset);
    for i := 0 to n
      invariant Collecting(starts, parts, server, size, n, i, ranges, endPart != 0, startPart, startOffset, endOffset)
      invariant Merging(starts, parts, size, n, maxMerge, ranges, i, endPart != 0, startPart, startOffset, endOffset)
      invariant endPart != 0 ==> endOffset < startOffset + maxMerge
      invariant maxMerge == 0 ==> endPart == 0 && Unmerged(starts, size, n, ranges)
    {
      var partOffset, partEnd := starts[i], PartEnd(starts, i, size);
      PartHasBytes(starts, size, n, i);
      if i !in parts {
        CollectMissing(starts, parts, server, size, n, i, ranges, endPart != 0, startPart, startOffset, endOffset);
        MergingMissing(starts, parts, size, n, maxMerge, ranges, i, endPart != 0, startPart, startOffset, endOffset);
        if endPart == 0 {
          startPart, startOffset := i, partOffset;
        }
        endPart, endOffset := i + 1, partEnd;
        if endOffset - startOffset >= maxMerge {
          CollectRange(starts, parts, server, size, n, i + 1, ranges, startPart, startOffset, endOffset, 0);
          MergingClose(starts, parts, size, n, maxMerge, ranges, i + 1, startPart, startOffset, endOffset, 0);
          ranges := ranges + [CopyRange(startPart, startOffset, endOffset - startOffset)];
          startPart, endPart := 0, 0;
        }
      } else {
        if endPart != 0 {
          CollectRange(starts, parts, server, size, n, i, ranges, startPart, startOffset, endOffset, startPart);
          MergingClose(starts, parts, size, n, maxMerge, ranges, i, startPart, startOffset, endOffset, startPart);
          ranges := ranges + [CopyRange(startPart, startOffset, endOffset - startOffset)];
          endPart := 0;
        }
        CollectUploaded(starts, parts, server, size, n, i, ranges, startPart, startOffset, endOffset);
        MergingUploaded(starts, parts, size, n, maxMerge, ranges, i, startPart, startOffset, endOffset);
      }
    }
    if endPart != 0 {
      CollectRange(starts, parts, server, size, n, n, ranges, startPart, startOffset, endOffset, startPart);
      MergingClose(starts, parts, size, n, maxMerge, ranges, n, startPart, startOffset, endOffset, startPart);
      ranges := ranges + [CopyRange(startPart, startOffset, endOffset - startOffset)];
    }
    CollectDone(starts, parts, server, size, n, ranges, startPart, startOffset, endOffset);
    MergingDone(starts, parts, size, n, maxMerge, ranges, startPart, startOffset, endOffset);
  }

  lemma CloseRun(starts: seq<nat>, parts: Bodies, size: nat, n: nat, ranges: seq<CopyRange>, p: nat, i: nat,
                 from: nat, end: nat)
    requires IsPlan(starts, parts, size, n, ranges) && AllBelow(ranges, p)
    requires OpenRun(starts, parts, size, n, p, i, from, end)
    ensures from <= end
    ensures var more := ranges + [CopyRange(p, from, end - from)];
            IsPlan(starts, parts, size, n, more) && AllBelow(more, i)
  {
    hide CopiesTo, IsPlan, AllBelow;
    PlanNext(starts, parts, size, n, ranges, CopyRange(p, from, end - from), i - 1);
  }

  /** The commit request lists the parts that have an id, in order; the store concatenates them. */
  method MultipartBlobCommit(parts: Bodies, numParts: nat) returns (numbers: seq<nat>, ghost stored: seq<byte>)
    ensures stored == Concat(parts, numParts)
    ensures forall p: nat :: p in numbers <==> p < numParts && p in parts
    ensures forall i: int, j: int :: 0 <= i < j < |numbers| ==> numbers[i] < numbers[j]
  {
    numbers, stored := [], [];
    for i := 0 to numParts
      invariant stored == Concat(parts, i) && (forall p: nat :: p in numbers <==> p < i && p in parts)
      invariant forall j: int, k: int :: 0 <= j < k < |numbers| ==> numbers[j] < numbers[k]
    {
      if i in parts {
        assert forall j: int :: 0 <= j < |numbers| ==> numbers[j] in numbers;
        numbers, stored := numbers + [i], stored + parts[i];
      }
    }
  }

  // ----- Copies that stay in the upload when a commit fails -----

  /** The copy takes in more than one part. */
  ghost predicate IsMerged(starts: seq<nat>, r: CopyRange)
  {
    r.part + 1 < |starts| && starts[r.part + 1] < r.offset + r.size
  }

  lemma {:induction false} NotCopied(parts: Bodies, server: seq<byte>, ranges: seq<CopyRange>, p: int)
    requires InsideServer(server, ranges) && forall i: int :: 0 <= i < |ranges| ==> ranges[i].part != p
    ensures var left := WithCopies(parts, server, ranges);
            (p in left <==> p in parts) && (p in left ==> left[p] == parts[p])
  {
    if ranges != [] { NotCopied(parts, server, ranges[..|ranges| - 1], p); }
  }

  lemma {:induction false} CopiedBody(parts: Bodies, server: seq<byte>, ranges: seq<CopyRange>, i: int)
    requires InsideServer(server, ranges) && 0 <= i < |ranges|
    requires forall j: int, k: int :: 0 <= j < k < |ranges| ==> ranges[j].part != ranges[k].part
    ensures var r, left := ranges[i], WithCopies(parts, server, ranges);
            r.part in left && left[r.part] == server[r.offset..r.offset + r.size]
  {
    if i < |ranges| - 1 { CopiedBody(parts, server, ranges[..|ranges| - 1], i); }
  }

  /** Part `p` was swallowed up with others by a copy stored under its number, and not uploaded since. */
  ghost predicate LeftMerged(starts: seq<nat>, ranges: seq<CopyRange>, more: Bodies, p: int)
  {
    p !in more && exists i: int :: 0 <= i < |ranges| && ranges[i].part == p && IsMerged(starts, ranges[i])
  }

  lemma LeftCopiesExist(starts: seq<nat>, parts: Bodies, more: Bodies, server: seq<byte>, size: nat, n: nat,
                        ranges: seq<CopyRange>)
    requires CopiesExist(starts, parts + more, server, size, n) && InsideServer(server, ranges)
    requires IsPlan(starts, parts, size, n, ranges)
    ensures CopiesExist(starts, WithCopies(parts, server, ranges) + more, server, size, n)
  {
    hide IsCopy, Boundaries, IsPartCount, WithCopies;
    var left := WithCopies(parts, server, ranges);
    forall p: int | 0 <= p < n && p !in left + more ensures p !in parts + more {
      forall i: int | 0 <= i < |ranges| ensures ranges[i].part != p { CopiedBody(parts, server, ranges, i); }
      NotCopied(parts, server, ranges, p);
    }
  }

  /** What a part holds on a retry: the same, or more if a merged copy is left under its number. */
  lemma LeftContent(starts: seq<nat>, parts: Bodies, more: Bodies, server: seq<byte>, size: nat, n: nat,
                    ranges: seq<CopyRange>, left: Bodies, p: nat)
    requires CopiesExist(starts, parts + more, server, size, n) && CopiesExist(starts, left + more, server, size, n)
    requires InsideServer(server, ranges) && IsPlan(starts, parts, size, n, ranges) && p < n
    requires left == WithCopies(parts, server, ranges)
    ensures var was := PartContent(starts, parts + more, server, size, n, p);
            var now := PartContent(starts, left + more, server, size, n, p);
            if LeftMerged(starts, ranges, more, p) then |now| > |was| else now == was
  {
    hide WithCopies, IsCopy, Boundaries;
    if p in more {
    } else if i: int :| 0 <= i < |ranges| && ranges[i].part == p {
      CopiedBody(parts, server, ranges, i);
      CopyLength(starts, parts, server, size, n, ranges[i]);
      assert forall j: int :: 0 <= j < |ranges| && ranges[j].part == p ==> j == i;
      SameLackingPart(starts, parts + more, server, size, n, p);
    } else {
      NotCopied(parts, server, ranges, p);
    }
  }

  lemma SameLackingPart(starts: seq<nat>, parts: Bodies, server: seq<byte>, size: nat, n: nat, p: nat)
    requires CopiesExist(starts, parts, server, size, n) && p < n
    ensures starts[p] <= PartEnd(starts, p, size)
    ensures p !in parts ==> PartEnd(starts, p, size) <= |server|
  {
    PartHasBytes(starts, size, n, p);
  }

  /** A copy holds its first part, and more exactly if it is merged. */
  lemma CopyLength(starts: seq<nat>, parts: Bodies, server: seq<byte>, size: nat, n: nat, r: CopyRange)
    requires IsCopy(starts, parts, size, n, r) && Boundaries(starts) && IsPartCount(starts, size, n)
    ensures r.part < n < |starts| && r.part !in parts && starts[r.part] == r.offset
    ensures if IsMerged(starts, r) then PartEnd(starts, r.part, size) < r.offset + r.size
            else PartEnd(starts, r.part, size) == r.offset + r.size
  {
    var last: int :| CopiesTo(starts, parts, size, n, r, last);
    PartHasBytes(starts, size, n, last);
    PartHasBytes(starts, size, n, r.part);
    assert last > r.part ==> starts[r.part + 1] <= starts[last];
  }

  ghost predicate NoneLeft(starts: seq<nat>, ranges: seq<CopyRange>, more: Bodies, k: nat)
  {
    forall p: int :: 0 <= p < k ==> !LeftMerged(starts, ranges, more, p)
  }

  lemma {:induction false} LeftObject(starts: seq<nat>, parts: Bodies, more: Bodies, server: seq<byte>, size: nat,
                                      n: nat, ranges: seq<CopyRange>, left: Bodies, k: nat)
    requires CopiesExist(starts, parts + more, server, size, n) && CopiesExist(starts, left + more, server, size, n)
    requires InsideServer(server, ranges) && IsPlan(starts, parts, size, n, ranges) && k <= n
    requires left == WithCopies(parts, server, ranges)
    ensures var was := Object(starts, parts + more, server, size, n, k);
            var now := Object(starts, left + more, server, size, n, k);
            && |now| >= |was| && (|now| == |was| <==> NoneLeft(starts, ranges, more, k))
            && (NoneLeft(starts, ranges, more, k) ==> now == was)
  {
    hide CopiesExist, InsideServer, IsPlan, WithCopies, PartContent, LeftMerged;
    if k > 0 {
      LeftObject(starts, parts, more, server, size, n, ranges, left, k - 1);
      LeftContent(starts, parts, more, server, size, n, ranges, left, k - 1);
      assert NoneLeft(starts, ranges, more, k) <==>
             NoneLeft(starts, ranges, more, k - 1) && !LeftMerged(starts, ranges, more, k - 1);
    }
  }

  /** Every merged copy was replaced by an upload of the part it is stored under. */
  ghost predicate MergedReplaced(starts: seq<nat>, ranges: seq<CopyRange>, more: Bodies)
  {
    forall i: int :: 0 <= i < |ranges| && IsMerged(starts, ranges[i]) ==> ranges[i].part in more
  }

  /**
   A commit failed, the copies stayed, and the parts of `more` were uploaded since. Completing
   again copies every part that has no id. The object is the one that the uploads alone would
   have made exactly when every merged copy was replaced.
   */
  lemma RetryAfterCopies(starts: seq<nat>, parts: Bodies, more: Bodies, server: seq<byte>, size: nat, n: nat,
                         ranges: seq<CopyRange>)
    requires CopiesExist(starts, parts + more, server, size, n) && InsideServer(server, ranges)
    requires IsPlan(starts, parts, size, n, ranges)
    ensures var left := WithCopies(parts, server, ranges);
            && CopiesExist(starts, left + more, server, size, n)
            && (Object(starts, left + more, server, size, n, n) == Object(starts, parts + more, server, size, n, n) <==>
                MergedReplaced(starts, ranges, more))
  {
    hide CopiesExist, Object, WithCopies, InsideServer;
    LeftCopiesExist(starts, parts, more, server, size, n, ranges);
    LeftObject(starts, parts, more, server, size, n, ranges, WithCopies(parts, server, ranges), n);
    ReplacedIsNoneLeft(starts, parts, size, n, ranges, more);
  }

  lemma ReplacedIsNoneLeft(starts: seq<nat>, parts: Bodies, size: nat, n: nat, ranges: seq<CopyRange>, more: Bodies)
    requires IsPlan(starts, parts, size, n, ranges)
    ensures NoneLeft(starts, ranges, more, n) <==> MergedReplaced(starts, ranges, more)
  {
    hide IsMerged;
    forall i: int | 0 <= i < |ranges| ensures ranges[i].part < n {
      assert IsCopy(starts, parts, size, n, ranges[i]);
    }
    if NoneLeft(starts, ranges, more, n) {
      forall i: int | 0 <= i < |ranges| && IsMerged(starts, ranges[i]) ensures ranges[i].part in more {
        assert !LeftMerged(starts, ranges, more, ranges[i].part);
      }
    }
  }

  // ----- What the source does not promise -----

  /** Parts 1 and 2 of [1, 2, 3] were copied together; a plain retry copies part 2 once more. */
  lemma PlainRetry()
    ensures var starts, server: seq<byte>, parts: Bodies := [0, 1, 2, 3], [1, 2, 3], map[0 := [9]];
            var ranges := [CopyRange(1, 1, 2)];
            && CopiesExist(starts, parts, server, 3, 3) && InsideServer(server, ranges)
            && IsPlan(starts, parts, 3, 3, ranges)
            && var left := WithCopies(parts, server, ranges);
            && CopiesExist(starts, left, server, 3, 3)
            && Object(starts, parts, server, 3, 3, 3) == [9, 2, 3]
            && Object(starts, left, server, 3, 3, 3) == [9, 2, 3, 3]
  {
    hide Object;
    var starts, server: seq<byte>, parts: Bodies := [0, 1, 2, 3], [1, 2, 3], map[0 := [9]];
    var r := CopyRange(1, 1, 2);
    assert CopiesTo(starts, parts, 3, 3, r, 2);
    assert IsCopy(starts, parts, 3, 3, r);
    OneCopy(parts, server, r);
    var left := parts[1 := server[1..3]];
    ThreeParts(starts, parts, server, 3);
    ThreeParts(starts, left, server, 3);
  }

  lemma ThreeParts(starts: seq<nat>, parts: Bodies, server: seq<byte>, size: nat)
    requires CopiesExist(starts, parts, server, size, 3)
    ensures Object(starts, parts, server, size, 3, 3) ==
            PartContent(starts, parts, server, size, 3, 0) + PartContent(starts, parts, server, size, 3, 1) +
            PartContent(starts, parts, server, size, 3, 2)
  {
    hide CopiesExist, PartContent;
    assert Object(starts, parts, server, size, 3, 0) == [];
    assert Object(starts, parts, server, size, 3, 1) == PartContent(starts, parts, server, size, 3, 0);
    assert Object(starts, parts, server, size, 3, 2) ==
           Object(starts, parts, server, size, 3, 1) + PartContent(starts, parts, server, size, 3, 1);
  }

  lemma OneCopy(parts: Bodies, server: seq<byte>, r: CopyRange)
    requires r.offset + r.size <= |server|
    ensures InsideServer(server, [r])
    ensures WithCopies(parts, server, [r]) == parts[r.part := server[r.offset..r.offset + r.size]]
  {
    var none: seq<CopyRange> := [];
    WithCopiesAppend(parts, server, none, r);
    assert none + [r] == [r];
  }

  /** A part was sent whole, its end written again and then cut off: the object keeps the old end. */
  lemma CutUploadedPart()
    ensures var starts, parts: Bodies, server: seq<byte> := [0, 4], map[0 := [1, 2, 3, 4]], [];
            && PartsReach(starts, parts, 4) && CopiesExist(starts, parts, server, 2, 1)
            && |Object(starts, parts, server, 2, 1, 1)| == 4
  {
    var starts, parts: Bodies, server: seq<byte> := [0, 4], map[0 := [1, 2, 3, 4]], [];
    assert Object(starts, parts, server, 2, 1, 1) == Object(starts, parts, server, 2, 1, 0) + parts[0];
  }

  /** An uploaded last part that the file outgrew before the final size was taken leaves the object short. */
  lemma ShortLastPart()
    ensures var starts, parts: Bodies, server: seq<byte> := [0, 4], map[0 := [1, 2]], [];
            && CopiesExist(starts, parts, server, 3, 1) && PartsReach(starts, parts, 2)
            && |Object(starts, parts, server, 3, 1, 1)| == 2
  {
    var starts, parts: Bodies, server: seq<byte> := [0, 4], map[0 := [1, 2]], [];
    assert Object(starts, parts, server, 3, 1, 1) == Object(starts, parts, server, 3, 1, 0) + parts[0];
  }

  /** A file that grows by a part before its final size is taken asks for a copy the old object does not have. */
  lemma LateGrowth()
    ensures var starts, server: seq<byte> := [0, 4, 8], [1, 2, 3, 4];
            CopiesExist(starts, map[], server, 4, 1) && !CopiesExist(starts, map[], server, 6, 2)
  {
    var starts := [0, 4, 8];
    assert PartEnd(starts, 1, 6) == 6;
  }

  /** The same copy, and part 2 became 7 before the retry: the old part 2 is still there. */
  lemma MergedCopyOverlaps()
    ensures var starts, server: seq<byte>, parts: Bodies := [0, 1, 2, 3], [1, 2, 3], map[0 := [9]];
            var ranges, more: Bodies := [CopyRange(1, 1, 2)], map[2 := [7]];
            && CopiesExist(starts, parts + more, server, 3, 3) && InsideServer(server, ranges)
            && IsPlan(starts, parts, 3, 3, ranges) && !MergedReplaced(starts, ranges, more)
            && var left := WithCopies(parts, server, ranges) + more;
            CopiesExist(starts, left, server, 3, 3) && Object(starts, left, server, 3, 3, 3) == [9, 2, 3, 7]
  {
    hide Object;
    var starts, server: seq<byte>, parts: Bodies := [0, 1, 2, 3], [1, 2, 3], map[0 := [9]];
    var r, more: Bodies := CopyRange(1, 1, 2), map[2 := [7]];
    assert CopiesTo(starts, parts, 3, 3, r, 2);
    assert IsCopy(starts, parts, 3, 3, r);
    OneCopy(parts, server, r);
    assert [r][0] == r && IsMerged(starts, r);
    var left := parts[1 := server[1..3]] + more;
    ThreeParts(starts, left, server, 3);
  }
}
