/**
 Part arithmetic. A file is cut into parts by tiers of equal sizes: first `count` parts of
 `size` bytes, then the next tier. `starts` lists the offset of every part and, last, the
 maximum file size.
 */
module PartSizes {

  datatype PartSize = PartSize(size: nat, count: nat)

  datatype Result<+T> = Ok(value: T) | Panic

  ghost predicate Positive(sizes: seq<PartSize>)
  {
    forall i: int :: 0 <= i < |sizes| ==> sizes[i].size > 0
  }

  function Parts(sizes: seq<PartSize>): nat
  {
    if sizes == [] then 0 else Parts(sizes[..|sizes| - 1]) + sizes[|sizes| - 1].count
  }

  function Bytes(sizes: seq<PartSize>): nat
  {
    if sizes == [] then 0 else Bytes(sizes[..|sizes| - 1]) + sizes[|sizes| - 1].size * sizes[|sizes| - 1].count
  }

  /** The offset at which part `n` starts. */
  function StartOf(sizes: seq<PartSize>, n: nat): nat
  {
    if sizes == [] then 0
    else
      var init, last := sizes[..|sizes| - 1], sizes[|sizes| - 1];
      if n <= Parts(init) then StartOf(init, n) else Bytes(init) + (n - Parts(init)) * last.size
  }

  /** The last boundary is the maximum file size, and boundaries strictly increase. */
  lemma {:induction false} StartOfEnd(sizes: seq<PartSize>)
    ensures StartOf(sizes, Parts(sizes)) == Bytes(sizes)
  {
    if sizes != [] { StartOfEnd(sizes[..|sizes| - 1]); }
  }

  lemma {:induction false} StartOfStep(sizes: seq<PartSize>, n: nat)
    requires Positive(sizes) && n < Parts(sizes)
    ensures StartOf(sizes, n) < StartOf(sizes, n + 1)
  {
    var init, last := sizes[..|sizes| - 1], sizes[|sizes| - 1];
    if n < Parts(init) {
      StartOfStep(init, n);
    } else {
      StartOfEnd(init);
      assert (n + 1 - Parts(init)) * last.size == (n - Parts(init)) * last.size + last.size;
    }
  }

  lemma {:induction false} StartOfMonotone(sizes: seq<PartSize>, a: nat, b: nat)
    requires Positive(sizes) && a < b <= Parts(sizes)
    ensures StartOf(sizes, a) < StartOf(sizes, b)
    decreases b - a
  {
    StartOfStep(sizes, b - 1);
    if a < b - 1 { StartOfMonotone(sizes, a, b - 1); }
  }

  /** Where part `n` of a longer list starts, seen from a prefix of its tiers. */
  lemma {:induction false} StartOfPrefix(sizes: seq<PartSize>, i: nat, n: nat)
    requires i <= |sizes|
    ensures Parts(sizes[..i]) <= Parts(sizes) && Bytes(sizes[..i]) <= Bytes(sizes)
    ensures n <= Parts(sizes[..i]) ==> StartOf(sizes, n) == StartOf(sizes[..i], n)
    decreases |sizes|
  {
    if i < |sizes| {
      var init := sizes[..|sizes| - 1];
      assert init[..i] == sizes[..i];
      StartOfPrefix(init, i, n);
    } else {
      assert sizes[..i] == sizes;
    }
  }

  /** Inside tier `i`, parts follow each other every `size` bytes. */
  lemma StartOfTier(sizes: seq<PartSize>, i: nat, k: nat)
    requires i < |sizes| && k <= sizes[i].count
    ensures Parts(sizes[..i]) + sizes[i].count == Parts(sizes[..i + 1]) <= Parts(sizes)
    ensures Bytes(sizes[..i]) + sizes[i].size * sizes[i].count == Bytes(sizes[..i + 1])
    ensures StartOf(sizes, Parts(sizes[..i]) + k) == Bytes(sizes[..i]) + k * sizes[i].size
  {
    var t := sizes[..i + 1];
    assert t[..i] == sizes[..i] && t[i] == sizes[i];
    StartOfPrefix(sizes, i + 1, Parts(sizes[..i]) + k);
    if k == 0 { StartOfEnd(sizes[..i]); }
  }

  // ----- The source's loops -----

  method MaxParts(sizes: seq<PartSize>) returns (parts: nat)
    ensures parts == Parts(sizes)
  {
    parts := 0;
    for i := 0 to |sizes|
      invariant parts == Parts(sizes[..i])
    {
      parts := parts + sizes[i].count;
      assert sizes[..i + 1][..i] == sizes[..i];
    }
    assert sizes[..|sizes|] == sizes;
  }

  method GetMaxFileSize(sizes: seq<PartSize>) returns (size: nat)
    ensures size == Bytes(sizes)
  {
    size := 0;
    for i := 0 to |sizes|
      invariant size == Bytes(sizes[..i])
    {
      size := size + sizes[i].size * sizes[i].count;
      assert sizes[..i + 1][..i] == sizes[..i];
    }
    assert sizes[..|sizes|] == sizes;
  }

  lemma Quotient(a: nat, b: nat)
    requires b > 0
    ensures (a / b) * b <= a < (a / b + 1) * b
  {
    assert a == (a / b) * b + a % b;
  }

  lemma Scale(p: nat, q: nat, size: nat)
    requires p <= q
    ensures p * size <= q * size
  {
  }

  /** What the division tells in tier `i`: the part is here, or the tier ends at or before `offset`. */
  lemma TierOf(sizes: seq<PartSize>, i: nat, offset: nat, p: nat)
    requires Positive(sizes) && i < |sizes| && Bytes(sizes[..i]) <= offset
    requires p == (offset - Bytes(sizes[..i])) / sizes[i].size
    ensures p < sizes[i].count ==>
              && Parts(sizes[..i]) + p < Parts(sizes) && offset < Bytes(sizes)
              && StartOf(sizes, Parts(sizes[..i]) + p) <= offset < StartOf(sizes, Parts(sizes[..i]) + p + 1)
    ensures p >= sizes[i].count ==> Bytes(sizes[..i + 1]) <= offset
    ensures Parts(sizes[..i + 1]) == Parts(sizes[..i]) + sizes[i].count
    ensures Bytes(sizes[..i + 1]) == Bytes(sizes[..i]) + sizes[i].size * sizes[i].count
  {
    var s, d := sizes[i], offset - Bytes(sizes[..i]);
    Quotient(d, s.size);
    StartOfTier(sizes, i, 0);
    if p < s.count {
      StartOfTier(sizes, i, p);
      StartOfTier(sizes, i, p + 1);
      StartOfPrefix(sizes, i + 1, 0);
      Scale(p + 1, s.count, s.size);
    } else {
      Scale(s.count, p, s.size);
    }
  }

  /** The part that holds `offset`; the end of the last part counts as one more part. */
  method PartNum(sizes: seq<PartSize>, offset: nat) returns (r: Result<nat>)
    requires Positive(sizes)
    ensures r.Ok? <==> offset <= Bytes(sizes)
    ensures offset < Bytes(sizes) ==> Contains(sizes, r.value, offset)
    ensures offset == Bytes(sizes) ==> r.value == Parts(sizes)
  {
    hide StartOf, Parts, Bytes;
    var n, start := 0, 0;
    EmptyPrefix(sizes);
    for i := 0 to |sizes|
      invariant n == Parts(sizes[..i]) && start == Bytes(sizes[..i]) <= offset
    {
      var p := (offset - start) / sizes[i].size;
      TierOf(sizes, i, offset, p);
      if p < sizes[i].count {
        return Ok(n + p);
      }
      start := start + sizes[i].size * sizes[i].count;
      n := n + sizes[i].count;
    }
    assert sizes[..|sizes|] == sizes;
    if offset == start {
      // The source allows the end offset, to turn a size into a part count.
      return Ok(n);
    }
    return Panic;
  }

  lemma EmptyPrefix(sizes: seq<PartSize>)
    ensures Parts(sizes[..0]) == 0 && Bytes(sizes[..0]) == 0
  {
  }

  method PartRange(sizes: seq<PartSize>, num: nat) returns (r: Result<(nat, nat)>)
    ensures r.Ok? <==> num < Parts(sizes)
    ensures r.Ok? ==> r.value.0 == StartOf(sizes, num) && r.value.0 + r.value.1 == StartOf(sizes, num + 1)
  {
    hide StartOf, Parts, Bytes;
    var n, start := 0, 0;
    EmptyPrefix(sizes);
    for i := 0 to |sizes|
      invariant n == Parts(sizes[..i]) <= num && start == Bytes(sizes[..i])
    {
      var s := sizes[i];
      StartOfTier(sizes, i, 0);
      if num < n + s.count {
        StartOfTier(sizes, i, num - n);
        StartOfTier(sizes, i, num - n + 1);
        return Ok((start + (num - n) * s.size, s.size));
      }
      start := start + s.size * s.count;
      n := n + s.count;
    }
    assert sizes[..|sizes|] == sizes;
    return Panic;
  }

  /** The number of leading parts needed to hold `size` bytes. */
  method NumParts(sizes: seq<PartSize>, size: nat) returns (r: Result<nat>)
    requires Positive(sizes)
    ensures r.Ok? <==> size <= Bytes(sizes)
    ensures r.Ok? ==> r.value <= Parts(sizes) && size <= StartOf(sizes, r.value)
    ensures r.Ok? ==> forall n: nat :: n < r.value ==> StartOf(sizes, n) < size
  {
    hide StartOf, Parts, Bytes;
    var part := PartNum(sizes, size);
    if part.Panic? {
      return Panic;
    }
    StartOfEnd(sizes);
    var maxParts := MaxParts(sizes);
    if part.value == maxParts {
      if maxParts > 0 { StartOfStep(sizes, maxParts - 1); }
      LeastParts(sizes, part.value, size);
      return part;
    }
    var range := PartRange(sizes, part.value);
    var count := part.value;
    if range.value.0 < size {
      count := count + 1;
    } else if count > 0 {
      StartOfStep(sizes, count - 1);
    }
    LeastParts(sizes, count, size);
    return Ok(count);
  }

  lemma LeastParts(sizes: seq<PartSize>, count: nat, size: nat)
    requires Positive(sizes) && count <= Parts(sizes) && (count > 0 ==> StartOf(sizes, count - 1) < size)
    ensures forall n: nat :: n < count ==> StartOf(sizes, n) < size
  {
    forall n: nat | n < count ensures StartOf(sizes, n) < size {
      if n < count - 1 { StartOfMonotone(sizes, n, count - 1); }
    }
  }

  /** Offset `x` lies in part `n`. */
  predicate Contains(sizes: seq<PartSize>, n: nat, x: nat)
  {
    n < Parts(sizes) && StartOf(sizes, n) <= x < StartOf(sizes, n + 1)
  }

  /** Part numbers follow offsets. */
  lemma PartNumMonotone(sizes: seq<PartSize>, a: nat, x: nat, b: nat, y: nat)
    requires Positive(sizes) && Contains(sizes, a, x) && Contains(sizes, b, y) && x <= y
    ensures a <= b
  {
    if b + 1 < a { StartOfMonotone(sizes, b + 1, a); }
  }

  /** Parts do not overlap, so the part number of any offset of part `n` is `n`. */
  lemma PartNumInvertsPartRange(sizes: seq<PartSize>, n: nat, x: nat, m: nat)
    requires Positive(sizes) && Contains(sizes, n, x) && Contains(sizes, m, x)
    ensures m == n
  {
    PartNumMonotone(sizes, n, x, m, x);
    PartNumMonotone(sizes, m, x, n, x);
  }

  // ----- The same boundaries as a list -----

  ghost predicate Boundaries(starts: seq<nat>)
  {
    && |starts| > 0 && starts[0] == 0
    && forall i: int, j: int :: 0 <= i < j < |starts| ==> starts[i] < starts[j]
  }

  function Starts(sizes: seq<PartSize>): (r: seq<nat>)
    ensures |r| == Parts(sizes) + 1
  {
    seq(Parts(sizes) + 1, n requires n >= 0 => StartOf(sizes, n))
  }

  lemma StartsAreBoundaries(sizes: seq<PartSize>)
    requires Positive(sizes)
    ensures Boundaries(Starts(sizes)) && MaxSize(Starts(sizes)) == Bytes(sizes)
  {
    StartOfPrefix(sizes, 0, 0);
    StartOfEnd(sizes);
    forall i: int, j: int | 0 <= i < j <= Parts(sizes) ensures StartOf(sizes, i) < StartOf(sizes, j) {
      StartOfMonotone(sizes, i, j);
    }
  }

  function MaxSize(starts: seq<nat>): nat
    requires |starts| > 0
  {
    starts[|starts| - 1]
  }

  /** `n` is the least number of parts that hold `size` bytes. */
  ghost predicate IsPartCount(starts: seq<nat>, size: nat, n: nat)
  {
    n < |starts| && size <= starts[n] && (n > 0 ==> starts[n - 1] < size)
  }

  predicate InPart(starts: seq<nat>, p: int, x: int)
  {
    0 <= p < |starts| - 1 && starts[p] <= x < starts[p + 1]
  }

  /** The part that holds offset `x`. */
  function PartOf(starts: seq<nat>, x: int): int
    requires |starts| > 0
    decreases |starts|
  {
    if |starts| == 1 then -1
    else if starts[|starts| - 2] <= x then |starts| - 2
    else PartOf(starts[..|starts| - 1], x)
  }

  lemma {:induction false} PartOfIs(starts: seq<nat>, p: int, x: int)
    requires Boundaries(starts)
    ensures 0 <= x < MaxSize(starts) ==> InPart(starts, PartOf(starts, x), x)
    ensures InPart(starts, p, x) ==> PartOf(starts, x) == p
    decreases |starts|
  {
    if |starts| > 1 && x < starts[|starts| - 2] {
      PartOfIs(starts[..|starts| - 1], p, x);
    }
  }

  /** The part number of any offset; offsets past the maximum share one more part. */
  function PartAt(starts: seq<nat>, x: nat): nat
  {
    if |starts| == 0 then 0
    else if x < MaxSize(starts) && PartOf(starts, x) >= 0 then PartOf(starts, x)
    else |starts| - 1
  }

  /** Parts are numbered in the order of offsets, and no part is skipped. */
  lemma PartAtOrder(starts: seq<nat>, x: nat, y: nat)
    requires Boundaries(starts) && x <= y
    ensures PartAt(starts, x) <= PartAt(starts, y) && PartAt(starts, x + 1) <= PartAt(starts, x) + 1
    ensures x < MaxSize(starts) ==> PartAt(starts, x) == PartOf(starts, x)
  {
    hide PartOf;
    PartOfIs(starts, 0, x);
    PartOfIs(starts, 0, y);
    var p := PartAt(starts, x);
    if p < |starts| - 2 { PartOfIs(starts, p + 1, x + 1); }
    PartOfIs(starts, p, x + 1);
  }
}
