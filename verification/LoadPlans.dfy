/**
 Which ranges to ask the server for: missing ranges are stretched by readahead, merged when
 close, and cut into requests of bounded size.
 */
module LoadPlans {
  import opened Options
  import opened FileBuffers
  import opened BufferChanges
  import opened BufferReads

  /** One of the ranges contains all of `r`. */
  ghost predicate Inside(r: Range, rr: seq<Range>)
  {
    exists k: int :: 0 <= k < |rr| && rr[k].start <= r.start && r.end <= rr[k].end
  }

  ghost predicate AllInside(holes: seq<Range>, rr: seq<Range>)
  {
    forall j: int :: 0 <= j < |holes| ==> Inside(holes[j], rr)
  }

  /** More than `merge` bytes lie between any range and the next. */
  ghost predicate Apart(rr: seq<Range>, merge: nat)
  {
    forall i: int, j: int :: 0 <= i < j < |rr| ==> rr[i].end + merge < rr[j].start
  }

  /** The range asks for nothing but one run of `holes`, stretched to at most `ahead` bytes. */
  ghost predicate Justified(r: Range, holes: seq<Range>, ahead: nat)
  {
    && (exists j: int :: 0 <= j < |holes| && r.start == holes[j].start)
    && (exists j: int ::
          0 <= j < |holes| && r.start <= holes[j].start && (r.end == holes[j].end || r.end == r.start + ahead))
  }

  ghost predicate AllJustified(rr: seq<Range>, holes: seq<Range>, ahead: nat)
  {
    forall k: int :: 0 <= k < |rr| ==> rr[k].start < rr[k].end && Justified(rr[k], holes, ahead)
  }

  ghost predicate Merged(holes: seq<Range>, rr: seq<Range>, ahead: nat, merge: nat)
  {
    AllInside(holes, rr) && Apart(rr, merge) && AllJustified(rr, holes, ahead)
  }

  lemma JustifiedMore(r: Range, holes: seq<Range>, h: Range, ahead: nat)
    requires Justified(r, holes, ahead)
    ensures Justified(r, holes + [h], ahead)
  {
    var more := holes + [h];
    var i: int :| 0 <= i < |holes| && r.start == holes[i].start;
    var j: int :| 0 <= j < |holes| && r.start <= holes[j].start && (r.end == holes[j].end || r.end == r.start + ahead);
    assert more[i] == holes[i] && more[j] == holes[j];
  }

  lemma AllJustifiedMore(rr: seq<Range>, holes: seq<Range>, h: Range, ahead: nat)
    requires AllJustified(rr, holes, ahead)
    ensures AllJustified(rr, holes + [h], ahead)
  {
    forall k: int | 0 <= k < |rr| ensures Justified(rr[k], holes + [h], ahead) {
      JustifiedMore(rr[k], holes, h, ahead);
    }
  }

  lemma LastStartsBefore(holes: seq<Range>, h: Range, rr: seq<Range>, ahead: nat)
    requires Separated(holes + [h]) && AllJustified(rr, holes, ahead) && rr != []
    ensures rr[|rr| - 1].start < h.start < h.end
  {
    var more, r := holes + [h], rr[|rr| - 1];
    assert Justified(r, holes, ahead);
    var i: int :| 0 <= i < |holes| && r.start == holes[i].start;
    assert more[i] == holes[i] && more[|holes|] == h;
  }

  /** Ranges that keep their starts and end no earlier, except after every hole, still contain the holes. */
  lemma InsideKept(holes: seq<Range>, h: Range, rr: seq<Range>, rr': seq<Range>)
    requires Separated(holes + [h]) && AllInside(holes, rr) && |rr| <= |rr'|
    requires forall k: int :: 0 <= k < |rr| ==>
               rr'[k].start == rr[k].start && (rr[k].end <= rr'[k].end || h.end <= rr'[k].end)
    requires Inside(h, rr')
    ensures AllInside(holes + [h], rr')
  {
    var more := holes + [h];
    assert more[|holes|] == h;
    forall j: int | 0 <= j < |more| ensures Inside(more[j], rr') {
      if j < |holes| {
        assert more[j] == holes[j] && Inside(holes[j], rr);
        var k: int :| 0 <= k < |rr| && rr[k].start <= holes[j].start && holes[j].end <= rr[k].end;
        assert holes[j].end < h.start < h.end && rr'[k].start == rr[k].start;
      }
    }
  }

  lemma JustifiedInto(r: Range, holes: seq<Range>, h: Range, ahead: nat)
    requires Justified(r, holes, ahead) && r.start <= h.start
    ensures Justified(Range(r.start, h.end), holes + [h], ahead)
  {
    var more := holes + [h];
    var i: int :| 0 <= i < |holes| && r.start == holes[i].start;
    assert more[i] == holes[i] && more[|holes|] == h;
  }

  lemma JustifiedNew(holes: seq<Range>, h: Range, r: Range, ahead: nat)
    requires r == Range(h.start, if h.end - h.start < ahead then h.start + ahead else h.end)
    ensures Justified(r, holes + [h], ahead)
  {
    assert (holes + [h])[|holes|] == h;
  }

  lemma InsideLast(h: Range, rr: seq<Range>)
    requires rr != [] && rr[|rr| - 1].start <= h.start && h.end <= rr[|rr| - 1].end
    ensures Inside(h, rr)
  {
  }

  /** The next hole is close to the last range: that range now ends with it. */
  lemma MergeInto(holes: seq<Range>, h: Range, rr: seq<Range>, rr': seq<Range>, ahead: nat, merge: nat)
    requires Separated(holes + [h]) && Merged(holes, rr, ahead, merge) && rr != []
    requires rr' == rr[..|rr| - 1] + [Range(rr[|rr| - 1].start, h.end)]
    ensures Merged(holes + [h], rr', ahead, merge)
  {
    hide Justified, Inside, AllInside, Separated;
    LastStartsBefore(holes, h, rr, ahead);
    InsideLast(h, rr');
    InsideKept(holes, h, rr, rr');
    AllJustifiedMore(rr, holes, h, ahead);
    JustifiedInto(rr[|rr| - 1], holes, h, ahead);
  }

  /** The next hole is far from the last range: it starts a new one. */
  lemma MergeAfter(holes: seq<Range>, h: Range, rr: seq<Range>, r: Range, ahead: nat, merge: nat)
    requires Separated(holes + [h]) && Merged(holes, rr, ahead, merge)
    requires rr != [] ==> rr[|rr| - 1].end + merge < h.start
    requires h.start < h.end && r == Range(h.start, if h.end - h.start < ahead then h.start + ahead else h.end)
    ensures Merged(holes + [h], rr + [r], ahead, merge)
  {
    hide Justified, Inside, AllInside, Separated;
    InsideLast(h, rr + [r]);
    InsideKept(holes, h, rr, rr + [r]);
    AllJustifiedMore(rr, holes, h, ahead);
    JustifiedNew(holes, h, r, ahead);
    ApartAfter(rr, r, merge);
  }

  lemma ApartAfter(rr: seq<Range>, r: Range, merge: nat)
    requires Apart(rr, merge) && (forall k: int :: 0 <= k < |rr| ==> rr[k].start < rr[k].end)
    requires rr != [] ==> rr[|rr| - 1].end + merge < r.start
    ensures Apart(rr + [r], merge)
  {
    forall i: int | 0 <= i < |rr| ensures rr[i].end + merge < r.start {
      if i < |rr| - 1 { assert rr[i].end + merge < rr[|rr| - 1].start < rr[|rr| - 1].end; }
    }
  }

  // ----- Exactly which ranges -----

  /** Where a range ends that took holes `g` to `j - 1`: stretched by readahead while it has but one. */
  function EndAfter(holes: seq<Range>, g: nat, j: nat, ahead: nat): nat
    requires g < j <= |holes|
  {
    if j == g + 1 && holes[g].end - holes[g].start < ahead then holes[g].start + ahead else holes[j - 1].end
  }

  /** The range takes holes `g` to `g' - 1`, each near the end reached before it. */
  ghost predicate Groups(holes: seq<Range>, r: Range, g: nat, g': nat, ahead: nat, merge: nat)
  {
    && g < g' <= |holes| && r == Range(holes[g].start, EndAfter(holes, g, g', ahead))
    && forall j: int :: g < j < g' ==> EndAfter(holes, g, j, ahead) + merge >= holes[j].start
  }

  /** Range `k` takes the holes from `groups[k]` up to `groups[k + 1]`; a hole that is not near starts the next. */
  ghost predicate Grouped(holes: seq<Range>, rr: seq<Range>, groups: seq<nat>, ahead: nat, merge: nat)
  {
    && |groups| == |rr| + 1 && groups[0] == 0 && groups[|rr|] == |holes|
    && (forall k: int :: 0 <= k < |rr| ==> Groups(holes, rr[k], groups[k], groups[k + 1], ahead, merge))
    && (forall k: int :: 0 <= k < |rr| - 1 ==> rr[k].end + merge < rr[k + 1].start)
  }

  lemma GroupsMore(holes: seq<Range>, h: Range, r: Range, g: nat, g': nat, ahead: nat, merge: nat)
    requires Groups(holes, r, g, g', ahead, merge)
    ensures Groups(holes + [h], r, g, g', ahead, merge)
  {
    assert forall j: int :: 0 <= j < |holes| ==> (holes + [h])[j] == holes[j];
    forall j: int | g < j <= g' ensures EndAfter(holes + [h], g, j, ahead) == EndAfter(holes, g, j, ahead) {}
  }

  lemma GroupAfter(holes: seq<Range>, h: Range, rr: seq<Range>, r: Range, groups: seq<nat>, ahead: nat, merge: nat)
    requires Grouped(holes, rr, groups, ahead, merge) && (rr != [] ==> rr[|rr| - 1].end + merge < h.start)
    requires r == Range(h.start, if h.end - h.start < ahead then h.start + ahead else h.end)
    ensures Grouped(holes + [h], rr + [r], groups + [|holes| + 1], ahead, merge)
  {
    hide Groups;
    var more, ranges, starts := holes + [h], rr + [r], groups + [|holes| + 1];
    forall k: int | 0 <= k < |ranges| ensures Groups(more, ranges[k], starts[k], starts[k + 1], ahead, merge) {
      if k < |rr| { GroupsMore(holes, h, rr[k], groups[k], groups[k + 1], ahead, merge); }
      if k == |rr| { GroupOne(holes, h, r, ahead, merge); }
    }
  }

  lemma GroupOne(holes: seq<Range>, h: Range, r: Range, ahead: nat, merge: nat)
    requires r == Range(h.start, if h.end - h.start < ahead then h.start + ahead else h.end)
    ensures Groups(holes + [h], r, |holes|, |holes| + 1, ahead, merge)
  {
  }

  lemma GroupWider(holes: seq<Range>, h: Range, r: Range, g: nat, ahead: nat, merge: nat)
    requires Groups(holes, r, g, |holes|, ahead, merge) && r.end + merge >= h.start
    ensures Groups(holes + [h], Range(r.start, h.end), g, |holes| + 1, ahead, merge)
  {
    GroupsMore(holes, h, r, g, |holes|, ahead, merge);
  }

  lemma GroupInto(holes: seq<Range>, h: Range, rr: seq<Range>, rr': seq<Range>, groups: seq<nat>, ahead: nat,
                  merge: nat)
    requires Grouped(holes, rr, groups, ahead, merge) && rr != [] && rr[|rr| - 1].end + merge >= h.start
    requires rr' == rr[..|rr| - 1] + [Range(rr[|rr| - 1].start, h.end)]
    ensures Grouped(holes + [h], rr', groups[..|rr|] + [|holes| + 1], ahead, merge)
  {
    hide Groups;
    var n, more, starts := |rr| - 1, holes + [h], groups[..|rr|] + [|holes| + 1];
    forall k: int | 0 <= k < |rr'| ensures Groups(more, rr'[k], starts[k], starts[k + 1], ahead, merge) {
      if k < n {
        GroupsMore(holes, h, rr[k], groups[k], groups[k + 1], ahead, merge);
      } else {
        assert Groups(holes, rr[n], groups[n], groups[n + 1], ahead, merge);
        GroupWider(holes, h, rr[n], groups[n], ahead, merge);
      }
    }
  }

  /** A byte is close to a hole: in its readahead, or between it and the next one, which is near. */
  ghost predicate NearHole(holes: seq<Range>, ahead: nat, merge: nat, j: int, x: int)
  {
    && 0 <= j < |holes| && holes[j].start <= x
    && (x < holes[j].end || x < holes[j].start + ahead || (j + 1 < |holes| && x < holes[j + 1].start
          && (holes[j + 1].start <= holes[j].end + merge || holes[j + 1].start <= holes[j].start + ahead + merge)))
  }

  /** Nothing is asked for but holes, readahead, and short gaps between holes. */
  lemma AskedIsNear(holes: seq<Range>, rr: seq<Range>, groups: seq<nat>, ahead: nat, merge: nat, x: int)
    requires Separated(holes) && Grouped(holes, rr, groups, ahead, merge) && InRanges(rr, x)
    ensures exists j: int :: NearHole(holes, ahead, merge, j, x)
  {
    var k: int :| 0 <= k < |rr| && rr[k].start <= x < rr[k].end;
    assert Groups(holes, rr[k], groups[k], groups[k + 1], ahead, merge);
    GroupIsNear(holes, rr[k], groups[k], groups[k + 1], ahead, merge, x);
  }

  lemma {:induction false} GroupIsNear(holes: seq<Range>, r: Range, g: nat, g': nat, ahead: nat, merge: nat, x: int)
    requires Separated(holes) && Groups(holes, r, g, g', ahead, merge) && r.start <= x < r.end
    ensures exists j: int :: NearHole(holes, ahead, merge, j, x)
    decreases g'
  {
    if g' == g + 1 || holes[g' - 1].start <= x {
      assert NearHole(holes, ahead, merge, g' - 1, x);
    } else if x < EndAfter(holes, g, g' - 1, ahead) {
      GroupIsNear(holes, Range(r.start, EndAfter(holes, g, g' - 1, ahead)), g, g' - 1, ahead, merge, x);
    } else {
      assert NearHole(holes, ahead, merge, g' - 2, x);
    }
  }

  /** Readahead is asked for after a hole no other one is near to. */
  lemma ReadsAhead(holes: seq<Range>, rr: seq<Range>, groups: seq<nat>, ahead: nat, merge: nat, k: nat, x: int)
    requires Grouped(holes, rr, groups, ahead, merge) && k < |rr| && groups[k + 1] == groups[k] + 1 <= |holes|
    requires var h := holes[groups[k]]; h.start <= x < h.end || h.start <= x < h.start + ahead
    ensures InRanges(rr, x)
  {
    assert Groups(holes, rr[k], groups[k], groups[k + 1], ahead, merge);
    assert rr[k].start <= x < rr[k].end;
  }

  /** A short gap between two holes is asked for with them. */
  lemma ShortGapsAreAsked(holes: seq<Range>, rr: seq<Range>, ahead: nat, merge: nat, j: nat, x: int)
    requires Separated(holes) && Merged(holes, rr, ahead, merge) && j + 1 < |holes|
    requires holes[j].end <= x < holes[j + 1].start <= holes[j].end + merge
    ensures InRanges(rr, x)
  {
    hide Merged, AllInside, AllJustified;
    MergedApart(holes, rr, ahead, merge);
    var k := RangeOver(holes, rr, ahead, merge, j);
    var k' := RangeOver(holes, rr, ahead, merge, j + 1);
    OneRange(rr, merge, k, k', holes[j], holes[j + 1]);
    assert rr[k].start <= x < rr[k].end;
  }

  lemma MergedApart(holes: seq<Range>, rr: seq<Range>, ahead: nat, merge: nat)
    requires Merged(holes, rr, ahead, merge)
    ensures Apart(rr, merge)
  {
  }

  lemma RangeOver(holes: seq<Range>, rr: seq<Range>, ahead: nat, merge: nat, j: nat) returns (k: nat)
    requires Merged(holes, rr, ahead, merge) && j < |holes|
    ensures k < |rr| && rr[k].start <= holes[j].start && holes[j].end <= rr[k].end
  {
    assert Inside(holes[j], rr);
    k :| 0 <= k < |rr| && rr[k].start <= holes[j].start && holes[j].end <= rr[k].end;
  }

  lemma OneRange(rr: seq<Range>, merge: nat, k: nat, k': nat, h: Range, h': Range)
    requires Apart(rr, merge) && k < |rr| && k' < |rr|
    requires rr[k].start <= h.start && h.end <= rr[k].end && rr[k'].start <= h'.start && h'.end <= rr[k'].end
    requires h.start < h.end < h'.start <= h.end + merge && h'.start < h'.end
    ensures k == k'
  {
  }

  /** Merges in place; the first `n` ranges are the result. */
  method MergeRA(rr: array<Range>, readAhead: nat, readMerge: nat) returns (n: nat, ghost groups: seq<nat>)
    requires Separated(rr[..])
    modifies rr
    ensures n <= rr.Length && (rr.Length > 0 ==> n > 0)
    ensures var merge := if readMerge > readAhead then readMerge - readAhead else 0;
            Merged(old(rr[..]), rr[..n], readAhead, merge) && Grouped(old(rr[..]), rr[..n], groups, readAhead, merge)
  {
    hide Merged, Separated, Grouped;
    ghost var holes := rr[..];
    var merge := if readMerge >= readAhead then readMerge - readAhead else 0;
    n, groups := 0, [0];
    assert rr[..0] == [] && holes[..0] == [];
    MergedNothing(readAhead, merge);
    for i := 0 to rr.Length
      invariant n <= i && (i > 0 ==> n > 0) && |groups| == n + 1
      invariant rr[i..] == holes[i..] && Merged(holes[..i], rr[..n], readAhead, merge)
      invariant Grouped(holes[..i], rr[..n], groups, readAhead, merge)
    {
      ghost var before := rr[..n];
      var h := rr[i];
      assert h == rr[i..][0] == holes[i] && holes[..i + 1] == holes[..i] + [h];
      SeparatedPrefix(holes, i + 1);
      if n > 0 && rr[n - 1].end + merge >= h.start {
        rr[n - 1] := Range(rr[n - 1].start, h.end);
        assert rr[..n] == before[..n - 1] + [Range(before[n - 1].start, h.end)];
        MergeInto(holes[..i], h, before, rr[..n], readAhead, merge);
        GroupInto(holes[..i], h, before, rr[..n], groups, readAhead, merge);
        groups := groups[..n] + [i + 1];
      } else {
        var sz := h.end - h.start;
        if sz < readAhead {
          sz := readAhead;
        }
        rr[n] := Range(h.start, h.start + sz);
        MergeAfter(holes[..i], h, before, rr[n], readAhead, merge);
        GroupAfter(holes[..i], h, before, rr[n], groups, readAhead, merge);
        assert rr[..n + 1] == before + [rr[n]];
        n, groups := n + 1, groups + [i + 1];
      }
      assert rr[i + 1..] == holes[i + 1..];
    }
    assert holes[..rr.Length] == holes;
  }

  lemma MergedNothing(ahead: nat, merge: nat)
    ensures Merged([], [], ahead, merge) && Grouped([], [], [0], ahead, merge)
  {
  }

  lemma SeparatedPrefix(rr: seq<Range>, i: nat)
    requires Separated(rr) && 0 < i <= |rr|
    ensures Separated(rr[..i]) && rr[i - 1].start < rr[i - 1].end
  {
  }

  // ----- Requests of bounded size -----

  /** Ranges between `lo` and `hi` in order, none overlapping the next; they may touch and may be empty. */
  ghost predicate Ordered(rr: seq<Range>, lo: nat, hi: nat)
  {
    && (forall i: int :: 0 <= i < |rr| ==> lo <= rr[i].start <= rr[i].end <= hi)
    && (forall i: int, j: int :: 0 <= i < j < |rr| ==> rr[i].end <= rr[j].start)
  }

  ghost predicate SameRanges(a: seq<Range>, b: seq<Range>)
  {
    forall x: int {:trigger InRanges(a, x)} {:trigger InRanges(b, x)} :: InRanges(a, x) <==> InRanges(b, x)
  }

  ghost predicate Short(rr: seq<Range>, maxPart: nat)
  {
    forall i: int :: 0 <= i < |rr| ==> rr[i].end - rr[i].start <= maxPart
  }

  ghost predicate EndsOne(rr: seq<Range>, end: int)
  {
    exists k: int :: 0 <= k < |rr| && rr[k].end == end
  }

  /** The requests are as long as they may be, except where a range ends. */
  ghost predicate Full(rr: seq<Range>, res: seq<Range>, maxPart: nat)
  {
    forall i: int :: 0 <= i < |res| ==>
      res[i].end - res[i].start == maxPart || (EndsOne(rr, res[i].end) && (res[i].start < res[i].end || res[i] in rr))
  }

  lemma FullMore(rr: seq<Range>, res: seq<Range>, r: Range, pieces: seq<Range>, maxPart: nat)
    requires Full(rr, res, maxPart) && Full([r], pieces, maxPart)
    ensures Full(rr + [r], res + pieces, maxPart)
  {
    assert forall k: int :: 0 <= k < |rr| ==> (rr + [r])[k] == rr[k];
    assert (rr + [r])[|rr|] == r;
    forall e: int | EndsOne(rr, e) ensures EndsOne(rr + [r], e) {
      var k: int :| 0 <= k < |rr| && rr[k].end == e;
      assert (rr + [r])[k].end == e;
    }
  }

  lemma InRangesConcat(a: seq<Range>, b: seq<Range>, x: int)
    ensures InRanges(a + b, x) <==> InRanges(a, x) || InRanges(b, x)
    decreases |b|
  {
    if b == [] {
      assert a + b == a;
    } else {
      var init, last := b[..|b| - 1], b[|b| - 1];
      InRangesConcat(a, init, x);
      assert a + b == (a + init) + [last] && b == init + [last];
      InRangesAppend(a + init, last, x);
      InRangesAppend(init, last, x);
    }
  }

  /** `pieces` cover [lo, hi) in order, in pieces of at most `maxPart` bytes. */
  ghost predicate Tiles(pieces: seq<Range>, lo: nat, hi: nat, maxPart: nat)
  {
    && Ordered(pieces, lo, hi) && Short(pieces, maxPart)
    && forall x: int {:trigger InRanges(pieces, x)} :: InRanges(pieces, x) <==> lo <= x < hi
  }

  lemma TileStep(pieces: seq<Range>, lo: nat, off: nat, end: nat, maxPart: nat)
    requires Tiles(pieces, lo, off, maxPart) && lo <= off <= end <= off + maxPart
    ensures Tiles(pieces + [Range(off, end)], lo, end, maxPart)
  {
    forall x: int ensures InRanges(pieces + [Range(off, end)], x) <==> lo <= x < end {
      InRangesAppend(pieces, Range(off, end), x);
    }
  }

  ghost predicate AllLong(pieces: seq<Range>, maxPart: nat)
  {
    forall i: int :: 0 <= i < |pieces| ==> pieces[i].end - pieces[i].start == maxPart
  }

  lemma NoTiles(lo: nat, maxPart: nat)
    ensures Tiles([], lo, lo, maxPart) && AllLong([], maxPart)
  {
  }

  lemma LongMore(pieces: seq<Range>, off: nat, maxPart: nat)
    requires AllLong(pieces, maxPart)
    ensures AllLong(pieces + [Range(off, off + maxPart)], maxPart)
  {
  }

  lemma LongIsFull(init: seq<Range>, off: nat, r: Range, maxPart: nat)
    requires AllLong(init, maxPart) && off < r.end
    ensures Full([r], init + [Range(off, r.end)], maxPart)
  {
    assert [r][0].end == r.end;
  }

  /** Cuts one range into requests of `maxPart` bytes; the last one ends where the range ends. */
  method Chop(r: Range, maxPart: nat) returns (pieces: seq<Range>)
    requires maxPart > 0 && r.start < r.end
    ensures Tiles(pieces, r.start, r.end, maxPart) && Full([r], pieces, maxPart)
  {
    hide Tiles, Full, AllLong;
    pieces := [];
    var off: nat := r.start;
    ghost var init: seq<Range> := [];
    NoTiles(r.start, maxPart);
    while off < r.end
      invariant r.start <= off && (off > r.start ==> off - maxPart < r.end)
      invariant if off == r.start then pieces == [] && init == [] else
                  off - maxPart >= r.start && pieces == init + [Range(off - maxPart, off)]
      invariant Tiles(init, r.start, if off == r.start then off else off - maxPart, maxPart)
      invariant AllLong(init, maxPart) && AllLong(pieces, maxPart)
    {
      if off > r.start { TileStep(init, r.start, off - maxPart, off, maxPart); }
      init := pieces;
      LongMore(pieces, off, maxPart);
      pieces := pieces + [Range(off, off + maxPart)];
      off := off + maxPart;
    }
    TileStep(init, r.start, off - maxPart, r.end, maxPart);
    LongIsFull(init, off - maxPart, r, maxPart);
    pieces := pieces[|pieces| - 1 := Range(pieces[|pieces| - 1].start, r.end)];
    assert pieces == init + [Range(off - maxPart, r.end)];
  }

  lemma SplitStep(done: seq<Range>, res: seq<Range>, r: Range, pieces: seq<Range>, hi: nat, maxPart: nat)
    requires SameRanges(done, res) && Ordered(res, 0, hi) && Short(res, maxPart) && hi <= r.start <= r.end
    requires Tiles(pieces, r.start, r.end, maxPart)
    ensures SameRanges(done + [r], res + pieces) && Ordered(res + pieces, 0, r.end) && Short(res + pieces, maxPart)
  {
    forall x: int ensures InRanges(done + [r], x) <==> InRanges(res + pieces, x) {
      InRangesAppend(done, r, x);
      InRangesConcat(res, pieces, x);
    }
  }

  lemma OneTile(r: Range, maxPart: nat)
    requires r.start <= r.end <= r.start + maxPart
    ensures Tiles([r], r.start, r.end, maxPart) && Full([r], [r], maxPart)
  {
    assert [r][0].end == r.end;
    forall x: int ensures InRanges([r], x) <==> r.start <= x < r.end {
      InRangesAppend([], r, x);
      assert [] + [r] == [r];
    }
  }

  /** The same bytes in the same order, in requests of at most `maxPart` bytes. */
  method SplitRA(rr: seq<Range>, maxPart: nat, ghost hi: nat) returns (res: seq<Range>)
    requires maxPart > 0 && Ordered(rr, 0, hi)
    ensures SameRanges(rr, res) && Ordered(res, 0, hi) && Short(res, maxPart) && Full(rr, res, maxPart)
  {
    hide SameRanges, Short, Tiles, Full;
    res := rr;
    var split := false;
    ghost var done: seq<Range>, end: nat := [], 0;
    NothingSplit(maxPart);
    for i := 0 to |rr|
      invariant end <= hi && (forall j: int :: i <= j < |rr| ==> end <= rr[j].start)
      invariant if split then done == res else res == rr && done == rr[..i]
      invariant SameRanges(rr[..i], done) && Ordered(done, 0, end) && Short(done, maxPart)
      invariant Full(rr[..i], done, maxPart)
    {
      var r := rr[i];
      assert rr[..i + 1] == rr[..i] + [r];
      ghost var pieces := [r];
      if r.end - r.start > maxPart {
        if !split {
          res := rr[..i];
          split := true;
        }
        var chopped := Chop(r, maxPart);
        res := res + chopped;
        pieces := chopped;
      } else {
        OneTile(r, maxPart);
        if split {
          res := res + [r];
        }
      }
      SplitStep(rr[..i], done, r, pieces, end, maxPart);
      FullMore(rr[..i], done, r, pieces, maxPart);
      done, end := done + pieces, r.end;
    }
    assert rr[..|rr|] == rr;
    OrderedWithin(done, end, hi);
  }

  lemma NothingSplit(maxPart: nat)
    ensures SameRanges([], []) && Ordered([], 0, 0) && Short([], maxPart) && Full([], [], maxPart)
  {
  }

  lemma OrderedWithin(rr: seq<Range>, end: nat, hi: nat)
    requires Ordered(rr, 0, end) && end <= hi
    ensures Ordered(rr, 0, hi)
  {
  }

  // ----- The plan -----

  /** Every missing byte the server has is asked for. */
  ghost predicate Planned(holes: seq<Range>, res: seq<Range>, known: nat)
  {
    forall x: int {:trigger InRanges(holes, x)} :: InRanges(holes, x) && x < known ==> InRanges(res, x)
  }

  lemma MergedCovers(holes: seq<Range>, rr: seq<Range>, ahead: nat, merge: nat, x: int)
    requires Merged(holes, rr, ahead, merge) && InRanges(holes, x)
    ensures InRanges(rr, x)
  {
    var j: int :| 0 <= j < |holes| && holes[j].start <= x < holes[j].end;
    assert Inside(holes[j], rr);
  }

  /** Ends past the known size are cut off; only the last range can have one. */
  lemma ClippedPlan(holes: seq<Range>, rr: seq<Range>, rr': seq<Range>, ahead: nat, merge: nat, known: nat)
    requires Merged(holes, rr, ahead, merge) && rr != []
    requires var last := rr[|rr| - 1];
             if last.end > known then last.start <= known && rr' == rr[|rr| - 1 := Range(last.start, known)]
             else rr' == rr
    ensures Ordered(rr', 0, known) && Planned(holes, rr', known) && Clipped(rr, rr', known)
    ensures rr[|rr| - 1].start <= known
  {
    hide AllInside, Inside, Justified;
    assert Ordered(rr', 0, known);
    ClippedIs(rr, rr', known);
    forall x: int | InRanges(holes, x) && x < known ensures InRanges(rr', x) {
      MergedCovers(holes, rr, ahead, merge, x);
      var k: int :| 0 <= k < |rr| && rr[k].start <= x < rr[k].end;
      assert rr'[k].start <= x < rr'[k].end;
    }
  }

  lemma SomeHolePast(holes: seq<Range>, rr: seq<Range>, ahead: nat, merge: nat, known: nat)
    requires Merged(holes, rr, ahead, merge) && rr != [] && rr[|rr| - 1].start > known
    ensures exists j: int :: 0 <= j < |holes| && holes[j].start > known
  {
    assert Justified(rr[|rr| - 1], holes, ahead);
  }

  /** The merged ranges as far as the server has them. */
  ghost predicate Clipped(merged: seq<Range>, res: seq<Range>, known: nat)
  {
    forall x: int {:trigger InRanges(res, x)} :: InRanges(res, x) <==> InRanges(merged, x) && x < known
  }

  lemma ClippedSame(merged: seq<Range>, rr: seq<Range>, res: seq<Range>, known: nat)
    requires Clipped(merged, rr, known) && SameRanges(rr, res)
    ensures Clipped(merged, res, known)
  {
  }

  lemma ClippedIs(merged: seq<Range>, rr: seq<Range>, known: nat)
    requires merged != [] && Apart(merged, 0)
    requires forall k: int :: 0 <= k < |merged| ==> merged[k].start <= merged[k].end
    requires var last := merged[|merged| - 1];
             if last.end > known then last.start <= known && rr == merged[|merged| - 1 := Range(last.start, known)]
             else rr == merged
    ensures Clipped(merged, rr, known)
  {
    forall x: int ensures InRanges(rr, x) <==> InRanges(merged, x) && x < known {
      if InRanges(rr, x) {
        var k: int :| 0 <= k < |rr| && rr[k].start <= x < rr[k].end;
        assert merged[k].start <= x < merged[k].end;
      }
      if InRanges(merged, x) && x < known {
        var k: int :| 0 <= k < |merged| && merged[k].start <= x < merged[k].end;
        assert rr[k].start <= x < rr[k].end;
      }
    }
  }

  /** The requests are as long as they may be, except where a merged range, or what the server has, ends. */
  ghost predicate FullUpTo(merged: seq<Range>, res: seq<Range>, known: nat, maxPart: nat)
  {
    forall i: int :: 0 <= i < |res| ==>
      res[i].end - res[i].start == maxPart || res[i].end == known || EndsOne(merged, res[i].end)
  }

  /** What is asked for given the merged ranges; nothing if the last of them starts past the object. */
  ghost predicate Asks(merged: seq<Range>, r: Option<seq<Range>>, maxPart: nat, known: nat)
  {
    && merged != [] && (r.None? <==> merged[|merged| - 1].start > known)
    && (r.Some? ==>
          && Clipped(merged, r.value, known) && FullUpTo(merged, r.value, known, maxPart)
          && Ordered(r.value, 0, known) && Short(r.value, maxPart))
  }

  /** What is asked for to fill `holes`. */
  ghost predicate AsksFor(holes: seq<Range>, r: Option<seq<Range>>, readAhead: nat, readMerge: nat, maxPart: nat,
                          known: nat)
  {
    var merge := if readMerge > readAhead then readMerge - readAhead else 0;
    exists merged: seq<Range>, groups: seq<nat> ::
      Merged(holes, merged, readAhead, merge) && Grouped(holes, merged, groups, readAhead, merge)
      && Asks(merged, r, maxPart, known)
  }

  /**
   The requests for `holes`: the merged ranges as far as the server has them, in as few
   pieces as `maxPart` allows; none if the last range starts past the known size, where the
   server has nothing.
   */
  method Plan(holes: seq<Range>, readAhead: nat, readMerge: nat, maxPart: nat, known: nat)
    returns (r: Option<seq<Range>>)
    requires Separated(holes) && holes != [] && maxPart > 0
    ensures AsksFor(holes, r, readAhead, readMerge, maxPart, known)
    ensures r.None? ==> exists j: int :: 0 <= j < |holes| && holes[j].start > known
    ensures r.Some? ==> Ordered(r.value, 0, known) && Short(r.value, maxPart) && Planned(holes, r.value, known)
  {
    hide Merged, Separated, Ordered, Short, Planned, Grouped, Clipped, Full, FullUpTo, AsksFor;
    var rr := new Range[|holes|](i requires 0 <= i < |holes| => holes[i]);
    assert rr[..] == holes;
    ghost var merge := if readMerge > readAhead then readMerge - readAhead else 0;
    var n;
    ghost var groups;
    n, groups := MergeRA(rr, readAhead, readMerge);
    ghost var merged := rr[..n];
    var last := rr[n - 1];
    if last.end > known {
      if last.start > known {
        SomeHolePast(holes, merged, readAhead, merge, known);
        AsksIs(holes, merged, groups, None, readAhead, readMerge, maxPart, known);
        return None;
      }
      rr[n - 1] := Range(last.start, known);
    }
    ClippedPlan(holes, merged, rr[..n], readAhead, merge, known);
    var res := SplitRA(rr[..n], maxPart, known);
    PlannedSame(holes, rr[..n], res, known);
    ClippedSame(merged, rr[..n], res, known);
    FullClipped(merged, rr[..n], res, known, maxPart);
    AsksIs(holes, merged, groups, Some(res), readAhead, readMerge, maxPart, known);
    r := Some(res);
  }

  lemma AsksIs(holes: seq<Range>, merged: seq<Range>, groups: seq<nat>, r: Option<seq<Range>>, readAhead: nat,
               readMerge: nat, maxPart: nat, known: nat)
    requires var merge := if readMerge > readAhead then readMerge - readAhead else 0;
             Merged(holes, merged, readAhead, merge) && Grouped(holes, merged, groups, readAhead, merge)
    requires Asks(merged, r, maxPart, known)
    ensures AsksFor(holes, r, readAhead, readMerge, maxPart, known)
  {
    hide Merged, Grouped, Asks;
  }

  lemma FullClipped(merged: seq<Range>, rr: seq<Range>, res: seq<Range>, known: nat, maxPart: nat)
    requires merged != [] && Full(rr, res, maxPart)
    requires var last := merged[|merged| - 1];
             if last.end > known then rr == merged[|merged| - 1 := Range(last.start, known)] else rr == merged
    ensures FullUpTo(merged, res, known, maxPart)
  {
    forall i: int | 0 <= i < |res| && EndsOne(rr, res[i].end)
      ensures res[i].end == known || EndsOne(merged, res[i].end)
    {
      var k: int :| 0 <= k < |rr| && rr[k].end == res[i].end;
      assert k < |merged| - 1 ==> merged[k] == rr[k];
    }
  }

  lemma PlannedSame(holes: seq<Range>, rr: seq<Range>, res: seq<Range>, known: nat)
    requires Planned(holes, rr, known) && SameRanges(rr, res)
    ensures Planned(holes, res, known)
  {
  }

  // ----- What the plan achieves -----

  /** The gaps of the ranges are being loaded; every other byte is untouched. */
  ghost predicate LoadingIn(m: Buffers, m': Buffers, ranges: seq<Range>)
  {
    forall x: int {:trigger CellAt(m', x)} ::
      CellAt(m', x) == if CellAt(m, x).None? && InRanges(ranges, x) then Some(LOADING_CELL) else CellAt(m, x)
  }

  lemma LoadingStart(m: Buffers)
    ensures LoadingIn(m, m, [])
  {
  }

  lemma LoadingStep(m: Buffers, m1: Buffers, m2: Buffers, ranges: seq<Range>, r: Range, length: nat)
    requires LoadingIn(m, m1, ranges) && Marked(m1, m2, r.start, r.start + length)
    requires length == if r.start <= r.end then r.end - r.start else 0
    ensures LoadingIn(m, m2, ranges + [r])
  {
    forall x: int ensures CellAt(m2, x) ==
                          if CellAt(m, x).None? && InRanges(ranges + [r], x) then Some(LOADING_CELL) else CellAt(m, x)
    {
      InRangesAppend(ranges, r, x);
      assert MarkedAt(m1, m2, r.start, r.start + length, x);
    }
  }

  lemma NothingPlanned(holes: seq<Range>, known: nat)
    requires |holes| == 0
    ensures Planned(holes, [], known)
  {
  }

  lemma PlanCovers(m: Buffers, m': Buffers, lo: nat, hi: nat, holes: seq<Range>, plan: seq<Range>, known: nat)
    requires ListsHoles(m, lo, hi, holes) && Planned(holes, plan, known) && LoadingIn(m, m', plan)
    ensures forall x: int {:trigger CellAt(m', x)} :: lo <= x < hi && x < known ==> CellAt(m', x).Some?
  {
    forall x: int {:trigger CellAt(m', x)} | lo <= x < hi && x < known ensures CellAt(m', x).Some? {
      if CellAt(m, x).None? { assert InRanges(holes, x) && InRanges(plan, x); }
    }
  }

  lemma HoleInside(m: Buffers, lo: nat, hi: nat, holes: seq<Range>, known: nat)
    requires Separated(holes) && ListsHoles(m, lo, hi, holes)
    requires exists j: int :: 0 <= j < |holes| && holes[j].start > known
    ensures exists x: int :: known < x < hi && CellAt(m, x).None?
  {
    var j: int :| 0 <= j < |holes| && holes[j].start > known;
    var x: int := holes[j].start;
    assert InRanges(holes, x);
    assert known < x < hi && CellAt(m, x).None?;
  }
}
