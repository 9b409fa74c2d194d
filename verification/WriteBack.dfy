/**
 One file between its writers and the object store. A state holds the buffer list, the
 object on the server and the flush in progress; a step is one section of the source that
 runs under the inode lock, or one request taking effect on the server. `Shows` is what a
 reader sees of it; each step is shown to keep the invariant byte by byte.
 */
module WriteBack {
  import opened Options
  import opened FileBuffers
  import opened BufferChanges
  import opened BufferReads
  import opened PartSizes
  import opened MultipartObject

  datatype CacheState = Cached | Created | Modified

  /** What a flush sends: the bytes and the dirty ids they carried when they were collected. */
  datatype Snapshot = Snapshot(body: seq<byte>, ids: set<nat>)

  /** How far the completion of a multipart upload got, and the file size when it was decided. */
  datatype Completion =
    | Open
    | Decided(decidedSize: nat)
    | Collected(decidedSize: nat, finalSize: nat, numParts: nat, landed: bool)

  /**
   The flush in progress. `sz` and `taken[p]` are where a small file and part `p` ended when their
   flush began; what is collected later ends there, however far the file has grown since.
   */
  datatype Upload =
    | Idle
    | Small(sz: nat, shot: Option<Snapshot>, landed: bool)
    | Multi(parts: map<int, seq<byte>>, taken: map<int, nat>, flights: map<int, Snapshot>, completion: Completion)

  /** `starts[p]` is the offset of part `p`; the last entry is the maximum file size. */
  datatype File = File(
    starts: seq<nat>, m: Buffers, cur: nat, size: nat, known: nat, server: seq<byte>,
    cache: CacheState, upload: Upload)

  /** The upload once part `p` is collected. */
  ghost function WithFlight(u: Upload, p: int, s: Snapshot): Upload
  {
    if u.Multi? then u.(taken := u.taken - {p}, flights := u.flights[p := s]) else u
  }

  // ----- What a byte of the file is -----

  predicate IsDirty(c: Option<Cell>) { c.Some? && c.value.kind.state.Dirty? }

  predicate IsFlushed(c: Option<Cell>)
  {
    c.Some? && (c.value.kind.state.FlushedFull? || c.value.kind.state.FlushedCut? || c.value.kind.state.FlCleared?)
  }

  /** Neither written here nor uploaded here: the server's object has the byte. */
  predicate FromServer(c: Option<Cell>) { c.None? || c.value.kind.state.Clean? }

  function ByteIn(bytes: seq<byte>, i: int): Option<byte>
  {
    if 0 <= i < |bytes| then Some(bytes[i]) else None
  }

  /** The byte of part `p` at file offset `x`. */
  function PartByte(starts: seq<nat>, parts: map<int, seq<byte>>, p: int, x: int): Option<byte>
  {
    if p in parts && 0 <= p < |starts| then ByteIn(parts[p], x - starts[p]) else None
  }

  /** Where a read of byte `x` finds its value: memory, an uploaded part, or the object. */
  ghost function ReadByte(f: File, x: int): Option<byte>
    requires |f.starts| > 0
  {
    var c := CellAt(f.m, x);
    if c.Some? && c.value.content.Some? then c.value.content
    else if IsFlushed(c) && f.upload.Multi? then PartByte(f.starts, f.upload.parts, PartOf(f.starts, x), x)
    else ByteIn(f.server, x)
  }

  /** The file as its readers see it. */
  ghost predicate Shows(f: File, bytes: seq<byte>)
    requires |f.starts| > 0
  {
    |bytes| == f.size && forall x: int {:trigger bytes[x]} {:trigger CellAt(f.m, x)} :: 0 <= x < f.size ==>
      ReadByte(f, x) == Some(bytes[x])
  }

  // ----- Invariant -----

  ghost predicate ListOk(m: Buffers, cur: nat)
  {
    Shape(m) && DistinctIds(m, cur)
  }

  /** What holds of any cell when nothing is kept on disk. */
  ghost predicate Sane(c: Option<Cell>, cur: nat, size: nat, x: int)
  {
    c.Some? ==>
      var k := c.value.kind;
      && c.value.id <= cur && (k.state.Dirty? <==> c.value.id != 0) && !k.onDisk
      && (k.state.Dirty? ==> x < size)
      && (k.zero ==> x < size && c.value.content == Some(0))
      && (k.state.Dirty? || k.state.FlushedFull? || k.state.FlushedCut? ==> c.value.content.Some?)
      && (k.state.FlCleared? ==> c.value.content.None?)
  }

  /** A byte of the file that is neither dirty nor uploaded is the server's. */
  ghost predicate ServerOk(f: File, x: int, c: Option<Cell>)
  {
    0 <= x < f.size && FromServer(c) ==>
      && x < |f.server|
      && (c.Some? && c.value.content.Some? ==> c.value.content == Some(f.server[x]))
      && (c.Some? && c.value.content.None? ==> c.value.kind.loading)
  }

  /** A snapshot of [base, base + |body|) still tells the bytes that kept a collected id. */
  ghost predicate ShotOk(s: Snapshot, base: int, x: int, c: Option<Cell>)
  {
    c.Some? && c.value.id in s.ids ==>
      c.value.id != 0 && c.value.content.Some? && c.value.content == ByteIn(s.body, x - base)
  }

  ghost predicate SmallOk(f: File, x: int, c: Option<Cell>)
    requires f.upload.Small?
  {
    var u := f.upload;
    && !IsFlushed(c)
    && (u.sz <= x < f.size ==> IsDirty(c))
    && (u.shot.Some? ==>
          && ShotOk(u.shot.value, 0, x, c)
          && (0 <= x < f.size && FromServer(c) ==> ByteIn(u.shot.value.body, x) == ByteIn(f.server, x)))
  }

  ghost predicate PartOk(f: File, x: int, c: Option<Cell>)
    requires f.upload.Multi? && |f.starts| > 0
  {
    var u, p := f.upload, PartOf(f.starts, x);
    && (IsFlushed(c) ==>
          && 0 <= x < f.size && PartByte(f.starts, u.parts, p, x).Some?
          && (c.value.content.Some? ==> c.value.content == PartByte(f.starts, u.parts, p, x))
          && (!c.value.kind.state.FlushedCut? ==> IsFull(f.starts, p, u.parts[p])))
    && (0 <= x < f.size && FromServer(c) && p in u.parts ==>
          PartByte(f.starts, u.parts, p, x) == ByteIn(f.server, x))
  }

  predicate IsFull(starts: seq<nat>, p: int, body: seq<byte>)
  {
    0 <= p < |starts| - 1 && starts[p] + |body| == starts[p + 1]
  }

  ghost predicate FlightOk(f: File, x: int, c: Option<Cell>)
    requires f.upload.Multi? && |f.starts| > 0
  {
    var u, p := f.upload, PartOf(f.starts, x);
    && (forall i: int :: i in u.flights && 0 <= i < |f.starts| ==> ShotOk(u.flights[i], f.starts[i], x, c))
    && (0 <= x < f.size && 0 <= p < |f.starts| && p in u.flights && !IsDirty(c) ==>
          && ByteIn(u.flights[p].body, x - f.starts[p]).Some?
          && (IsFlushed(c) ==> c.value.content == ByteIn(u.flights[p].body, x - f.starts[p]))
          && (FromServer(c) ==> ByteIn(f.server, x) == ByteIn(u.flights[p].body, x - f.starts[p])))
  }

  /** What was appended to a part since its flush began is dirty. */
  ghost predicate TakenOk(f: File, x: int, c: Option<Cell>)
    requires f.upload.Multi? && |f.starts| > 0
  {
    var u, p := f.upload, PartOf(f.starts, x);
    p in u.taken && u.taken[p] <= x < f.size ==> IsDirty(c)
  }

  ghost predicate OkAt(f: File, x: int)
    requires |f.starts| > 0
  {
    var c := CellAt(f.m, x);
    && Sane(c, f.cur, f.size, x)
    && ServerOk(f, x, c)
    && (f.cache.Cached? && 0 <= x < f.size ==> FromServer(c))
    && match f.upload
       case Idle => !IsFlushed(c)
       case Small(_, _, _) => SmallOk(f, x, c)
       case Multi(_, _, _, completion) =>
         && PartOk(f, x, c) && TakenOk(f, x, c) && FlightOk(f, x, c)
         && (!completion.Open? && completion.decidedSize <= x < f.size ==> IsDirty(c))
         && (completion.Collected? && completion.landed && IsFlushed(c) ==>
               ByteIn(f.server, x) == PartByte(f.starts, f.upload.parts, PartOf(f.starts, x), x))
  }

  ghost predicate IdsWithin(ids: set<nat>, cur: nat)
  {
    forall id: nat :: id in ids ==> 0 < id <= cur
  }

  /** The object of `length` bytes has every part of a file of `d` bytes that was not uploaded. */
  ghost predicate Copyable(starts: seq<nat>, parts: Bodies, length: nat, d: nat)
  {
    forall p: int :: 0 <= p < |starts| - 1 && starts[p] < d && p !in parts ==> PartEnd(starts, p, d) <= length
  }

  ghost predicate PartsOk(f: File)
    requires f.upload.Multi?
  {
    forall p: int :: p in f.upload.parts ==>
      0 <= p < |f.starts| - 1 && f.starts[p] + |f.upload.parts[p]| <= f.size
  }

  ghost predicate TakenPartsOk(f: File)
    requires f.upload.Multi?
  {
    var u := f.upload;
    forall p: int :: p in u.taken ==>
      && 0 <= p < |f.starts| - 1 && f.starts[p] < u.taken[p] <= PartEnd(f.starts, p, f.size) && p !in u.flights
      && (p in u.parts && IsFull(f.starts, p, u.parts[p]) ==> u.taken[p] == f.starts[p + 1])
  }

  ghost predicate FlightsOk(f: File)
    requires f.upload.Multi?
  {
    var u := f.upload;
    forall p: int :: p in u.flights ==>
      && 0 <= p < |f.starts| - 1 && f.starts[p] < f.size
      && f.starts[p] + |u.flights[p].body| <= PartEnd(f.starts, p, f.size)
      && IdsWithin(u.flights[p].ids, f.cur)
      && (p in u.parts && IsFull(f.starts, p, u.parts[p]) ==> IsFull(f.starts, p, u.flights[p].body))
  }

  ghost predicate CompletionOk(f: File)
    requires f.upload.Multi?
  {
    var u, c := f.upload, f.upload.completion;
    && (!c.Open? ==>
          && u.taken == map[] && u.flights == map[] && c.decidedSize <= f.size
          && PartsCover(f.starts, u.parts, c.decidedSize)
          && (c.Decided? || !c.landed ==> Copyable(f.starts, u.parts, |f.server|, c.decidedSize)))
    && (c.Collected? ==>
          && c.decidedSize <= c.finalSize <= f.size
          && IsPartCount(f.starts, c.finalSize, c.numParts)
          && (c.landed && c.decidedSize == c.finalSize ==> |f.server| == c.finalSize))
  }

  ghost predicate UploadOk(f: File)
    requires |f.starts| > 0
  {
    match f.upload
    case Idle => true
    case Small(sz, shot, landed) =>
      && sz <= f.size
      && (shot.Some? ==> |shot.value.body| == sz && IdsWithin(shot.value.ids, f.cur))
      && (landed ==> shot.Some? && f.server == shot.value.body)
    case Multi(_, _, _, _) => PartsOk(f) && TakenPartsOk(f) && FlightsOk(f) && CompletionOk(f)
  }

  ghost predicate Inv(f: File)
  {
    && Boundaries(f.starts) && f.size <= MaxSize(f.starts)
    && ListOk(f.m, f.cur) && UploadOk(f)
    && (f.cache.Cached? ==> f.upload.Idle? && |f.server| == f.size)
    && forall x: int {:trigger CellAt(f.m, x)} {:trigger OkAt(f, x)} :: OkAt(f, x)
  }

  // ----- Steps: writers, readers, eviction -----

  /** The result of ZeroRange on [lo, hi). */
  ghost predicate ZeroFilled(m: Buffers, cur: nat, m': Buffers, cur': nat, lo: int, hi: int)
  {
    || (cur' > cur && Zeroed(m, m', cur, lo, hi, cur'))
    || (m' == m && cur' == cur && forall x: int :: lo <= x < hi ==> CellAt(m, x).Some? && CellAt(m, x).value.kind.zero)
  }

  /** The list once the file has grown to `end`, if it has to. */
  ghost predicate Grown(f: File, m': Buffers, cur': nat, end: nat)
  {
    if f.size < end then ListOk(m', cur') && ZeroFilled(f.m, f.cur, m', cur', f.size, end)
    else m' == f.m && cur' == f.cur
  }

  function Touched(c: CacheState): CacheState
  {
    if c.Cached? then Modified else c
  }

  ghost predicate WriteVia(f: File, f': File, offset: nat, data: seq<byte>, m1: Buffers, cur1: nat)
  {
    && Grown(f, m1, cur1, offset + |data|)
    && Added(m1, f'.m, cur1, offset, data, Dirty)
    && cur1 <= f'.cur && ListOk(f'.m, f'.cur)
  }

  ghost predicate WriteStep(f: File, f': File, offset: nat, data: seq<byte>)
  {
    && |f.starts| > 0 && 0 < |data| && offset + |data| <= MaxSize(f.starts)
    && f' == f.(m := f'.m, cur := f'.cur, size := if f.size < offset + |data| then offset + |data| else f.size,
                cache := Touched(f.cache))
    && exists m1: Buffers, cur1: nat :: WriteVia(f, f', offset, data, m1, cur1)
  }

  /** A range is overwritten by zeros; nothing changes if it is one zero buffer already. */
  ghost predicate ZeroStep(f: File, f': File, offset: nat, size: nat)
  {
    && 0 < size && offset + size <= f.size
    && ZeroFilled(f.m, f.cur, f'.m, f'.cur, offset, offset + size) && ListOk(f'.m, f'.cur)
    && f' == f.(m := f'.m, cur := f'.cur, cache := if f'.cur > f.cur then Touched(f.cache) else f.cache)
  }

  /** The cut range is not being flushed. */
  ghost predicate CutUnlocked(f: File, size: nat)
  {
    match f.upload
    case Idle => true
    case Small(sz, _, _) => sz <= size
    case Multi(_, taken, flights, _) =>
      forall p: int :: (p in taken || p in flights) && 0 <= p < |f.starts| - 1 ==> f.starts[p + 1] <= size
  }

  /** No uploaded part reaches past the cut, and no completion in progress counts on what is cut off. */
  ghost predicate CutFits(f: File, size: nat)
  {
    f.upload.Multi? ==>
      && (forall p: int :: p in f.upload.parts && 0 <= p < |f.starts| ==>
            f.starts[p] + |f.upload.parts[p]| <= size)
      && (!f.upload.completion.Open? ==> f.upload.completion.decidedSize <= size)
      && (f.upload.completion.Collected? ==> f.upload.completion.finalSize <= size)
  }

  ghost predicate ResizeStep(f: File, f': File, size: nat)
  {
    && |f.starts| > 0 && size <= MaxSize(f.starts) && size != f.size
    && f' == f.(m := f'.m, cur := f'.cur, size := size, cache := Touched(f.cache))
    && if size < f.size
       then
         && CutUnlocked(f, size) && Erased(f.m, f'.m, f.cur, size, f.size, Everything)
         && f.cur <= f'.cur && ListOk(f'.m, f'.cur)
       else Grown(f, f'.m, f'.cur, size)
  }

  /** A response to a read arrives and is added as clean data, whatever it says. */
  ghost predicate FillStep(f: File, f': File, offset: nat, data: seq<byte>)
  {
    && 0 < |data| && f' == f.(m := f'.m, cur := f'.cur)
    && Added(f.m, f'.m, f.cur, offset, data, Clean)
    && f.cur <= f'.cur && ListOk(f'.m, f'.cur)
  }

  /** The response has the object's bytes wherever the file has no newer ones. */
  ghost predicate Agrees(f: File, offset: nat, data: seq<byte>)
  {
    forall x: int {:trigger CellAt(f.m, x)} ::
      offset <= x < offset + |data| && x < f.size && FromServer(CellAt(f.m, x)) ==>
        ByteIn(f.server, x) == Some(data[x - offset])
  }

  ghost predicate MarkLoadingStep(f: File, f': File, offset: nat, size: nat)
  {
    f' == f.(m := f'.m) && Marked(f.m, f'.m, offset, offset + size) && ListOk(f'.m, f'.cur)
  }

  ghost predicate DropLoadingStep(f: File, f': File, offset: nat, size: nat)
  {
    && f' == f.(m := f'.m, cur := f'.cur)
    && Erased(f.m, f'.m, f.cur, offset, offset + size, LoadingFromServer)
    && f.cur <= f'.cur && ListOk(f'.m, f'.cur)
  }

  /** The flusher holds a lock on the range it sends. */
  ghost predicate RangeLocked(f: File, lo: int, hi: int)
  {
    match f.upload
    case Idle => false
    case Small(sz, _, _) => lo < sz
    case Multi(_, _, flights, _) =>
      exists p: int :: p in flights && 0 <= p < |f.starts| - 1 && lo < f.starts[p + 1] && f.starts[p] < hi
  }

  ghost predicate EvictStep(f: File, f': File, k: int)
  {
    && k in f.m && f.m[k].data.Mem? && f.m[k].Queued() && !RangeLocked(f, f.m[k].offset, k)
    && f' == f.(m := f'.m) && ListOk(f'.m, f'.cur)
    && forall x: int {:trigger CellAt(f'.m, x)} :: EvictedAt(f.m, f'.m, k, false, x)
  }

  /** Buffers are cut in two at some offsets. */
  ghost predicate SplitStep(f: File, f': File)
  {
    f' == f.(m := f'.m, cur := f'.cur) && AllKept(f.m, f'.m, f.cur) && f.cur <= f'.cur && ListOk(f'.m, f'.cur)
  }

  // ----- Writers, readers and eviction keep the invariant, byte by byte -----

  /** How one byte may change while the upload and the object stay: kept, newly written, or still the server's. */
  ghost predicate Change(f: File, f': File, x: int)
  {
    var c, c' := CellAt(f.m, x), CellAt(f'.m, x);
    if f.size <= x < f'.size then IsDirty(c') && c'.value.id > f.cur
    else if f'.size <= x < f.size then c'.None?
    else
      || Kept(c, c', f.cur)
      || (IsDirty(c') && c'.value.id > f.cur && !f'.cache.Cached?)
      || (FromServer(c) && FromServer(c') && (0 <= x < f'.size && c'.Some? ==>
            if c'.value.content.Some? then c'.value.content == ByteIn(f.server, x) else c'.value.kind.loading))
  }

  ghost predicate SameButList(f: File, f': File)
  {
    && f' == f.(m := f'.m, cur := f'.cur, size := f'.size, cache := f'.cache) && f.cur <= f'.cur
    && (f'.cache.Cached? ==> f.cache.Cached? && f'.size == f.size)
    && (f.size <= f'.size || (CutUnlocked(f, f'.size) && CutFits(f, f'.size)))
  }

  lemma ChangeKeeps(f: File, f': File, x: int)
    requires |f.starts| > 0 && OkAt(f, x) && UploadOk(f) && SameButList(f, f')
    requires Sane(CellAt(f'.m, x), f'.cur, f'.size, x) && Change(f, f', x)
    ensures OkAt(f', x)
  {
    hide CellAt, PartOf, UploadOk, SmallOk, PartOk, TakenOk, FlightOk;
    match f.upload
    case Idle =>
    case Small(_, _, _) => SmallChange(f, f', x);
    case Multi(_, _, _, _) =>
      PartChange(f, f', x);
      FlightChange(f, f', x);
  }

  lemma SmallChange(f: File, f': File, x: int)
    requires |f.starts| > 0 && f.upload.Small? && UploadOk(f) && SameButList(f, f')
    requires OkAt(f, x) && Sane(CellAt(f'.m, x), f'.cur, f'.size, x) && Change(f, f', x)
    ensures SmallOk(f', x, CellAt(f'.m, x))
  {
    hide CellAt, PartOf;
  }

  lemma PartChange(f: File, f': File, x: int)
    requires |f.starts| > 0 && f.upload.Multi? && SameButList(f, f')
    requires OkAt(f, x) && Sane(CellAt(f'.m, x), f'.cur, f'.size, x) && Change(f, f', x)
    ensures PartOk(f', x, CellAt(f'.m, x)) && TakenOk(f', x, CellAt(f'.m, x))
  {
    hide CellAt, PartOf, FlightOk, CutUnlocked, CutFits;
  }

  lemma FlightChange(f: File, f': File, x: int)
    requires |f.starts| > 0 && f.upload.Multi? && UploadOk(f) && SameButList(f, f')
    requires OkAt(f, x) && Sane(CellAt(f'.m, x), f'.cur, f'.size, x) && Change(f, f', x)
    ensures FlightOk(f', x, CellAt(f'.m, x))
  {
    hide CellAt, PartOf, PartOk, TakenOk, CutUnlocked, CutFits, PartsCover, Copyable;
  }

  lemma IdBound(m: Buffers, cur: nat, x: int)
    requires ListOk(m, cur)
    ensures CellAt(m, x).Some? ==> CellAt(m, x).value.id <= cur
  {
  }

  /** A byte that stays, or stays the server's, reads the same. */
  lemma ReadSame(f: File, f': File, x: int)
    requires |f.starts| > 0 && SameButList(f, f') && OkAt(f, x) && OkAt(f', x) && 0 <= x < f.size && x < f'.size
    requires Kept(CellAt(f.m, x), CellAt(f'.m, x), f.cur) || (FromServer(CellAt(f.m, x)) && FromServer(CellAt(f'.m, x)))
    ensures ReadByte(f', x) == ReadByte(f, x)
  {
  }

  /** Growth never finds its range zeroed already: no zero buffer reaches past the end of the file. */
  lemma GrowthZeroes(f: File, m': Buffers, cur': nat, end: nat)
    requires Inv(f) && f.size < end && Grown(f, m', cur', end)
    ensures cur' > f.cur && Zeroed(f.m, m', f.cur, f.size, end, cur')
  {
    assert OkAt(f, f.size);
  }

  lemma GrowAt(f: File, f': File, x: int)
    requires Inv(f) && f.size < f'.size && SameButList(f, f') && !f'.cache.Cached?
    requires ListOk(f'.m, f'.cur) && f'.cur > f.cur && Zeroed(f.m, f'.m, f.cur, f.size, f'.size, f'.cur)
    ensures OkAt(f', x)
    ensures 0 <= x < f'.size ==> ReadByte(f', x) == if x < f.size then ReadByte(f, x) else Some(0)
  {
    assert OkAt(f, x) && ZeroedAt(f.m, f'.m, f.cur, f.size, f'.size, f'.cur, x);
    IdBound(f'.m, f'.cur, x);
    ChangeKeeps(f, f', x);
    if 0 <= x < f.size { ReadSame(f, f', x); }
  }

  lemma ZeroAt(f: File, f': File, offset: nat, size: nat, x: int)
    requires Inv(f) && ZeroStep(f, f', offset, size)
    ensures OkAt(f', x)
    ensures 0 <= x < f.size ==> ReadByte(f', x) == if offset <= x < offset + size then Some(0) else ReadByte(f, x)
  {
    assert OkAt(f, x);
    if f'.cur > f.cur {
      assert ZeroedAt(f.m, f'.m, f.cur, offset, offset + size, f'.cur, x);
      IdBound(f'.m, f'.cur, x);
      ChangeKeeps(f, f', x);
      if 0 <= x < f.size && !(offset <= x < offset + size) { ReadSame(f, f', x); }
    }
  }

  lemma AddDirtyAt(f: File, f': File, offset: nat, data: seq<byte>, x: int)
    requires Inv(f) && SameButList(f, f') && f'.size == f.size && !f'.cache.Cached? && offset + |data| <= f.size
    requires ListOk(f'.m, f'.cur) && Added(f.m, f'.m, f.cur, offset, data, Dirty)
    ensures OkAt(f', x)
    ensures 0 <= x < f.size ==>
              ReadByte(f', x) == if offset <= x < offset + |data| then Some(data[x - offset]) else ReadByte(f, x)
  {
    assert OkAt(f, x) && AddedAt(f.m, f'.m, f.cur, offset, data, Dirty, x);
    IdBound(f'.m, f'.cur, x);
    ChangeKeeps(f, f', x);
    if 0 <= x < f.size && !(offset <= x < offset + |data|) { ReadSame(f, f', x); }
  }

  lemma CutAwayAt(f: File, f': File, x: int)
    requires Inv(f) && SameButList(f, f') && f'.size < f.size && !f'.cache.Cached?
    requires ListOk(f'.m, f'.cur) && Erased(f.m, f'.m, f.cur, f'.size, f.size, Everything)
    ensures OkAt(f', x)
    ensures 0 <= x < f'.size ==> ReadByte(f', x) == ReadByte(f, x)
  {
    assert OkAt(f, x) && ErasedAt(f.m, f'.m, f.cur, f'.size, f.size, Everything, x);
    IdBound(f'.m, f'.cur, x);
    ChangeKeeps(f, f', x);
    if 0 <= x < f'.size { ReadSame(f, f', x); }
  }

  lemma FillAt(f: File, f': File, offset: nat, data: seq<byte>, x: int)
    requires Inv(f) && FillStep(f, f', offset, data) && Agrees(f, offset, data)
    ensures OkAt(f', x)
    ensures 0 <= x < f.size ==> ReadByte(f', x) == ReadByte(f, x)
  {
    assert OkAt(f, x) && AddedAt(f.m, f'.m, f.cur, offset, data, Clean, x);
    IdBound(f'.m, f'.cur, x);
    ChangeKeeps(f, f', x);
    if 0 <= x < f.size { ReadSame(f, f', x); }
  }

  /** A response that disagrees with the object about such a byte changes what a reader sees of it. */
  lemma FillWrongAt(f: File, f': File, offset: nat, data: seq<byte>, x: int)
    requires Inv(f) && FillStep(f, f', offset, data)
    requires offset <= x < offset + |data| && x < f.size && FromServer(CellAt(f.m, x))
    ensures ByteIn(f.server, x).Some? && ReadByte(f, x) == ByteIn(f.server, x)
    ensures ReadByte(f', x) == Some(data[x - offset])
  {
    assert OkAt(f, x) && AddedAt(f.m, f'.m, f.cur, offset, data, Clean, x);
  }

  lemma MarkLoadingAt(f: File, f': File, offset: nat, size: nat, x: int)
    requires Inv(f) && MarkLoadingStep(f, f', offset, size)
    ensures OkAt(f', x)
    ensures 0 <= x < f.size ==> ReadByte(f', x) == ReadByte(f, x)
  {
    assert OkAt(f, x) && MarkedAt(f.m, f'.m, offset, offset + size, x);
    ChangeKeeps(f, f', x);
    if 0 <= x < f.size { ReadSame(f, f', x); }
  }

  lemma DropLoadingAt(f: File, f': File, offset: nat, size: nat, x: int)
    requires Inv(f) && DropLoadingStep(f, f', offset, size)
    ensures OkAt(f', x)
    ensures 0 <= x < f.size ==> ReadByte(f', x) == ReadByte(f, x)
  {
    assert OkAt(f, x) && ErasedAt(f.m, f'.m, f.cur, offset, offset + size, LoadingFromServer, x);
    IdBound(f'.m, f'.cur, x);
    ChangeKeeps(f, f', x);
    if 0 <= x < f.size { ReadSame(f, f', x); }
  }

  lemma SplitAtKeeps(f: File, f': File, x: int)
    requires Inv(f) && SplitStep(f, f')
    ensures OkAt(f', x)
    ensures 0 <= x < f.size ==> ReadByte(f', x) == ReadByte(f, x)
  {
    assert OkAt(f, x) && Kept(CellAt(f.m, x), CellAt(f'.m, x), f.cur);
    IdBound(f'.m, f'.cur, x);
    ChangeKeeps(f, f', x);
    if 0 <= x < f.size { ReadSame(f, f', x); }
  }

  lemma EvictAt(f: File, f': File, k: int, x: int)
    requires Inv(f) && EvictStep(f, f', k)
    ensures OkAt(f', x)
    ensures 0 <= x < f.size ==> ReadByte(f', x) == ReadByte(f, x)
  {
    assert OkAt(f, x) && EvictedAt(f.m, f'.m, k, false, x);
    if !Covers(f.m, k, x) {
      ChangeKeeps(f, f', x);
    } else {
      CoveredCell(f.m, k, x);
      if f.m[k].kind.state.Clean? {
        ChangeKeeps(f, f', x);
      } else {
        EvictFlushedAt(f, f', k, x);
      }
    }
  }

  /** A fully flushed byte leaves memory: its part still has it, and no flush is sending it. */
  lemma EvictFlushedAt(f: File, f': File, k: int, x: int)
    requires Inv(f) && EvictStep(f, f', k) && Covers(f.m, k, x) && f.m[k].kind.state.FlushedFull? && OkAt(f, x)
    requires CellAt(f.m, x) == Some(f.m[k].CellOf(x)) && EvictedAt(f.m, f'.m, k, false, x)
    ensures OkAt(f', x)
    ensures 0 <= x < f.size ==> ReadByte(f', x) == ReadByte(f, x)
  {
    var p := PartOf(f.starts, x);
    PartOfIs(f.starts, p, x);
    assert f.upload.Multi? && p !in f.upload.flights;
  }

  // ----- Steps: flushing a small file as one object -----

  ghost predicate SmallLockStep(f: File, f': File)
  {
    f.upload.Idle? && !f.cache.Cached? && f' == f.(upload := Small(f.size, None, false))
  }

  /** The reader collected [lo, hi): its bytes and their ids, with no buffer left across either edge. */
  ghost predicate Collects(m: Buffers, m': Buffers, cur: nat, cur': nat, lo: int, hi: int, s: Snapshot)
  {
    && AllKept(m, m', cur) && cur <= cur' && ListOk(m', cur')
    && BoundaryAt(m', lo) && BoundaryAt(m', hi)
    && |s.body| == hi - lo && Holds(m', lo, s.body) && CollectsIds(m', lo, hi, s.ids)
  }

  ghost predicate SmallShotStep(f: File, f': File, s: Snapshot)
  {
    && f.upload.Small? && f.upload.shot.None?
    && f' == f.(m := f'.m, cur := f'.cur, upload := f.upload.(shot := Some(s)))
    && Collects(f.m, f'.m, f.cur, f'.cur, 0, f.upload.sz, s)
  }

  /** The upload takes effect on the server. */
  ghost predicate SmallLandStep(f: File, f': File)
  {
    && f.upload.Small? && f.upload.shot.Some?
    && f' == f.(server := f.upload.shot.value.body, upload := f.upload.(landed := true))
  }

  /** SetState over [lo, hi) with the collected ids. */
  ghost predicate StateSet(m: Buffers, m': Buffers, lo: int, hi: int, ids: set<nat>, state: BufferState, cursor: int)
  {
    && Restated(m, m', ids, state, lo + 1, cursor)
    && forall k: int :: k in m && lo < k && m[k].offset < hi ==> k < cursor
  }

  ghost predicate StillDirty(f: File)
  {
    f.size != f.known || exists k: int :: k in f.m && !f.m[k].kind.state.Clean?
  }

  ghost predicate Recached(f: File, f': File)
  {
    f'.cache == if f.cache.Cached? then Cached else if StillDirty(f') then Modified else Cached
  }

  ghost predicate SmallDoneStep(f: File, f': File)
  {
    && f.upload.Small? && f.upload.shot.Some? && f.upload.landed
    && f' == f.(m := f'.m, known := f.upload.sz, cache := f'.cache, upload := Idle)
    && Recached(f, f') && ListOk(f'.m, f'.cur)
    && exists cursor: int :: StateSet(f.m, f'.m, 0, f.upload.sz, f.upload.shot.value.ids, Clean, cursor)
  }

  /** The flush gives up or fails, whether or not the server applied it. */
  ghost predicate SmallFailStep(f: File, f': File)
  {
    f.upload.Small? && f' == f.(upload := Idle)
  }

  // ----- They keep the invariant, byte by byte -----

  /** A collected id belongs to one buffer, and that buffer lies inside the collected range. */
  lemma CollectedInside(m: Buffers, cur: nat, lo: int, hi: int, ids: set<nat>, x: int)
    requires ListOk(m, cur) && BoundaryAt(m, lo) && BoundaryAt(m, hi) && CollectsIds(m, lo, hi, ids)
    requires CellAt(m, x).Some? && CellAt(m, x).value.id in ids
    ensures lo <= x < hi && CellAt(m, x).value.id != 0
  {
    var id := CellAt(m, x).value.id;
    var y: int :| lo <= y < hi && CellAt(m, y).Some? && CellAt(m, y).value.id == id;
    assert KeyAt(m, x) == KeyAt(m, y);
  }

  lemma SmallShotAt(f: File, f': File, s: Snapshot, x: int)
    requires Inv(f) && SmallShotStep(f, f', s)
    ensures OkAt(f', x) && IdsWithin(s.ids, f'.cur)
    ensures 0 <= x < f.size ==> ReadByte(f', x) == ReadByte(f, x)
  {
    assert OkAt(f, x) && Kept(CellAt(f.m, x), CellAt(f'.m, x), f.cur);
    IdBound(f'.m, f'.cur, x);
    var c := CellAt(f'.m, x);
    if c.Some? && c.value.id in s.ids { CollectedInside(f'.m, f'.cur, 0, f.upload.sz, s.ids, x); }
    if 0 <= x < f.upload.sz { assert Readable(f'.m, x) && s.body[x] == ByteAt(f'.m, x); }
    CollectedBound(f'.m, f'.cur, 0, f.upload.sz, s.ids);
  }

  lemma CollectedBound(m: Buffers, cur: nat, lo: int, hi: int, ids: set<nat>)
    requires ListOk(m, cur) && CollectsIds(m, lo, hi, ids)
    ensures IdsWithin(ids, cur)
  {
    forall id: nat | id in ids ensures 0 < id <= cur {
      var y: int :| lo <= y < hi && CellAt(m, y).Some? && CellAt(m, y).value.id == id;
      IdBound(m, cur, y);
    }
  }

  lemma SmallLandAt(f: File, f': File, x: int)
    requires Inv(f) && SmallLandStep(f, f')
    ensures OkAt(f', x)
    ensures 0 <= x < f.size ==> ReadByte(f', x) == ReadByte(f, x)
  {
    assert OkAt(f, x);
  }

  /** SetState reaches every byte that kept a collected id. */
  lemma StateSetAt(m: Buffers, m': Buffers, lo: int, hi: int, ids: set<nat>, state: BufferState, cursor: int, x: int)
    requires StateSet(m, m', lo, hi, ids, state, cursor) && 0 !in ids
    requires CellAt(m, x).Some? && CellAt(m, x).value.id in ids ==> lo <= x < hi
    ensures CellAt(m', x) == if CellAt(m, x).Some? && CellAt(m, x).value.id in ids
                             then Some(CellInState(CellAt(m, x).value, state)) else CellAt(m, x)
  {
    assert RestatedAt(m, m', ids, state, lo + 1, cursor, x);
  }

  lemma NotStillDirtyAt(f: File, x: int)
    requires !StillDirty(f)
    ensures FromServer(CellAt(f.m, x))
  {
  }

  lemma SmallDoneAt(f: File, f': File, x: int)
    requires Inv(f) && SmallDoneStep(f, f')
    ensures OkAt(f', x)
    ensures 0 <= x < f.size ==> ReadByte(f', x) == ReadByte(f, x)
  {
    assert OkAt(f, x);
    var s := f.upload.shot.value;
    var cursor: int :| StateSet(f.m, f'.m, 0, f.upload.sz, s.ids, Clean, cursor);
    StateSetAt(f.m, f'.m, 0, f.upload.sz, s.ids, Clean, cursor, x);
    if f'.cache.Cached? { NotStillDirtyAt(f', x); }
  }

  // ----- What a write does to each byte -----

  /**
   The range reads `data` and what lies between the old end and the range reads zeros, all of it
   dirty under new ids; every other byte is kept.
   */
  ghost predicate Overwrote(m: Buffers, m': Buffers, cur: nat, size: nat, offset: nat, data: seq<byte>)
  {
    forall x: int {:trigger CellAt(m', x)} ::
      var c := CellAt(m', x);
      if offset <= x < offset + |data| then
        c.Some? && c.value.id > cur && c.value.kind == Kind(Dirty, false, false, false)
        && c.value.content == Some(data[x - offset])
      else if size <= x < offset then
        c.Some? && c.value.id > cur && c.value.kind == Kind(Dirty, false, false, true) && c.value.content == Some(0)
      else Kept(CellAt(m, x), c, cur)
  }

  lemma GrownAt(f: File, m1: Buffers, cur1: nat, end: nat, x: int)
    requires Inv(f) && Grown(f, m1, cur1, end)
    ensures var c := CellAt(m1, x);
            if f.size <= x < end then
              c.Some? && c.value.id > f.cur && c.value.kind == Kind(Dirty, false, false, true)
              && c.value.content == Some(0)
            else Kept(CellAt(f.m, x), c, f.cur)
    ensures f.cur <= cur1 && (f.size < end ==> f.cur < cur1)
  {
    if f.size < end {
      assert OkAt(f, f.size);
      assert ZeroedAt(f.m, m1, f.cur, f.size, end, cur1, x);
    }
  }

  lemma GrowthCells(f: File, m1: Buffers, cur1: nat, end: nat)
    requires Inv(f) && Grown(f, m1, cur1, end)
    ensures Overwrote(f.m, m1, f.cur, f.size, end, []) && (f.size < end ==> f.cur < cur1)
  {
    hide CellAt, Inv, Grown;
    GrownAt(f, m1, cur1, end, 0);
    forall x: int { GrownAt(f, m1, cur1, end, x); }
  }

  lemma WriteCells(f: File, f': File, offset: nat, data: seq<byte>, m1: Buffers, cur1: nat)
    requires Inv(f) && WriteVia(f, f', offset, data, m1, cur1)
    ensures Overwrote(f.m, f'.m, f.cur, f.size, offset, data)
  {
    hide CellAt, Inv, Grown, ListOk;
    forall x: int ensures var c := CellAt(f'.m, x);
      if offset <= x < offset + |data| then
        c.Some? && c.value.id > f.cur && c.value.kind == Kind(Dirty, false, false, false)
        && c.value.content == Some(data[x - offset])
      else if f.size <= x < offset then
        c.Some? && c.value.id > f.cur && c.value.kind == Kind(Dirty, false, false, true)
        && c.value.content == Some(0)
      else Kept(CellAt(f.m, x), c, f.cur)
    {
      GrownAt(f, m1, cur1, offset + |data|, x);
      assert AddedAt(m1, f'.m, cur1, offset, data, Dirty, x);
    }
  }

  // ----- What is left dirty -----

  /** Bytes that carry a collected id are in the new state; the others are as they were. */
  ghost predicate Sent(m: Buffers, m': Buffers, ids: set<nat>, state: BufferState)
  {
    forall x: int {:trigger CellAt(m', x)} ::
      CellAt(m', x) == var c := CellAt(m, x);
        if c.Some? && c.value.id in ids then Some(Cell(c.value.kind.(state := state), 0, c.value.content)) else c
  }

  lemma SmallIsSent(f: File, m': Buffers, cursor: int)
    requires Inv(f) && f.upload.Small? && f.upload.shot.Some?
    requires StateSet(f.m, m', 0, f.upload.sz, f.upload.shot.value.ids, Clean, cursor)
    ensures Sent(f.m, m', f.upload.shot.value.ids, Clean)
  {
    hide StateSet;
    var s := f.upload.shot.value;
    forall x: int ensures CellAt(m', x) == var c := CellAt(f.m, x);
      if c.Some? && c.value.id in s.ids then Some(Cell(c.value.kind.(state := Clean), 0, c.value.content)) else c
    {
      assert OkAt(f, x);
      StateSetAt(f.m, m', 0, f.upload.sz, s.ids, Clean, cursor, x);
    }
  }

  lemma PartIsSent(f: File, m': Buffers, p: int, cursor: int)
    requires Inv(f) && f.upload.Multi? && p in f.upload.flights && 0 <= p < |f.starts| - 1
    requires var s := f.upload.flights[p];
             StateSet(f.m, m', f.starts[p], f.starts[p] + |s.body|, s.ids, FlushedState(f.starts, p, s.body), cursor)
    ensures var s := f.upload.flights[p];
            Sent(f.m, m', s.ids, if |s.body| == f.starts[p + 1] - f.starts[p] && p > 0 then FlushedFull else FlushedCut)
  {
    hide StateSet;
    var s := f.upload.flights[p];
    var state := FlushedState(f.starts, p, s.body);
    forall x: int ensures CellAt(m', x) == var c := CellAt(f.m, x);
      if c.Some? && c.value.id in s.ids then Some(Cell(c.value.kind.(state := state), 0, c.value.content)) else c
    {
      assert OkAt(f, x);
      StateSetAt(f.m, m', f.starts[p], f.starts[p] + |s.body|, s.ids, state, cursor, x);
    }
  }

  /** Every buffer is clean exactly if every byte is. */
  lemma CleanBytes(m: Buffers)
    requires Shape(m)
    ensures (forall k: int :: k in m ==> m[k].kind.state.Clean?) <==>
            forall x: int {:trigger CellAt(m, x)} :: CellAt(m, x).Some? ==> CellAt(m, x).value.kind.state.Clean?
  {
    forall k: int | k in m ensures CellAt(m, k - 1).Some? && CellAt(m, k - 1).value.kind == m[k].kind {
      CoveredCell(m, k, k - 1);
    }
  }

  /** A small flush leaves the file cached exactly if its size is the one sent and every change was. */
  lemma SmallDoneCached(f: File, f': File)
    requires Inv(f) && f.upload.Small? && f.upload.shot.Some? && Sent(f.m, f'.m, f.upload.shot.value.ids, Clean)
    requires Recached(f, f') && Shape(f'.m) && f'.size == f.size && f'.known == f.upload.sz
    ensures f'.cache.Cached? <==> f.size == f.upload.sz && forall x: int {:trigger CellAt(f.m, x)} ::
                                    IsDirty(CellAt(f.m, x)) ==> CellAt(f.m, x).value.id in f.upload.shot.value.ids
  {
    CleanBytes(f'.m);
    forall x: int ensures CellAt(f'.m, x).Some? && !CellAt(f'.m, x).value.kind.state.Clean? <==>
                          IsDirty(CellAt(f.m, x)) && CellAt(f.m, x).value.id !in f.upload.shot.value.ids
    {
      assert OkAt(f, x);
    }
  }

  /** A completed upload leaves the file cached exactly if its size is the committed one and nothing is dirty. */
  lemma CommitCached(f: File, f': File)
    requires Inv(f) && CommitStep(f, f')
    ensures f'.cache.Cached? <==> f.size == f.upload.completion.finalSize
                                  && forall x: int {:trigger CellAt(f.m, x)} :: !IsDirty(CellAt(f.m, x))
  {
    hide CellAt, OkAt, UploadOk;
    CleanBytes(f'.m);
    forall x: int
      ensures CellAt(f'.m, x).Some? && !CellAt(f'.m, x).value.kind.state.Clean? <==> IsDirty(CellAt(f.m, x))
    {
      assert CellAt(f'.m, x) == Settled(CellAt(f.m, x));
    }
  }

  // ----- Steps: a multipart upload -----

  ghost predicate BeginStep(f: File, f': File)
  {
    f.upload.Idle? && !f.cache.Cached? && f' == f.(upload := Multi(map[], map[], map[], Open))
  }

  /** The flush of a part begins: its end is taken before what is missing of it gets loaded. */
  ghost predicate PartTakeStep(f: File, f': File, p: int)
  {
    && f.upload.Multi? && f.upload.completion.Open?
    && 0 <= p < |f.starts| - 1 && p !in f.upload.flights && f.starts[p] < f.size
    && f' == f.(upload := f.upload.(taken := f.upload.taken[p := PartEnd(f.starts, p, f.size)]))
  }

  /** The flush of a part ends before anything was collected. */
  ghost predicate PartDropStep(f: File, f': File, p: int)
  {
    f.upload.Multi? && f' == f.(upload := f.upload.(taken := f.upload.taken - {p}))
  }

  ghost predicate PartShotStep(f: File, f': File, p: int, s: Snapshot)
  {
    && f.upload.Multi? && f.upload.completion.Open?
    && 0 <= p < |f.starts| - 1 && p in f.upload.taken
    && f' == f.(m := f'.m, cur := f'.cur,
                upload := f.upload.(taken := f.upload.taken - {p}, flights := f.upload.flights[p := s]))
    && Collects(f.m, f'.m, f.cur, f'.cur, f.starts[p], f.upload.taken[p], s)
  }

  /** Only a part sent in full, and never the first one, may be evicted later. */
  function FlushedState(starts: seq<nat>, p: int, body: seq<byte>): BufferState
  {
    if !IsFull(starts, p, body) || p == 0 then FlushedCut else FlushedFull
  }

  ghost predicate PartDoneStep(f: File, f': File, p: int)
  {
    && f.upload.Multi? && p in f.upload.flights && 0 <= p < |f.starts| - 1
    && var s := f.upload.flights[p];
    && f' == f.(m := f'.m, upload := f.upload.(parts := f.upload.parts[p := s.body], flights := f.upload.flights - {p}))
    && ListOk(f'.m, f'.cur)
    && PartStateSet(f, f', p, s)
  }

  ghost predicate PartStateSet(f: File, f': File, p: int, s: Snapshot)
    requires 0 <= p < |f.starts|
  {
    var lo, hi, state := f.starts[p], f.starts[p] + |s.body|, FlushedState(f.starts, p, s.body);
    exists cursor: int :: StateSet(f.m, f'.m, lo, hi, s.ids, state, cursor)
  }

  ghost predicate PartFailStep(f: File, f': File, p: int)
  {
    f.upload.Multi? && p in f.upload.flights && f' == f.(upload := f.upload.(flights := f.upload.flights - {p}))
  }

  /** Every part that still has a dirty byte is one that cannot be sent: some of it left memory. */
  ghost predicate NothingToSend(f: File)
    requires |f.starts| > 0
  {
    forall x: int {:trigger CellAt(f.m, x)} :: 0 <= x < f.size && IsDirty(CellAt(f.m, x)) ==>
      exists y: int :: InPart(f.starts, PartOf(f.starts, x), y) && y < f.size && IsCleared(CellAt(f.m, y))
  }

  predicate IsCleared(c: Option<Cell>) { c.Some? && c.value.kind.state.FlCleared? }

  ghost predicate DecideStep(f: File, f': File)
  {
    && |f.starts| > 0 && f.upload.Multi? && f.upload.completion.Open?
    && f.upload.taken == map[] && f.upload.flights == map[]
    && NothingToSend(f)
    && f' == f.(upload := f.upload.(completion := Decided(f.size)))
  }

  /** The final size is fixed under the lock, and with it the parts to copy. */
  ghost predicate CollectStep(f: File, f': File)
  {
    && f.upload.Multi? && f.upload.completion.Decided?
    && f'.upload.Multi? && f'.upload.completion.Collected?
    && var n := f'.upload.completion.numParts;
    && f' == f.(upload := f.upload.(completion := Collected(f.upload.completion.decidedSize, f.size, n, false)))
    && IsPartCount(f.starts, f.size, n)
  }

  ghost predicate CanLand(f: File)
  {
    && f.upload.Multi? && f.upload.completion.Collected? && !f.upload.completion.landed
    && CopiesExist(f.starts, f.upload.parts, f.server, f.upload.completion.finalSize, f.upload.completion.numParts)
  }

  ghost function NewObject(f: File): seq<byte>
    requires CanLand(f)
  {
    var c := f.upload.completion;
    Object(f.starts, f.upload.parts, f.server, c.finalSize, c.numParts, c.numParts)
  }

  /** All copies were made and the commit takes effect on the server. */
  ghost predicate LandStep(f: File, f': File)
  {
    && CanLand(f)
    && f' == f.(server := NewObject(f), upload := f.upload.(completion := f.upload.completion.(landed := true)))
  }

  /** The reply to the commit is processed. */
  ghost predicate CommitStep(f: File, f': File)
  {
    && f.upload.Multi? && f.upload.completion.Collected? && f.upload.completion.landed
    && f' == f.(m := f'.m, known := f.upload.completion.finalSize, cache := f'.cache, upload := Idle)
    && Recached(f, f') && ListOk(f'.m, f'.cur)
    && forall x: int {:trigger CellAt(f'.m, x)} :: CellAt(f'.m, x) == Settled(CellAt(f.m, x))
  }

  /** The parts from `p` to `last` were copied together, under the number of the first. */
  ghost predicate CopiedTo(f: File, p: int, body: seq<byte>, last: int)
    requires f.upload.Multi? && f.upload.completion.Collected?
  {
    && 0 <= p <= last < f.upload.completion.numParts && last < |f.starts| - 1
    && (forall q: int :: p <= q <= last ==> q !in f.upload.parts)
    && var end := PartEnd(f.starts, last, f.upload.completion.finalSize);
    && f.starts[p] <= end <= |f.server| && body == f.server[f.starts[p]..end]
  }

  ghost predicate Copied(f: File, p: int, body: seq<byte>)
    requires f.upload.Multi? && f.upload.completion.Collected?
  {
    exists last: int :: CopiedTo(f, p, body, last)
  }

  /** Completion is given up. Copies made before the commit landed stay in the upload. */
  ghost predicate GiveUpStep(f: File, f': File, copies: Bodies)
  {
    && f.upload.Multi? && !f.upload.completion.Open?
    && (copies != map[] ==> f.upload.completion.Collected? && !f.upload.completion.landed)
    && (forall p: int :: p in copies ==> Copied(f, p, copies[p]))
    && f' == f.(upload := f.upload.(completion := Open, parts := f.upload.parts + copies))
  }

  /** Whichever of the planned copies were made, they are what a completion that gives up leaves. */
  lemma MadeCopies(f: File, ranges: seq<CopyRange>)
    requires Inv(f) && f.upload.Multi? && f.upload.completion.Collected? && InsideServer(f.server, ranges)
    requires IsPlan(f.starts, f.upload.parts, f.upload.completion.finalSize, f.upload.completion.numParts, ranges)
    ensures var copies := WithCopies(map[], f.server, ranges);
            && (forall p: int :: p in copies ==> Copied(f, p, copies[p]))
            && WithCopies(f.upload.parts, f.server, ranges) == f.upload.parts + copies
  {
    hide CellAt, PartOf, OkAt, ListOk, UploadOk, IsCopy, WithCopies, Copied, Boundaries;
    var none: Bodies := map[];
    var copies, left := WithCopies(none, f.server, ranges), WithCopies(f.upload.parts, f.server, ranges);
    forall p: int
      ensures p in copies ==> Copied(f, p, copies[p])
      ensures p in left <==> p in f.upload.parts + copies
      ensures p in left ==> left[p] == (f.upload.parts + copies)[p]
    {
      if i: int :| 0 <= i < |ranges| && ranges[i].part == p {
        CopiedBody(none, f.server, ranges, i);
        CopiedBody(f.upload.parts, f.server, ranges, i);
        MadeCopy(f, ranges[i]);
      } else {
        NotCopied(none, f.server, ranges, p);
        NotCopied(f.upload.parts, f.server, ranges, p);
      }
    }
  }

  lemma MadeCopy(f: File, r: CopyRange)
    requires Boundaries(f.starts) && f.upload.Multi? && f.upload.completion.Collected?
    requires IsCopy(f.starts, f.upload.parts, f.upload.completion.finalSize, f.upload.completion.numParts, r)
    requires r.offset + r.size <= |f.server|
    ensures Copied(f, r.part, f.server[r.offset..r.offset + r.size])
  {
    var c := f.upload.completion;
    var last: int :| CopiesTo(f.starts, f.upload.parts, c.finalSize, c.numParts, r, last);
    assert CopiedTo(f, r.part, f.server[r.offset..r.offset + r.size], last);
  }

  // ----- They keep the invariant, byte by byte -----

  /** A snapshot just taken of part `p` is right about every byte of it. */
  lemma NewFlightAt(f: File, f': File, p: int, s: Snapshot, x: int)
    requires |f.starts| > 0 && f.upload.Multi? && OkAt(f, x) && 0 <= p < |f.starts| - 1 && p in f.upload.taken
    requires f' == f.(upload := f.upload.(taken := f.upload.taken - {p}, flights := f.upload.flights[p := s]))
    requires var c, lo, hi := CellAt(f.m, x), f.starts[p], f.upload.taken[p];
             && |s.body| == hi - lo
             && (c.Some? && c.value.id in s.ids ==> lo <= x < hi && c.value.id != 0)
             && (lo <= x < hi ==> c.Some? && c.value.content == Some(s.body[x - lo]))
    requires f.size <= MaxSize(f.starts) && (InPart(f.starts, p, x) ==> PartOf(f.starts, x) == p)
    requires PartOf(f.starts, x) == p && 0 <= x < MaxSize(f.starts) ==> InPart(f.starts, p, x)
    ensures OkAt(f', x)
  {
    hide CellAt, PartOf;
  }

  lemma PartShotAt(f: File, f': File, p: int, s: Snapshot, x: int)
    requires Inv(f) && PartShotStep(f, f', p, s)
    ensures OkAt(f', x) && IdsWithin(s.ids, f'.cur)
    ensures 0 <= x < f.size ==> ReadByte(f', x) == ReadByte(f, x)
  {
    hide CellAt, PartOf, OkAt, AllKept, ListOk, CollectsIds, UploadOk;
    var f1 := f.(m := f'.m, cur := f'.cur);
    SplitAtKeeps(f, f1, x);
    var lo, hi := f.starts[p], f.upload.taken[p];
    if CellAt(f'.m, x).Some? && CellAt(f'.m, x).value.id in s.ids {
      CollectedInside(f'.m, f'.cur, lo, hi, s.ids, x);
    }
    if lo <= x < hi { assert Readable(f'.m, x) && s.body[x - lo] == ByteAt(f'.m, x); }
    CollectedBound(f'.m, f'.cur, lo, hi, s.ids);
    PartOfUnique(f.starts, p, x);
    NewFlightAt(f1, f', p, s, x);
  }

  lemma PartOfUnique(starts: seq<nat>, p: int, x: int)
    requires Boundaries(starts) && 0 <= p < |starts| - 1
    ensures InPart(starts, p, x) ==> PartOf(starts, x) == p
    ensures PartOf(starts, x) == p && 0 <= x < MaxSize(starts) ==> InPart(starts, p, x)
  {
    PartOfIs(starts, p, x);
  }

  lemma PartDoneAt(f: File, f': File, p: int, x: int)
    requires Inv(f) && PartDoneStep(f, f', p)
    ensures OkAt(f', x)
    ensures 0 <= x < f.size ==> ReadByte(f', x) == ReadByte(f, x)
  {
    hide CellAt, PartOf, ListOk;
    assert OkAt(f, x);
    var s := f.upload.flights[p];
    var lo, hi, state := f.starts[p], f.starts[p] + |s.body|, FlushedState(f.starts, p, s.body);
    var cursor: int :| StateSet(f.m, f'.m, lo, hi, s.ids, state, cursor);
    assert ShotOk(s, f.starts[p], x, CellAt(f.m, x));
    StateSetAt(f.m, f'.m, lo, hi, s.ids, state, cursor, x);
    PartOfUnique(f.starts, p, x);
    UploadedAt(f, f', p, x);
  }

  /** Part `p` arrived: its bytes that kept their ids are flushed, the others were told apart. */
  lemma UploadedAt(f: File, f': File, p: int, x: int)
    requires Boundaries(f.starts) && f.size <= MaxSize(f.starts) && f.upload.Multi? && OkAt(f, x) && UploadOk(f)
    requires p in f.upload.flights && !f.cache.Cached?
    requires f' == f.(m := f'.m, upload := f.upload.(parts := f.upload.parts[p := f.upload.flights[p].body],
                                                      flights := f.upload.flights - {p}))
    requires var c, s := CellAt(f.m, x), f.upload.flights[p];
             CellAt(f'.m, x) == if c.Some? && c.value.id in s.ids
                                then Some(CellInState(c.value, FlushedState(f.starts, p, s.body))) else c
    requires InPart(f.starts, p, x) ==> PartOf(f.starts, x) == p
    requires PartOf(f.starts, x) == p && 0 <= x < MaxSize(f.starts) ==> InPart(f.starts, p, x)
    ensures OkAt(f', x)
    ensures 0 <= x < f.size ==> ReadByte(f', x) == ReadByte(f, x)
  {
    hide CellAt, PartOf, Boundaries;
    var c, s := CellAt(f.m, x), f.upload.flights[p];
    assert ShotOk(s, f.starts[p], x, c);
    if c.Some? && c.value.id in s.ids {
      assert InPart(f.starts, p, x) && x < f.size;
    }
  }

  // ----- Completing a multipart upload -----

  /** When nothing is left to send, every uploaded part reaches to its end in the file. */
  lemma UploadedPartReaches(f: File, p: int)
    requires Inv(f) && f.upload.Multi? && NothingToSend(f) && p in f.upload.parts
    ensures 0 <= p < |f.starts| - 1 && PartEnd(f.starts, p, f.size) <= f.starts[p] + |f.upload.parts[p]| <= f.size
  {
    hide CellAt, PartOf;
    var x := f.starts[p] + |f.upload.parts[p]|;
    if x < PartEnd(f.starts, p, f.size) {
      PartOfUnique(f.starts, p, x);
      UnsentByte(f, p, x);
      var y: int :| InPart(f.starts, PartOf(f.starts, x), y) && y < f.size && IsCleared(CellAt(f.m, y));
      PartOfUnique(f.starts, p, y);
      ClearedIsFull(f, p, y);
      assert false;
    }
  }

  /** When nothing is left to send, the object has every part that was not uploaded. */
  lemma UnsentPartExists(f: File, p: int)
    requires Inv(f) && f.upload.Multi? && NothingToSend(f)
    requires 0 <= p < |f.starts| - 1 && f.starts[p] < f.size && p !in f.upload.parts
    ensures PartEnd(f.starts, p, f.size) <= |f.server|
  {
    hide CellAt, PartOf;
    var x := PartEnd(f.starts, p, f.size) - 1;
    assert f.starts[p] < f.starts[p + 1];
    PartOfUnique(f.starts, p, x);
    assert OkAt(f, x);
    if IsDirty(CellAt(f.m, x)) {
      var y: int :| InPart(f.starts, PartOf(f.starts, x), y) && y < f.size && IsCleared(CellAt(f.m, y));
      PartOfUnique(f.starts, p, y);
      ClearedIsFull(f, p, y);
    }
  }

  /** A byte of the file past the end of its uploaded part is dirty. */
  lemma UnsentByte(f: File, p: int, x: int)
    requires Inv(f) && f.upload.Multi? && p in f.upload.parts && 0 <= x < f.size && PartOf(f.starts, x) == p
    requires PartByte(f.starts, f.upload.parts, p, x).None?
    ensures IsDirty(CellAt(f.m, x))
  {
    hide CellAt, PartOf;
    assert OkAt(f, x);
  }

  lemma ClearedIsFull(f: File, p: int, y: int)
    requires Inv(f) && f.upload.Multi? && PartOf(f.starts, y) == p && IsCleared(CellAt(f.m, y))
    ensures p in f.upload.parts && IsFull(f.starts, p, f.upload.parts[p])
  {
    hide CellAt, PartOf;
    assert OkAt(f, y);
  }

  /** The object has every range to copy exactly when all that reaches past it was uploaded. */
  lemma CopiesExistForFile(f: File)
    requires Inv(f) && f.upload.Multi? && f.upload.completion.Collected?
    ensures var c := f.upload.completion;
            CopiesExist(f.starts, f.upload.parts, f.server, c.finalSize, c.numParts) <==>
            NewBytesUploaded(f.starts, f.upload.parts, f.server, c.finalSize)
  {
    CopiesExistExactly(f.starts, f.upload.parts, f.server, f.upload.completion.finalSize, f.upload.completion.numParts);
  }

  /** If the file did not grow between the decision and the final size, every copy exists. */
  lemma DecidedCopiesExist(f: File)
    requires Inv(f) && f.upload.Multi? && f.upload.completion.Collected? && !f.upload.completion.landed
    requires f.upload.completion.decidedSize == f.upload.completion.finalSize
    ensures CanLand(f)
  {
    hide CellAt, PartOf, ListOk, OkAt;
    var c := f.upload.completion;
    forall p: int | 0 <= p < c.numParts && p !in f.upload.parts
      ensures PartEnd(f.starts, p, c.finalSize) <= |f.server| {
      PartHasBytes(f.starts, c.finalSize, c.numParts, p);
    }
  }

  /** If no part without an upload holds a dirty byte, the old object has every range to copy. */
  lemma CleanPartsCanBeCopied(f: File)
    requires Inv(f) && f.upload.Multi? && f.upload.completion.Collected?
    requires forall x: int {:trigger CellAt(f.m, x)} ::
               0 <= x < f.upload.completion.finalSize && IsDirty(CellAt(f.m, x)) ==>
                 PartOf(f.starts, x) in f.upload.parts
    ensures CopiesExist(f.starts, f.upload.parts, f.server, f.upload.completion.finalSize, f.upload.completion.numParts)
  {
    hide CellAt, PartOf, ListOk, OkAt, UploadOk;
    var c := f.upload.completion;
    CollectedInFile(f);
    forall p: int | 0 <= p < c.numParts && p !in f.upload.parts
      ensures PartEnd(f.starts, p, c.finalSize) <= |f.server| {
      PartHasBytes(f.starts, c.finalSize, c.numParts, p);
      CleanPartEnds(f, p, PartEnd(f.starts, p, c.finalSize) - 1);
    }
  }

  lemma CollectedInFile(f: File)
    requires Inv(f) && f.upload.Multi? && f.upload.completion.Collected?
    ensures f.upload.completion.finalSize <= f.size
    ensures IsPartCount(f.starts, f.upload.completion.finalSize, f.upload.completion.numParts)
  {
  }

  /** A byte that is not dirty and whose part was not uploaded is the server's. */
  lemma CleanPartEnds(f: File, p: int, x: int)
    requires Inv(f) && f.upload.Multi? && InPart(f.starts, p, x) && x < f.size && p !in f.upload.parts
    requires IsDirty(CellAt(f.m, x)) ==> PartOf(f.starts, x) in f.upload.parts
    ensures x < |f.server|
  {
    hide CellAt, PartOf, ListOk, FlightOk, UploadOk, TakenOk;
    PartOfIs(f.starts, p, x);
    assert OkAt(f, x);
  }

  /** The new object has every byte that is not dirty, whatever was written during the upload. */
  lemma CommittedByte(f: File, x: int)
    requires Inv(f) && CanLand(f) && NoneMerged(f.starts, f.upload.parts) && 0 <= x < f.size && !IsDirty(CellAt(f.m, x))
    ensures ByteIn(NewObject(f), x).Some? && ByteIn(NewObject(f), x) == ReadByte(f, x)
    ensures IsFlushed(CellAt(f.m, x)) ==>
            ByteIn(NewObject(f), x) == PartByte(f.starts, f.upload.parts, PartOf(f.starts, x), x)
    ensures FromServer(CellAt(f.m, x)) ==> ByteIn(NewObject(f), x) == ByteIn(f.server, x)
  {
    hide CellAt, PartOf, Object, ListOk, CopiesExist, PartsReach, PartsCover, NoneMerged, Copyable, FlightOk;
    assert OkAt(f, x);
    var p, c := PartOf(f.starts, x), f.upload.completion;
    CoverReach(f.starts, f.upload.parts, c.decidedSize);
    PartOfIs(f.starts, p, x);
    ObjectByte(f.starts, f.upload.parts, f.server, c.finalSize, c.numParts, c.decidedSize, p, x);
  }

  lemma LandAt(f: File, f': File, x: int)
    requires Inv(f) && LandStep(f, f') && NoneMerged(f.starts, f.upload.parts)
    ensures OkAt(f', x)
    ensures 0 <= x < f.size ==> ReadByte(f', x) == ReadByte(f, x)
  {
    hide CellAt, PartOf, ListOk, NewObject, UploadOk, CopiesExist, NoneMerged;
    assert OkAt(f, x);
    NothingInFlight(f);
    if 0 <= x < f.size && !IsDirty(CellAt(f.m, x)) { CommittedByte(f, x); }
  }

  lemma NothingInFlight(f: File)
    requires Inv(f) && f.upload.Multi? && !f.upload.completion.Open?
    ensures f.upload.taken == map[] && f.upload.flights == map[]
  {
  }

  /** If the file did not grow after the decision, the new object is as long as the file then was. */
  lemma LandSize(f: File)
    requires Inv(f) && f.upload.Multi? && f.upload.completion.Collected? && !f.upload.completion.landed
    requires f.upload.completion.decidedSize == f.upload.completion.finalSize && NoneMerged(f.starts, f.upload.parts)
    ensures CanLand(f) && |NewObject(f)| == f.upload.completion.finalSize
  {
    hide CellAt, PartOf, ListOk, Object, OkAt, NoneMerged;
    var c := f.upload.completion;
    DecidedCopiesExist(f);
    CoverReach(f.starts, f.upload.parts, c.decidedSize);
    ObjectSize(f.starts, f.upload.parts, f.server, c.finalSize, c.numParts, c.decidedSize);
  }

  /** A commit puts every part where the file has it exactly when no merged copy is left in the upload. */
  lemma LandInPlace(f: File)
    requires Inv(f) && CanLand(f)
    ensures var c := f.upload.completion;
            InPlace(f.starts, f.upload.parts, f.server, c.finalSize, c.numParts, c.decidedSize) <==>
            NoneMerged(f.starts, f.upload.parts)
  {
    hide CellAt, PartOf, ListOk, OkAt, InPlace, NoneMerged, CopiesExist, PartsCover;
    var c := f.upload.completion;
    InPlaceExactly(f.starts, f.upload.parts, f.server, c.finalSize, c.numParts, c.decidedSize);
  }

  lemma CommitAt(f: File, f': File, x: int)
    requires Inv(f) && CommitStep(f, f')
    ensures OkAt(f', x)
    ensures 0 <= x < f.size ==> ReadByte(f', x) == ReadByte(f, x)
  {
    hide CellAt, PartOf, ListOk;
    assert OkAt(f, x);
    assert CellAt(f'.m, x) == Settled(CellAt(f.m, x));
    if f'.cache.Cached? { NotStillDirtyAt(f', x); }
  }

  /** With nothing left dirty the new object is as long as the file. */
  lemma CommitSize(f: File, f': File)
    requires Inv(f) && CommitStep(f, f') && f'.cache.Cached?
    ensures |f'.server| == f'.size
  {
    hide CellAt, PartOf, ListOk;
    var x := f.upload.completion.decidedSize;
    assert OkAt(f, x);
    NotStillDirtyAt(f', x);
  }

  lemma GiveUpAt(f: File, f': File, copies: Bodies, x: int)
    requires Inv(f) && GiveUpStep(f, f', copies)
    ensures OkAt(f', x)
    ensures 0 <= x < f.size ==> ReadByte(f', x) == ReadByte(f, x)
  {
    hide CellAt, PartOf, ListOk, Copied, UploadOk;
    assert OkAt(f, x);
    var p := PartOf(f.starts, x);
    PartOfIs(f.starts, p, x);
    if p in copies { CopiedByte(f, p, copies[p], x); }
  }

  /** A copy has the object's byte wherever the file has no newer one. */
  lemma CopiedByte(f: File, p: int, body: seq<byte>, x: int)
    requires Inv(f) && f.upload.Multi? && f.upload.completion.Collected? && Copied(f, p, body)
    ensures p !in f.upload.parts
    ensures 0 <= x < f.size && FromServer(CellAt(f.m, x)) && InPart(f.starts, p, x) ==>
              ByteIn(body, x - f.starts[p]) == ByteIn(f.server, x)
  {
    hide CellAt, PartOf, ListOk, UploadOk, OkAt;
    var last: int :| CopiedTo(f, p, body, last);
    assert p < last ==> f.starts[p + 1] <= f.starts[last];
    assert f.starts[last] < f.starts[last + 1];
    if 0 <= x < f.size && FromServer(CellAt(f.m, x)) { BelowFinal(f, x); }
  }

  /** What was appended since the decision to complete is dirty. */
  lemma BelowFinal(f: File, x: int)
    requires Inv(f) && f.upload.Multi? && f.upload.completion.Collected? && 0 <= x < f.size
    requires FromServer(CellAt(f.m, x))
    ensures x < f.upload.completion.decidedSize <= f.upload.completion.finalSize
  {
    hide CellAt, PartOf, ListOk, PartOk, FlightOk, TakenOk, ServerOk;
    assert OkAt(f, x);
  }
}
