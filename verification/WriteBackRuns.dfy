/**
 Whole runs of one file. Whatever order writers, readers, eviction and flushes take, a
 reader sees exactly what the writes and resizes made, and a file that counts as cached
 equals the object on the server.
 */
module WriteBackRuns {
  import opened Options
  import opened FileBuffers
  import opened BufferChanges
  import opened BufferReads
  import opened PartSizes
  import opened MultipartObject
  import opened WriteBack

  datatype Op =
    | Write(offset: nat, data: seq<byte>)
    | Zero(offset: nat, size: nat)
    | Resize(size: nat)
    | Fill(offset: nat, data: seq<byte>)
    | MarkLoading(from: nat, count: nat)
    | DropLoading(from: nat, count: nat)
    | Evict(key: int)
    | SplitBuffers
    | SmallLock
    | SmallShot(shot: Snapshot)
    | SmallLand
    | SmallDone
    | SmallFail
    | Begin
    | PartTake(part: int)
    | PartDrop(part: int)
    | PartShot(part: int, shot: Snapshot)
    | PartDone(part: int)
    | PartFail(part: int)
    | Decide
    | Collect
    | Land
    | Commit
    | GiveUp(copies: Bodies)

  ghost predicate Step(f: File, f': File, op: Op)
  {
    match op
    case Write(offset, data) => WriteStep(f, f', offset, data)
    case Zero(offset, size) => ZeroStep(f, f', offset, size)
    case Resize(size) => ResizeStep(f, f', size)
    case Fill(offset, data) => FillStep(f, f', offset, data)
    case MarkLoading(from, count) => MarkLoadingStep(f, f', from, count)
    case DropLoading(from, count) => DropLoadingStep(f, f', from, count)
    case Evict(key) => EvictStep(f, f', key)
    case SplitBuffers => SplitStep(f, f')
    case SmallLock => SmallLockStep(f, f')
    case SmallShot(shot) => SmallShotStep(f, f', shot)
    case SmallLand => SmallLandStep(f, f')
    case SmallDone => SmallDoneStep(f, f')
    case SmallFail => SmallFailStep(f, f')
    case Begin => BeginStep(f, f')
    case PartTake(part) => PartTakeStep(f, f', part)
    case PartDrop(part) => PartDropStep(f, f', part)
    case PartShot(part, shot) => PartShotStep(f, f', part, shot)
    case PartDone(part) => PartDoneStep(f, f', part)
    case PartFail(part) => PartFailStep(f, f', part)
    case Decide => DecideStep(f, f')
    case Collect => CollectStep(f, f')
    case Land => LandStep(f, f')
    case Commit => CommitStep(f, f')
    case GiveUp(copies) => GiveUpStep(f, f', copies)
  }

  /**
   What the source does not check: that a response has the object's bytes, that a cut leaves the
   uploaded parts whole, and that no merged copy is left in the upload that is committed.
   */
  ghost predicate Harmless(f: File, op: Op)
  {
    match op
    case Fill(offset, data) => Agrees(f, offset, data)
    case Resize(size) => size < f.size ==> CutFits(f, size)
    case Land => f.upload.Multi? ==> NoneMerged(f.starts, f.upload.parts)
    case _ => true
  }

  // ----- The file as a plain sequence of bytes -----

  function Padded(bytes: seq<byte>, size: nat): (r: seq<byte>)
    ensures |r| == if |bytes| < size then size else |bytes|
  {
    if |bytes| < size then bytes + seq(size - |bytes|, _ => 0 as byte) else bytes
  }

  function Written(bytes: seq<byte>, offset: nat, data: seq<byte>): seq<byte>
    requires offset + |data| <= |bytes|
  {
    bytes[..offset] + data + bytes[offset + |data|..]
  }

  /** Only writes, zero-filling and resizes change what a reader sees. */
  function After(bytes: seq<byte>, op: Op): seq<byte>
  {
    match op
    case Write(offset, data) => Written(Padded(bytes, offset + |data|), offset, data)
    case Zero(offset, size) => if offset + size <= |bytes| then Written(bytes, offset, Zeros(size)) else bytes
    case Resize(size) => if size < |bytes| then bytes[..size] else Padded(bytes, size)
    case _ => bytes
  }

  function Replay(bytes: seq<byte>, ops: seq<Op>): seq<byte>
  {
    if ops == [] then bytes else After(Replay(bytes, ops[..|ops| - 1]), ops[|ops| - 1])
  }

  // ----- Every step keeps the invariant and the contents -----

  ghost predicate SameBytes(f: File, f': File)
    requires |f.starts| > 0 && |f'.starts| > 0
  {
    f'.size == f.size && forall x: int {:trigger ReadByte(f', x)} :: 0 <= x < f.size ==>
      ReadByte(f', x) == ReadByte(f, x)
  }

  lemma SameBytesShow(f: File, f': File, bytes: seq<byte>)
    requires Inv(f) && Inv(f') && SameBytes(f, f') && Shows(f, bytes)
    ensures Shows(f', bytes)
  {
    hide ReadByte, CellAt, OkAt;
    forall x: int {:trigger bytes[x]} {:trigger ReadByte(f', x)} | 0 <= x < f.size
      ensures ReadByte(f', x) == Some(bytes[x]) {
      assert ReadByte(f', x) == ReadByte(f, x);
    }
  }

  /** An upload stays in order while the file only grows, or is cut where nothing is being sent. */
  lemma UploadKept(f: File, f': File)
    requires Boundaries(f.starts) && UploadOk(f) && SameButList(f, f')
    ensures UploadOk(f')
  {
    hide PartsOk, TakenPartsOk, FlightsOk, CompletionOk, Boundaries;
    if f.upload.Multi? {
      PartsKept(f, f');
      TakenKept(f, f');
      FlightsKept(f, f');
      CompletionKept(f, f');
    }
  }

  lemma PartsKept(f: File, f': File)
    requires f.upload.Multi? && PartsOk(f) && SameButList(f, f')
    ensures PartsOk(f')
  {
    hide CutUnlocked;
  }

  /** A part that is being flushed ends where it did: the file only grows, or is cut behind it. */
  lemma PartEndKept(f: File, f': File, p: int)
    requires f.upload.Multi? && (p in f.upload.taken || p in f.upload.flights) && SameButList(f, f')
    requires 0 <= p < |f.starts| - 1 && f.starts[p] < f.starts[p + 1] && f.starts[p] < f.size
    ensures f.starts[p] < f'.size && PartEnd(f.starts, p, f.size) <= PartEnd(f.starts, p, f'.size)
  {
    hide CutFits;
  }

  lemma TakenKept(f: File, f': File)
    requires Boundaries(f.starts) && f.upload.Multi? && TakenPartsOk(f) && SameButList(f, f')
    ensures TakenPartsOk(f')
  {
    hide CutUnlocked, CutFits, PartEnd, IsFull, Boundaries;
    forall p: int | p in f.upload.taken
      ensures 0 <= p < |f.starts| - 1 && PartEnd(f.starts, p, f.size) <= PartEnd(f.starts, p, f'.size)
    {
      StartsGrow(f.starts, p);
      PartEndInside(f, p);
      PartEndKept(f, f', p);
    }
  }

  lemma PartEndInside(f: File, p: int)
    requires 0 <= p < |f.starts| - 1 && f.starts[p] < PartEnd(f.starts, p, f.size)
    ensures f.starts[p] < f.size
  {
  }

  lemma FlightsKept(f: File, f': File)
    requires Boundaries(f.starts) && f.upload.Multi? && FlightsOk(f) && SameButList(f, f')
    ensures FlightsOk(f')
  {
    hide CutUnlocked, CutFits, PartEnd, IsFull, Boundaries;
    forall p: int | p in f.upload.flights
      ensures 0 <= p < |f.starts| - 1 && f.starts[p] < f'.size
      ensures PartEnd(f.starts, p, f.size) <= PartEnd(f.starts, p, f'.size)
    {
      StartsGrow(f.starts, p);
      PartEndKept(f, f', p);
    }
  }

  lemma CompletionKept(f: File, f': File)
    requires f.upload.Multi? && CompletionOk(f) && SameButList(f, f')
    ensures CompletionOk(f')
  {
    hide PartsCover, Copyable, IsPartCount;
  }

  lemma GrowKeeps(f: File, f': File)
    requires Inv(f) && f.size < f'.size <= MaxSize(f.starts) && SameButList(f, f') && !f'.cache.Cached?
    requires ListOk(f'.m, f'.cur) && ZeroFilled(f.m, f.cur, f'.m, f'.cur, f.size, f'.size)
    ensures Inv(f')
    ensures forall x: int {:trigger ReadByte(f', x)} :: 0 <= x < f'.size ==>
              ReadByte(f', x) == if x < f.size then ReadByte(f, x) else Some(0)
  {
    GrowthZeroes(f, f'.m, f'.cur, f'.size);
    hide OkAt, ReadByte, CellAt, ListOk, ZeroFilled, Zeroed;
    UploadKept(f, f');
    forall x: int {:trigger OkAt(f', x)} {:trigger ReadByte(f', x)}
      ensures OkAt(f', x) && (0 <= x < f'.size ==> ReadByte(f', x) == if x < f.size then ReadByte(f, x) else Some(0))
    {
      GrowAt(f, f', x);
    }
  }

  lemma AddDirtyKeeps(f: File, f': File, offset: nat, data: seq<byte>)
    requires Inv(f) && SameButList(f, f') && f'.size == f.size && !f'.cache.Cached? && offset + |data| <= f.size
    requires ListOk(f'.m, f'.cur) && Added(f.m, f'.m, f.cur, offset, data, Dirty)
    ensures Inv(f')
    ensures forall x: int {:trigger ReadByte(f', x)} :: 0 <= x < f.size ==>
              ReadByte(f', x) == if offset <= x < offset + |data| then Some(data[x - offset]) else ReadByte(f, x)
  {
    hide OkAt, ReadByte, CellAt, ListOk, Added;
    UploadKept(f, f');
    forall x: int {:trigger OkAt(f', x)} {:trigger ReadByte(f', x)}
      ensures OkAt(f', x)
      ensures 0 <= x < f.size ==>
                ReadByte(f', x) == if offset <= x < offset + |data| then Some(data[x - offset]) else ReadByte(f, x)
    {
      AddDirtyAt(f, f', offset, data, x);
    }
  }

  lemma CutKeeps(f: File, f': File)
    requires Inv(f) && ResizeStep(f, f', f'.size) && f'.size < f.size && CutFits(f, f'.size)
    ensures Inv(f')
    ensures forall x: int {:trigger ReadByte(f', x)} :: 0 <= x < f'.size ==> ReadByte(f', x) == ReadByte(f, x)
  {
    hide OkAt, ReadByte, CellAt, ListOk, Erased;
    UploadKept(f, f');
    forall x: int {:trigger OkAt(f', x)} {:trigger ReadByte(f', x)}
      ensures OkAt(f', x) && (0 <= x < f'.size ==> ReadByte(f', x) == ReadByte(f, x))
    {
      CutAwayAt(f, f', x);
    }
  }

  /** A cut keeps the upload in order exactly when no uploaded part reaches past it. */
  lemma CutExactly(f: File, f': File)
    requires Inv(f) && ResizeStep(f, f', f'.size) && f'.size < f.size
    ensures CutFits(f, f'.size) <==> Inv(f')
  {
    hide OkAt, ReadByte, CellAt, ListOk, Erased;
    if CutFits(f, f'.size) { CutKeeps(f, f'); }
  }

  lemma FillKeeps(f: File, f': File, offset: nat, data: seq<byte>)
    requires Inv(f) && FillStep(f, f', offset, data) && Agrees(f, offset, data)
    ensures Inv(f') && SameBytes(f, f')
  {
    hide OkAt, ReadByte, CellAt, ListOk, Added, Agrees;
    UploadKept(f, f');
    forall x: int {:trigger OkAt(f', x)} {:trigger ReadByte(f', x)}
      ensures OkAt(f', x) && (0 <= x < f.size ==> ReadByte(f', x) == ReadByte(f, x))
    {
      FillAt(f, f', offset, data, x);
    }
  }

  /** A response changes nothing a reader sees exactly when it agrees with the object where it has to. */
  lemma FillExactly(f: File, f': File, offset: nat, data: seq<byte>)
    requires Inv(f) && FillStep(f, f', offset, data)
    ensures Agrees(f, offset, data) <==> SameBytes(f, f')
    ensures Agrees(f, offset, data) ==> Inv(f')
  {
    hide OkAt, ReadByte, CellAt, ListOk, Added;
    if Agrees(f, offset, data) { FillKeeps(f, f', offset, data); }
    if SameBytes(f, f') {
      forall x: int | offset <= x < offset + |data| && x < f.size && FromServer(CellAt(f.m, x))
        ensures ByteIn(f.server, x) == Some(data[x - offset])
      {
        FillWrongAt(f, f', offset, data, x);
      }
    }
  }

  lemma MarkLoadingKeeps(f: File, f': File, from: nat, count: nat)
    requires Inv(f) && MarkLoadingStep(f, f', from, count)
    ensures Inv(f') && SameBytes(f, f')
  {
    hide OkAt, ReadByte, CellAt, ListOk, Marked;
    UploadKept(f, f');
    forall x: int {:trigger OkAt(f', x)} {:trigger ReadByte(f', x)}
      ensures OkAt(f', x) && (0 <= x < f.size ==> ReadByte(f', x) == ReadByte(f, x))
    {
      MarkLoadingAt(f, f', from, count, x);
    }
  }

  lemma DropLoadingKeeps(f: File, f': File, from: nat, count: nat)
    requires Inv(f) && DropLoadingStep(f, f', from, count)
    ensures Inv(f') && SameBytes(f, f')
  {
    hide OkAt, ReadByte, CellAt, ListOk, Erased;
    UploadKept(f, f');
    forall x: int {:trigger OkAt(f', x)} {:trigger ReadByte(f', x)}
      ensures OkAt(f', x) && (0 <= x < f.size ==> ReadByte(f', x) == ReadByte(f, x))
    {
      DropLoadingAt(f, f', from, count, x);
    }
  }

  lemma EvictKeeps(f: File, f': File, key: int)
    requires Inv(f) && EvictStep(f, f', key)
    ensures Inv(f') && SameBytes(f, f')
  {
    hide OkAt, ReadByte, CellAt, ListOk, EvictedAt, RangeLocked;
    UploadKept(f, f');
    forall x: int {:trigger OkAt(f', x)} {:trigger ReadByte(f', x)}
      ensures OkAt(f', x) && (0 <= x < f.size ==> ReadByte(f', x) == ReadByte(f, x))
    {
      EvictAt(f, f', key, x);
    }
  }

  lemma SplitBuffersKeeps(f: File, f': File)
    requires Inv(f) && SplitStep(f, f')
    ensures Inv(f') && SameBytes(f, f')
  {
    hide OkAt, ReadByte, CellAt, ListOk, AllKept;
    UploadKept(f, f');
    forall x: int {:trigger OkAt(f', x)} {:trigger ReadByte(f', x)}
      ensures OkAt(f', x) && (0 <= x < f.size ==> ReadByte(f', x) == ReadByte(f, x))
    {
      SplitAtKeeps(f, f', x);
    }
  }

  lemma SmallShotKeeps(f: File, f': File, shot: Snapshot)
    requires Inv(f) && SmallShotStep(f, f', shot)
    ensures Inv(f') && SameBytes(f, f')
  {
    hide OkAt, ReadByte, CellAt, ListOk;
    SmallShotAt(f, f', shot, 0);
    forall x: int {:trigger OkAt(f', x)} {:trigger ReadByte(f', x)}
      ensures OkAt(f', x) && (0 <= x < f.size ==> ReadByte(f', x) == ReadByte(f, x))
    {
      SmallShotAt(f, f', shot, x);
    }
  }

  lemma SmallLandKeeps(f: File, f': File)
    requires Inv(f) && SmallLandStep(f, f')
    ensures Inv(f') && SameBytes(f, f')
  {
    hide OkAt, ReadByte, CellAt, ListOk;
    forall x: int {:trigger OkAt(f', x)} {:trigger ReadByte(f', x)}
      ensures OkAt(f', x) && (0 <= x < f.size ==> ReadByte(f', x) == ReadByte(f, x))
    {
      SmallLandAt(f, f', x);
    }
  }

  lemma SmallDoneKeeps(f: File, f': File)
    requires Inv(f) && SmallDoneStep(f, f')
    ensures Inv(f') && SameBytes(f, f')
  {
    hide OkAt, ReadByte, CellAt, ListOk, StateSet;
    forall x: int {:trigger OkAt(f', x)} {:trigger ReadByte(f', x)}
      ensures OkAt(f', x) && (0 <= x < f.size ==> ReadByte(f', x) == ReadByte(f, x))
    {
      SmallDoneAt(f, f', x);
    }
  }

  lemma PartShotKeeps(f: File, f': File, part: int, shot: Snapshot)
    requires Inv(f) && PartShotStep(f, f', part, shot)
    ensures Inv(f') && SameBytes(f, f')
  {
    hide OkAt, ReadByte, CellAt, ListOk, UploadOk, Collects;
    PartShotAt(f, f', part, shot, 0);
    ShotUpload(f, f', part, shot);
    forall x: int {:trigger OkAt(f', x)} {:trigger ReadByte(f', x)}
      ensures OkAt(f', x) && (0 <= x < f.size ==> ReadByte(f', x) == ReadByte(f, x))
    {
      PartShotAt(f, f', part, shot, x);
    }
  }

  lemma ShotUpload(f: File, f': File, part: int, shot: Snapshot)
    requires Inv(f) && PartShotStep(f, f', part, shot) && IdsWithin(shot.ids, f'.cur)
    ensures UploadOk(f') && ListOk(f'.m, f'.cur)
  {
    hide OkAt, CellAt, ListOk, AllKept, Boundaries, CollectsIds, BoundaryAt, Holds, PartsOk, TakenPartsOk, FlightsOk,
         CompletionOk, IdsWithin;
    ShotParts(f, f', part, shot);
    ShotFlights(f, f', part, shot);
    CompletionOpen(f, f');
  }

  lemma ShotParts(f: File, f': File, part: int, shot: Snapshot)
    requires f.upload.Multi? && PartsOk(f) && TakenPartsOk(f)
    requires f'.upload == WithFlight(f.upload, part, shot) && f'.starts == f.starts && f'.size == f.size
    ensures PartsOk(f') && TakenPartsOk(f')
  {
    hide PartEnd, IsFull;
  }

  lemma ShotFlights(f: File, f': File, part: int, shot: Snapshot)
    requires f.upload.Multi? && TakenPartsOk(f) && FlightsOk(f) && part in f.upload.taken && f.cur <= f'.cur
    requires f'.upload == WithFlight(f.upload, part, shot) && f'.starts == f.starts && f'.size == f.size
    requires IdsWithin(shot.ids, f'.cur) && 0 <= part < |f.starts| - 1
    requires f.starts[part] + |shot.body| == f.upload.taken[part]
    ensures FlightsOk(f')
  {
  }

  /** While the upload is open, nothing is to be said about its completion. */
  lemma CompletionOpen(f: File, f': File)
    requires f.upload.Multi? && f.upload.completion.Open? && f'.upload.Multi? && f'.upload.completion.Open?
    ensures CompletionOk(f')
  {
  }

  lemma PartDoneKeeps(f: File, f': File, part: int)
    requires Inv(f) && PartDoneStep(f, f', part)
    ensures Inv(f') && SameBytes(f, f')
  {
    hide OkAt, ReadByte, CellAt, ListOk, PartStateSet, UploadOk;
    DoneUpload(f, f', part);
    forall x: int {:trigger OkAt(f', x)} {:trigger ReadByte(f', x)}
      ensures OkAt(f', x) && (0 <= x < f.size ==> ReadByte(f', x) == ReadByte(f, x))
    {
      PartDoneAt(f, f', part, x);
    }
  }

  lemma DoneUpload(f: File, f': File, part: int)
    requires Inv(f) && PartDoneStep(f, f', part)
    ensures UploadOk(f') && (f.cache.Cached? ==> f'.upload.Idle?)
  {
    hide OkAt, CellAt, ListOk, PartStateSet, Boundaries, PartsCover, Copyable, IsPartCount, IdsWithin;
    assert part in f.upload.flights && !f.upload.Idle?;
  }

  lemma LandKeeps(f: File, f': File)
    requires Inv(f) && LandStep(f, f') && NoneMerged(f.starts, f.upload.parts)
    ensures Inv(f') && SameBytes(f, f')
  {
    hide OkAt, ReadByte, CellAt, ListOk, NewObject, CopiesExist, UploadOk, NoneMerged;
    LandUpload(f, f');
    forall x: int {:trigger OkAt(f', x)} {:trigger ReadByte(f', x)}
      ensures OkAt(f', x) && (0 <= x < f.size ==> ReadByte(f', x) == ReadByte(f, x))
    {
      LandAt(f, f', x);
    }
  }

  lemma LandUpload(f: File, f': File)
    requires Inv(f) && LandStep(f, f') && NoneMerged(f.starts, f.upload.parts)
    ensures UploadOk(f')
  {
    hide OkAt, CellAt, ListOk, NewObject, CopiesExist, NoneMerged, PartsCover, Copyable, Boundaries, PartEnd, IdsWithin;
    if f.upload.completion.decidedSize == f.upload.completion.finalSize { LandSize(f); }
  }

  lemma CommitKeeps(f: File, f': File)
    requires Inv(f) && CommitStep(f, f')
    ensures Inv(f') && SameBytes(f, f')
  {
    hide OkAt, ReadByte, CellAt, ListOk;
    if f'.cache.Cached? { CommitSize(f, f'); }
    forall x: int {:trigger OkAt(f', x)} {:trigger ReadByte(f', x)}
      ensures OkAt(f', x) && (0 <= x < f.size ==> ReadByte(f', x) == ReadByte(f, x))
    {
      CommitAt(f, f', x);
    }
  }

  lemma GiveUpKeeps(f: File, f': File, copies: Bodies)
    requires Inv(f) && GiveUpStep(f, f', copies)
    ensures Inv(f') && SameBytes(f, f')
  {
    hide OkAt, ReadByte, CellAt, ListOk, UploadOk, Copied;
    GiveUpUpload(f, f', copies);
    forall x: int {:trigger OkAt(f', x)} {:trigger ReadByte(f', x)}
      ensures OkAt(f', x) && (0 <= x < f.size ==> ReadByte(f', x) == ReadByte(f, x))
    {
      GiveUpAt(f, f', copies, x);
    }
  }

  lemma GiveUpUpload(f: File, f': File, copies: Bodies)
    requires Inv(f) && GiveUpStep(f, f', copies)
    ensures UploadOk(f')
  {
    hide OkAt, CellAt, ListOk, Copied, Boundaries, PartsCover, Copyable, IsPartCount;
    forall p: int | p in copies ensures 0 <= p < |f.starts| - 1 && f.starts[p] + |copies[p]| <= f.size {
      CopyInside(f, p, copies[p]);
    }
  }

  lemma CopyInside(f: File, p: int, body: seq<byte>)
    requires f.upload.Multi? && f.upload.completion.Collected? && f.upload.completion.finalSize <= f.size
    requires Copied(f, p, body)
    ensures 0 <= p < |f.starts| - 1 && f.starts[p] + |body| <= f.size
  {
  }

  /** Steps that only note how far a flush is. */
  ghost predicate NoteStep(f: File, f': File)
  {
    SmallLockStep(f, f') || SmallFailStep(f, f') || BeginStep(f, f') || CollectStep(f, f')
  }

  lemma NoteKeeps(f: File, f': File)
    requires Inv(f) && NoteStep(f, f')
    ensures Inv(f') && SameBytes(f, f')
  {
    hide OkAt, ReadByte, CellAt, ListOk, UploadOk;
    NoteUpload(f, f');
    forall x: int {:trigger OkAt(f', x)} {:trigger ReadByte(f', x)}
      ensures OkAt(f', x) && (0 <= x < f.size ==> ReadByte(f', x) == ReadByte(f, x))
    {
      NoteAt(f, f', x);
    }
  }

  lemma NoteUpload(f: File, f': File)
    requires Inv(f) && NoteStep(f, f')
    ensures UploadOk(f')
  {
    hide OkAt, CellAt, ListOk, PartsCover, Copyable, Boundaries, PartEnd, IdsWithin;
  }

  lemma NoteAt(f: File, f': File, x: int)
    requires Inv(f) && NoteStep(f, f')
    ensures OkAt(f', x) && (0 <= x < f.size ==> ReadByte(f', x) == ReadByte(f, x))
  {
    hide CellAt, ListOk, UploadOk, PartOf;
    assert OkAt(f, x);
  }

  lemma PartTakeKeeps(f: File, f': File, part: int)
    requires Inv(f) && PartTakeStep(f, f', part)
    ensures Inv(f') && SameBytes(f, f')
  {
    hide OkAt, ReadByte, CellAt, ListOk, UploadOk;
    TakeUpload(f, f', part);
    forall x: int {:trigger OkAt(f', x)} {:trigger ReadByte(f', x)}
      ensures OkAt(f', x) && (0 <= x < f.size ==> ReadByte(f', x) == ReadByte(f, x))
    {
      TakeAt(f, f', part, x);
    }
  }

  lemma TakeUpload(f: File, f': File, part: int)
    requires Inv(f) && PartTakeStep(f, f', part)
    ensures UploadOk(f')
  {
    hide OkAt, CellAt, ListOk, Boundaries;
    StartsGrow(f.starts, part);
  }

  lemma StartsGrow(starts: seq<nat>, p: int)
    requires Boundaries(starts) && 0 <= p < |starts| - 1
    ensures starts[p] < starts[p + 1]
  {
  }

  lemma TakeAt(f: File, f': File, part: int, x: int)
    requires Inv(f) && PartTakeStep(f, f', part)
    ensures OkAt(f', x) && ReadByte(f', x) == ReadByte(f, x)
  {
    hide CellAt, ListOk, PartOf, UploadOk, Boundaries;
    assert OkAt(f, x);
    PartOfUnique(f.starts, part, x);
  }

  lemma PartDropKeeps(f: File, f': File, part: int)
    requires Inv(f) && PartDropStep(f, f', part)
    ensures Inv(f') && SameBytes(f, f')
  {
    hide OkAt, ReadByte, CellAt, ListOk, UploadOk;
    DropUpload(f, f');
    forall x: int {:trigger OkAt(f', x)} {:trigger ReadByte(f', x)}
      ensures OkAt(f', x) && (0 <= x < f.size ==> ReadByte(f', x) == ReadByte(f, x))
    {
      DropAt(f, f', x);
    }
  }

  lemma PartFailKeeps(f: File, f': File, part: int)
    requires Inv(f) && PartFailStep(f, f', part)
    ensures Inv(f') && SameBytes(f, f')
  {
    hide OkAt, ReadByte, CellAt, ListOk, UploadOk;
    DropUpload(f, f');
    forall x: int {:trigger OkAt(f', x)} {:trigger ReadByte(f', x)}
      ensures OkAt(f', x) && (0 <= x < f.size ==> ReadByte(f', x) == ReadByte(f, x))
    {
      DropAt(f, f', x);
    }
  }

  lemma DropUpload(f: File, f': File)
    requires |f.starts| > 0 && UploadOk(f) && f.upload.Multi? && f'.upload.Multi?
    requires f' == f.(upload := f.upload.(taken := f'.upload.taken, flights := f'.upload.flights))
    requires forall p: int :: p in f'.upload.taken ==> p in f.upload.taken && f'.upload.taken[p] == f.upload.taken[p]
    requires forall p: int :: p in f'.upload.flights ==>
               p in f.upload.flights && f'.upload.flights[p] == f.upload.flights[p]
    ensures UploadOk(f')
  {
    hide PartEnd, IsFull, IdsWithin, PartsCover, Copyable, IsPartCount;
    if !f.upload.completion.Open? {
      forall p: int ensures p !in f'.upload.taken && p !in f'.upload.flights { }
      assert f'.upload.taken == map[] && f'.upload.flights == map[];
    }
  }

  /** Forgetting a part that was being flushed changes nothing about any byte. */
  lemma DropAt(f: File, f': File, x: int)
    requires Inv(f) && f.upload.Multi? && f'.upload.Multi?
    requires f' == f.(upload := f.upload.(taken := f'.upload.taken, flights := f'.upload.flights))
    requires forall p: int :: p in f'.upload.taken ==> p in f.upload.taken && f'.upload.taken[p] == f.upload.taken[p]
    requires forall p: int :: p in f'.upload.flights ==>
               p in f.upload.flights && f'.upload.flights[p] == f.upload.flights[p]
    ensures OkAt(f', x) && ReadByte(f', x) == ReadByte(f, x)
  {
    hide CellAt, ListOk, PartOf, UploadOk;
    assert OkAt(f, x);
  }

  lemma DecideKeeps(f: File, f': File)
    requires Inv(f) && DecideStep(f, f')
    ensures Inv(f') && SameBytes(f, f')
  {
    hide OkAt, ReadByte, CellAt, ListOk, PartOf, NothingToSend, PartsCover, Copyable, PartEnd;
    AllCovered(f);
    forall x: int {:trigger OkAt(f', x)} {:trigger ReadByte(f', x)}
      ensures OkAt(f', x) && (0 <= x < f.size ==> ReadByte(f', x) == ReadByte(f, x))
    {
      DecideAt(f, f', x);
    }
  }

  lemma DecideAt(f: File, f': File, x: int)
    requires Inv(f) && DecideStep(f, f')
    ensures OkAt(f', x) && ReadByte(f', x) == ReadByte(f, x)
  {
    hide CellAt, ListOk, PartOf, NothingToSend, UploadOk;
    assert OkAt(f, x);
  }

  lemma AllCovered(f: File)
    requires Inv(f) && f.upload.Multi? && NothingToSend(f)
    ensures PartsCover(f.starts, f.upload.parts, f.size) && Copyable(f.starts, f.upload.parts, |f.server|, f.size)
  {
    hide CellAt, ListOk, NothingToSend, OkAt, UploadOk, Boundaries;
    forall p: int | p in f.upload.parts
      ensures 0 <= p < |f.starts| - 1 && PartEnd(f.starts, p, f.size) <= f.starts[p] + |f.upload.parts[p]| <= f.size
    {
      UploadedPartReaches(f, p);
    }
    forall p: int | 0 <= p < |f.starts| - 1 && f.starts[p] < f.size && p !in f.upload.parts
      ensures PartEnd(f.starts, p, f.size) <= |f.server|
    {
      UnsentPartExists(f, p);
    }
  }

  // ----- What each step does to the contents -----

  lemma WriteShows(f: File, f': File, offset: nat, data: seq<byte>, bytes: seq<byte>)
    requires Inv(f) && WriteStep(f, f', offset, data) && Shows(f, bytes)
    ensures Inv(f') && Shows(f', Written(Padded(bytes, offset + |data|), offset, data))
  {
    hide OkAt, ReadByte, CellAt, ListOk, Added, Zeroed, ZeroFilled, UploadOk, Boundaries;
    var end := offset + |data|;
    var m1: Buffers, cur1: nat :| WriteVia(f, f', offset, data, m1, cur1);
    var f1 := f.(m := m1, cur := cur1, size := f'.size, cache := f'.cache);
    var padded := Padded(bytes, end);
    if f.size < end {
      GrowthZeroes(f, m1, cur1, end);
      GrowKeeps(f, f1);
    } else {
      TouchKeeps(f, f1);
    }
    assert Shows(f1, padded);
    AddDirtyKeeps(f1, f', offset, data);
  }

  lemma ZeroShows(f: File, f': File, offset: nat, size: nat, bytes: seq<byte>)
    requires Inv(f) && ZeroStep(f, f', offset, size) && Shows(f, bytes)
    ensures offset + size <= |bytes| && Inv(f') && Shows(f', Written(bytes, offset, Zeros(size)))
  {
    hide OkAt, ReadByte, CellAt, ListOk;
    UploadKept(f, f');
    hide ZeroFilled;
    forall x: int {:trigger OkAt(f', x)} {:trigger ReadByte(f', x)}
      ensures OkAt(f', x)
      ensures 0 <= x < f.size ==> ReadByte(f', x) == if offset <= x < offset + size then Some(0) else ReadByte(f, x)
    {
      ZeroAt(f, f', offset, size, x);
    }
  }

  /** A write that does not grow the file first leaves the cached state. */
  lemma TouchKeeps(f: File, f': File)
    requires Inv(f) && f' == f.(cache := Touched(f.cache))
    ensures Inv(f') && SameBytes(f, f')
  {
    hide CellAt, ListOk;
    forall x: int {:trigger OkAt(f', x)} {:trigger ReadByte(f', x)}
      ensures OkAt(f', x) && (0 <= x < f.size ==> ReadByte(f', x) == ReadByte(f, x))
    {
      assert OkAt(f, x);
    }
  }

  lemma ResizeShows(f: File, f': File, size: nat, bytes: seq<byte>)
    requires Inv(f) && ResizeStep(f, f', size) && Shows(f, bytes) && (size < f.size ==> CutFits(f, size))
    ensures Inv(f') && Shows(f', if size < |bytes| then bytes[..size] else Padded(bytes, size))
  {
    hide OkAt, ReadByte, CellAt, ListOk, Added, Zeroed, ZeroFilled, UploadOk, Boundaries, CutFits;
    if size < f.size {
      CutKeeps(f, f');
    } else {
      GrowthZeroes(f, f'.m, f'.cur, size);
      GrowKeeps(f, f');
    }
  }

  /** One step, whichever it is. */
  lemma StepShows(f: File, f': File, op: Op, bytes: seq<byte>)
    requires Inv(f) && Step(f, f', op) && Harmless(f, op) && Shows(f, bytes)
    ensures Inv(f') && Shows(f', After(bytes, op))
  {
    hide Inv, Shows, SameBytes, Agrees, CutFits, NoneMerged, PartTakeStep, PartDropStep, WriteStep, ZeroStep,
         ResizeStep, FillStep, MarkLoadingStep, DropLoadingStep, EvictStep, SplitStep, SmallLockStep, SmallShotStep,
         SmallLandStep, SmallDoneStep, SmallFailStep, BeginStep, PartShotStep, PartDoneStep, PartFailStep, DecideStep,
         CollectStep, LandStep, CommitStep, GiveUpStep, Written, Padded;
    match op {
      case Write(offset, data) => WriteShows(f, f', offset, data, bytes); return;
      case Zero(offset, size) => ZeroShows(f, f', offset, size, bytes); return;
      case Resize(size) => ResizeShows(f, f', size, bytes); return;
      case Fill(offset, data) => FillKeeps(f, f', offset, data);
      case MarkLoading(from, count) => MarkLoadingKeeps(f, f', from, count);
      case DropLoading(from, count) => DropLoadingKeeps(f, f', from, count);
      case Evict(key) => EvictKeeps(f, f', key);
      case SplitBuffers => SplitBuffersKeeps(f, f');
      case SmallShot(shot) => SmallShotKeeps(f, f', shot);
      case SmallLand => SmallLandKeeps(f, f');
      case SmallDone => SmallDoneKeeps(f, f');
      case PartTake(part) => PartTakeKeeps(f, f', part);
      case PartDrop(part) => PartDropKeeps(f, f', part);
      case PartShot(part, shot) => PartShotKeeps(f, f', part, shot);
      case PartDone(part) => PartDoneKeeps(f, f', part);
      case PartFail(part) => PartFailKeeps(f, f', part);
      case Decide => DecideKeeps(f, f');
      case Land => LandIsMulti(f, f'); LandKeeps(f, f');
      case Commit => CommitKeeps(f, f');
      case GiveUp(copies) => GiveUpKeeps(f, f', copies);
      case SmallLock => assert NoteStep(f, f'); NoteKeeps(f, f');
      case SmallFail => assert NoteStep(f, f'); NoteKeeps(f, f');
      case Begin => assert NoteStep(f, f'); NoteKeeps(f, f');
      case Collect => assert NoteStep(f, f'); NoteKeeps(f, f');
    }
    SameBytesShow(f, f', bytes);
  }

  lemma LandIsMulti(f: File, f': File)
    requires LandStep(f, f')
    ensures f.upload.Multi?
  {
  }

  // ----- Runs -----

  /** A file as it is first opened or created: nothing in memory, no flush, the object as it is. */
  ghost predicate Opened(f: File)
  {
    && Boundaries(f.starts) && f.m == map[] && f.upload.Idle?
    && f.size == f.known == |f.server| <= MaxSize(f.starts)
  }

  ghost predicate IsRun(files: seq<File>, ops: seq<Op>)
  {
    && |files| == |ops| + 1 && Opened(files[0])
    && forall i: int :: 0 <= i < |ops| ==> Step(files[i], files[i + 1], ops[i])
  }

  /** A run in which no step does the harm that the source does not check for. */
  ghost predicate HarmlessRun(files: seq<File>, ops: seq<Op>)
  {
    IsRun(files, ops) && forall i: int :: 0 <= i < |ops| ==> Harmless(files[i], ops[i])
  }

  lemma OpenedShows(f: File)
    requires Opened(f)
    ensures Inv(f) && Shows(f, f.server)
  {
  }

  /**
   In every reachable state the file reads as the plain sequence that the writes and resizes
   made of the opened object, however they mixed with loads, evictions and flushes.
   */
  lemma {:induction false} RunShows(files: seq<File>, ops: seq<Op>)
    requires HarmlessRun(files, ops)
    ensures var last := files[|ops|]; Inv(last) && Shows(last, Replay(files[0].server, ops))
  {
    hide Inv, Shows, Opened, After, Step, Harmless;
    if ops == [] {
      OpenedShows(files[0]);
    } else {
      var n := |ops| - 1;
      RunShows(files[..|files| - 1], ops[..n]);
      StepShows(files[n], files[n + 1], ops[n], Replay(files[0].server, ops[..n]));
    }
  }

  lemma CachedIsStored(f: File, bytes: seq<byte>)
    requires Inv(f) && Shows(f, bytes) && f.cache.Cached?
    ensures f.server == bytes
  {
    forall x: int | 0 <= x < f.size ensures f.server[x] == bytes[x] {
      assert OkAt(f, x) && ReadByte(f, x) == Some(bytes[x]);
    }
  }

  /** Whenever a run marks the file cached, the object on the server is the whole file. */
  lemma CachedMeansStored(files: seq<File>, ops: seq<Op>)
    requires HarmlessRun(files, ops) && files[|ops|].cache.Cached?
    ensures files[|ops|].server == Replay(files[0].server, ops)
  {
    hide Replay, Step, Harmless;
    RunShows(files, ops);
    CachedIsStored(files[|ops|], Replay(files[0].server, ops));
  }

  predicate FlightIs(f: File, p: int, base: nat, s: Snapshot)
    requires f.upload.Multi? && p in f.upload.flights
  {
    f.upload.flights[p] == s && 0 <= p < |f.starts| && f.starts[p] == base
  }

  /** `s` is on its way to the server: all of a small file, or the part at `base`. */
  ghost predicate Sending(f: File, base: nat, s: Snapshot)
  {
    || (f.upload.Small? && f.upload.shot == Some(s) && base == 0)
    || (f.upload.Multi? && exists p: int :: p in f.upload.flights && FlightIs(f, p, base, s))
  }

  /**
   A flush never masks a later write: in every reachable state, a byte that still carries a
   collected id is the byte that was collected, and it is still unsaved.
   */
  lemma SnapshotsStayTrue(files: seq<File>, ops: seq<Op>, base: nat, s: Snapshot, x: int)
    requires HarmlessRun(files, ops) && Sending(files[|ops|], base, s)
    requires var c := CellAt(files[|ops|].m, x); c.Some? && c.value.id in s.ids
    ensures var c := CellAt(files[|ops|].m, x);
            IsDirty(c) && c.value.content.Some? && c.value.content == ByteIn(s.body, x - base)
  {
    hide Replay, Step, Harmless;
    RunShows(files, ops);
    assert OkAt(files[|ops|], x);
  }

  /** The object was [1] when it was read and is [2] when the response arrives. */
  lemma LateResponse()
    ensures var f := File([0, 4], map[], 0, 1, 1, [2], Cached, Idle);
            Opened(f) && Inv(f) && !Agrees(f, 0, [1])
  {
    var f := File([0, 4], map[], 0, 1, 1, [2], Cached, Idle);
    OpenedShows(f);
    assert CellAt(f.m, 0).None?;
  }

  /** Byte `x` belongs to the server now and then, and what a reader sees of it is the same. */
  ghost predicate Unwritten(files: seq<File>, ops: seq<Op>, i: nat, x: int)
    requires |files| == |ops| + 1 && i <= |ops|
  {
    && FromServer(CellAt(files[i].m, x)) && 0 <= x < files[i].size
    && ByteIn(Replay(files[0].server, ops[..i]), x) == ByteIn(Replay(files[0].server, ops), x)
  }

  /**
   A response may be as old as it likes: it agrees with the object if every byte that is the
   server's now was the server's when the object was read, and was not written since.
   */
  lemma OldResponse(files: seq<File>, ops: seq<Op>, i: nat, offset: nat, data: seq<byte>)
    requires HarmlessRun(files, ops) && i <= |ops| && offset + |data| <= |files[i].server|
    requires data == files[i].server[offset..offset + |data|]
    requires var f := files[|ops|];
             forall x: int {:trigger CellAt(f.m, x)} ::
               offset <= x < offset + |data| && x < f.size && FromServer(CellAt(f.m, x)) ==>
                 Unwritten(files, ops, i, x)
    ensures Agrees(files[|ops|], offset, data)
  {
    hide Replay, Step, Harmless, Inv, Shows, CellAt;
    RunShows(files, ops);
    RunShows(files[..i + 1], ops[..i]);
    var f := files[|ops|];
    forall x: int {:trigger CellAt(f.m, x)} | offset <= x < offset + |data| && x < f.size && FromServer(CellAt(f.m, x))
      ensures ByteIn(f.server, x) == Some(data[x - offset])
    {
      ServerShown(f, Replay(files[0].server, ops), x);
      ServerShown(files[i], Replay(files[0].server, ops[..i]), x);
    }
  }

  lemma ServerShown(f: File, bytes: seq<byte>, x: int)
    requires Inv(f) && Shows(f, bytes) && 0 <= x < f.size && FromServer(CellAt(f.m, x))
    ensures x < |f.server| && x < |bytes| && f.server[x] == bytes[x]
  {
    assert OkAt(f, x) && ReadByte(f, x) == Some(bytes[x]);
  }
}
