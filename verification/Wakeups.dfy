/**
 Waiting for a flush. SyncFile looks at the inode and, if changes are left, waits on the
 flusher's condition; a flush that ends changes the inode and then wakes the flusher. The
 threads below take the two locks, in the order of the source, one step at a time.
 */
module Wakeups {

  datatype Holder = Free | Sync(thread: int) | Completion(flush: int)

  /** A SyncFile thread; `seen` is the version of the inode it checked. */
  datatype SyncPc =
    | Idle
    | Checked(seen: nat)    // holds the inode lock
    | Both(seen: nat)       // holds both locks
    | Registered(seen: nat) // holds the flusher lock
    | Parked(seen: nat)     // waits on the condition
    | Woken                 // must take the flusher lock again

  /** A flush that ends; `wrote` is the version its change made. */
  datatype FlushPc =
    | Running
    | Locked                          // holds the inode lock
    | Changed(wrote: nat, held: bool) // has a wake-up to run; may still hold the inode lock
    | Woke(held: bool)

  datatype FlusherPc = Working | Waiting | Resuming

  datatype World = World(
    mu: Holder, flusherMu: Holder, flushPending: bool, version: nat,
    syncs: map<int, SyncPc>, flushes: map<int, FlushPc>, flusher: FlusherPc)

  datatype Step =
    | SyncCheck(t: int) | SyncLock(t: int) | SyncRelease(t: int) | SyncPark(t: int) | SyncResume(t: int)
    | FlushLock(f: int) | FlushChange(f: int) | FlushUnlock(f: int) | FlushWake(f: int)
    | OtherWake | FlusherLook | FlusherResume
    | NewSync(t: int) | NewFlush(f: int)

  function Awake(syncs: map<int, SyncPc>): map<int, SyncPc>
  {
    map t | t in syncs :: if syncs[t].Parked? then Woken else syncs[t]
  }

  /** WakeupFlusher, under the flusher lock: only the first request after the flusher ran broadcasts. */
  function WithWakeup(w: World): World
  {
    if w.flushPending then w
    else
      w.(flushPending := true, syncs := Awake(w.syncs),
         flusher := if w.flusher.Waiting? then Resuming else w.flusher)
  }

  ghost predicate Next(w: World, w': World, step: Step)
  {
    match step
    case NewSync(t) => t !in w.syncs && w' == w.(syncs := w.syncs[t := Idle])
    case NewFlush(f) => f !in w.flushes && w' == w.(flushes := w.flushes[f := Running])
    // The inode still has unsaved changes and no error.
    case SyncCheck(t) =>
      t in w.syncs && w.syncs[t].Idle? && w.mu.Free?
        && w' == w.(mu := Sync(t), syncs := w.syncs[t := Checked(w.version)])
    case SyncLock(t) =>
      && t in w.syncs && w.syncs[t].Checked? && w.flusherMu.Free?
      && w' == w.(flusherMu := Sync(t), syncs := w.syncs[t := Both(w.syncs[t].seen)])
    case SyncRelease(t) =>
      t in w.syncs && w.syncs[t].Both? && w' == w.(mu := Free, syncs := w.syncs[t := Registered(w.syncs[t].seen)])
    case SyncPark(t) =>
      && t in w.syncs && w.syncs[t].Registered?
      && w' == w.(flusherMu := Free, syncs := w.syncs[t := if w.flushPending then Idle else Parked(w.syncs[t].seen)])
    case SyncResume(t) =>
      t in w.syncs && w.syncs[t].Woken? && w.flusherMu.Free? && w' == w.(syncs := w.syncs[t := Idle])
    case FlushLock(f) =>
      f in w.flushes && w.flushes[f].Running? && w.mu.Free?
        && w' == w.(mu := Completion(f), flushes := w.flushes[f := Locked])
    case FlushChange(f) =>
      && f in w.flushes && w.flushes[f].Locked?
      && w' == w.(version := w.version + 1, flushes := w.flushes[f := Changed(w.version + 1, true)])
    case FlushUnlock(f) =>
      && f in w.flushes
      && ((w.flushes[f].Changed? && w.flushes[f].held) || (w.flushes[f].Woke? && w.flushes[f].held))
      && w' == w.(mu := Free, flushes := w.flushes[f := w.flushes[f].(held := false)])
    case FlushWake(f) =>
      && f in w.flushes && w.flushes[f].Changed? && w.flusherMu.Free?
      && w' == WithWakeup(w).(flushes := w.flushes[f := Woke(w.flushes[f].held)])
    case OtherWake => w.flusherMu.Free? && w' == WithWakeup(w)
    case FlusherLook =>
      && w.flusher.Working? && w.flusherMu.Free?
      && w' == if w.flushPending then w.(flushPending := false) else w.(flusher := Waiting)
    case FlusherResume =>
      w.flusher.Resuming? && w.flusherMu.Free? && w' == w.(flusher := Working, flushPending := false)
  }

  /** The thread has checked the inode and will wait, or waits. */
  predicate Committed(pc: SyncPc)
  {
    pc.Checked? || pc.Both? || pc.Registered? || pc.Parked?
  }

  /** The flush has a change newer than `seen` to announce. */
  predicate Announces(w: World, f: int, seen: nat)
  {
    f in w.flushes && w.flushes[f].Changed? && w.flushes[f].wrote > seen
  }

  predicate HoldsInode(pc: FlushPc)
  {
    pc.Locked? || (pc.Changed? && pc.held) || (pc.Woke? && pc.held)
  }

  ghost predicate SyncAt(w: World, t: int)
  {
    t in w.syncs ==>
      var pc := w.syncs[t];
      && (pc.Checked? || pc.Both? ==> w.mu == Sync(t) && pc.seen == w.version)
      && (pc.Both? || pc.Registered? ==> w.flusherMu == Sync(t))
      && (pc.Parked? ==> !w.flushPending)
      && (Committed(pc) ==> pc.seen <= w.version)
      && (Committed(pc) && pc.seen < w.version ==> exists f: int :: Announces(w, f, pc.seen))
  }

  ghost predicate FlushAt(w: World, f: int)
  {
    f in w.flushes ==>
      var pc := w.flushes[f];
      && (HoldsInode(pc) ==> w.mu == Completion(f))
      && (pc.Changed? ==> pc.wrote <= w.version)
  }

  /** Whoever a lock names has it. */
  ghost predicate HoldersOk(w: World)
  {
    && (w.flusherMu.Free? || (w.flusherMu.Sync? && w.flusherMu.thread in w.syncs &&
          (w.syncs[w.flusherMu.thread].Both? || w.syncs[w.flusherMu.thread].Registered?)))
    && (w.mu.Sync? ==> w.mu.thread in w.syncs && (w.syncs[w.mu.thread].Checked? || w.syncs[w.mu.thread].Both?))
    && (w.mu.Completion? ==> w.mu.flush in w.flushes && HoldsInode(w.flushes[w.mu.flush]))
  }

  /** A pending request finds the flusher awake. */
  ghost predicate FlusherOk(w: World)
  {
    w.flushPending ==> !w.flusher.Waiting?
  }

  ghost predicate Inv(w: World)
  {
    && HoldersOk(w) && FlusherOk(w)
    && (forall t: int {:trigger SyncAt(w, t)} :: SyncAt(w, t))
    && (forall f: int {:trigger FlushAt(w, f)} :: FlushAt(w, f))
  }

  lemma StillAnnounced(w: World, w': World, seen: nat, g: int)
    requires exists f: int :: Announces(w, f, seen)
    requires forall f: int :: f in w.flushes && f != g ==> f in w'.flushes && w'.flushes[f] == w.flushes[f]
    requires Announces(w, g, seen) ==> Announces(w', g, seen)
    ensures exists f: int :: Announces(w', f, seen)
  {
    var f: int :| Announces(w, f, seen);
    assert Announces(w', f, seen);
  }

  /** Steps of SyncFile threads, the flusher and other wakers. */
  lemma SyncSideKeeps(w: World, w': World, step: Step)
    requires Inv(w) && Next(w, w', step)
    requires !step.FlushLock? && !step.FlushChange? && !step.FlushUnlock? && !step.FlushWake? && !step.NewFlush?
    ensures Inv(w')
  {
    if step.SyncRelease? || step.SyncPark? { assert SyncAt(w, step.t); }
    forall t: int ensures SyncAt(w', t) {
      assert SyncAt(w, t);
      if t in w'.syncs && Committed(w'.syncs[t]) && w'.syncs[t].seen < w'.version && t in w.syncs
        && Committed(w.syncs[t]) {
        StillAnnounced(w, w', w.syncs[t].seen, 0);
      }
    }
    forall f: int ensures FlushAt(w', f) { assert FlushAt(w, f); }
  }

  lemma FlushSideKeeps(w: World, w': World, step: Step, g: int)
    requires Inv(w) && Next(w, w', step)
    requires step == FlushLock(g) || step == FlushChange(g) || step == FlushUnlock(g) || step == NewFlush(g)
    ensures Inv(w')
  {
    assert FlushAt(w, g);
    forall t: int ensures SyncAt(w', t) {
      assert SyncAt(w, t);
      if t in w.syncs && Committed(w.syncs[t]) {
        if step.FlushChange? {
          assert Announces(w', g, w.syncs[t].seen);
        } else if w.syncs[t].seen < w.version {
          StillAnnounced(w, w', w.syncs[t].seen, g);
        }
      }
    }
    forall f: int ensures FlushAt(w', f) { assert FlushAt(w, f); }
  }

  /** A wake-up runs: whoever waited is woken, and nobody who will wait depended on it. */
  lemma WakeKeeps(w: World, w': World, g: int)
    requires Inv(w) && Next(w, w', FlushWake(g))
    ensures Inv(w')
  {
    assert FlushAt(w, g);
    forall t: int ensures SyncAt(w', t) {
      assert SyncAt(w, t);
    }
    forall f: int ensures FlushAt(w', f) { assert FlushAt(w, f); }
  }

  lemma NextKeeps(w: World, w': World, step: Step)
    requires Inv(w) && Next(w, w', step)
    ensures Inv(w')
  {
    hide Inv, Next;
    match step {
      case FlushLock(f) => FlushSideKeeps(w, w', step, f);
      case FlushChange(f) => FlushSideKeeps(w, w', step, f);
      case FlushUnlock(f) => FlushSideKeeps(w, w', step, f);
      case NewFlush(f) => FlushSideKeeps(w, w', step, f);
      case FlushWake(f) => WakeKeeps(w, w', f);
      case _ => SyncSideKeeps(w, w', step);
    }
  }

  // ----- Runs -----

  ghost predicate Initial(w: World)
  {
    w.mu.Free? && w.flusherMu.Free? && w.syncs == map[] && w.flushes == map[] && FlusherOk(w)
  }

  ghost predicate IsRun(worlds: seq<World>, steps: seq<Step>)
  {
    && |worlds| == |steps| + 1 && Initial(worlds[0])
    && forall i: int :: 0 <= i < |steps| ==> Next(worlds[i], worlds[i + 1], steps[i])
  }

  lemma {:induction false} RunKeeps(worlds: seq<World>, steps: seq<Step>)
    requires IsRun(worlds, steps)
    ensures Inv(worlds[|steps|])
  {
    hide Next;
    if steps != [] {
      var n := |steps| - 1;
      RunKeeps(worlds[..|worlds| - 1], steps[..n]);
      NextKeeps(worlds[n], worlds[n + 1], steps[n]);
    }
  }

  /**
   No wake-up is lost: in every reachable state a SyncFile thread that waits although the
   inode has changed since its check has a flush whose wake-up is still to run. The wake-up
   will broadcast, because no request is pending while a thread waits.
   */
  lemma NoLostWakeup(worlds: seq<World>, steps: seq<Step>, t: int)
    requires IsRun(worlds, steps) && t in worlds[|steps|].syncs && worlds[|steps|].syncs[t].Parked?
    ensures var w := worlds[|steps|];
            && !w.flushPending
            && (w.syncs[t].seen < w.version ==> exists f: int :: Announces(w, f, w.syncs[t].seen))
  {
    hide Next, Initial;
    RunKeeps(worlds, steps);
    assert SyncAt(worlds[|steps|], t);
  }

  /** A flush that changes the inode leaves every thread that waits with an outdated check, and a wake-up to run. */
  lemma ChangeIsAnnounced(worlds: seq<World>, steps: seq<Step>, t: int, f: int, w': World)
    requires IsRun(worlds, steps) && t in worlds[|steps|].syncs && worlds[|steps|].syncs[t].Parked?
    requires Next(worlds[|steps|], w', FlushChange(f))
    ensures w'.syncs[t] == worlds[|steps|].syncs[t] && w'.syncs[t].seen < w'.version
    ensures Announces(w', f, w'.syncs[t].seen)
  {
    hide Initial;
    RunKeeps(worlds, steps);
    assert SyncAt(worlds[|steps|], t);
  }

  /** When that wake-up runs, the thread stops waiting. */
  lemma WakeupArrives(worlds: seq<World>, steps: seq<Step>, t: int, f: int, w': World)
    requires IsRun(worlds, steps) && t in worlds[|steps|].syncs && worlds[|steps|].syncs[t].Parked?
    requires Next(worlds[|steps|], w', FlushWake(f)) || Next(worlds[|steps|], w', OtherWake)
    ensures t in w'.syncs && w'.syncs[t].Woken?
  {
    hide Initial;
    NoLostWakeup(worlds, steps, t);
  }

  /**
   A SyncFile thread that waits although the inode has changed can be let go: the flush that
   changed it can run its wake-up as soon as the flusher lock is free, and then the thread
   can look at the inode again.
   */
  lemma WaiterCanReturn(worlds: seq<World>, steps: seq<Step>, t: int) returns (f: int, w1: World, w2: World)
    requires IsRun(worlds, steps) && t in worlds[|steps|].syncs && worlds[|steps|].syncs[t].Parked?
    requires worlds[|steps|].syncs[t].seen < worlds[|steps|].version && worlds[|steps|].flusherMu.Free?
    ensures Next(worlds[|steps|], w1, FlushWake(f)) && Next(w1, w2, SyncResume(t)) && w2.syncs[t].Idle?
  {
    hide Initial;
    NoLostWakeup(worlds, steps, t);
    var w := worlds[|steps|];
    f :| Announces(w, f, w.syncs[t].seen);
    w1 := WithWakeup(w).(flushes := w.flushes[f := Woke(w.flushes[f].held)]);
    w2 := w1.(syncs := w1.syncs[t := Idle]);
  }

  // ----- The flusher -----

  predicate FlusherStep(step: Step)
  {
    step.FlusherLook? || step.FlusherResume?
  }

  predicate IsWakeup(step: Step)
  {
    step.FlushWake? || step.OtherWake?
  }

  /** In every reachable state the flusher does not sleep through a request. */
  lemma FlusherHears(worlds: seq<World>, steps: seq<Step>)
    requires IsRun(worlds, steps)
    ensures worlds[|steps|].flushPending ==> !worlds[|steps|].flusher.Waiting?
  {
    hide Next, Initial;
    RunKeeps(worlds, steps);
  }

  /** A request stays until the flusher takes it. */
  lemma {:induction false} RequestStays(worlds: seq<World>, steps: seq<Step>, i: nat, j: nat)
    requires IsRun(worlds, steps) && i < j <= |steps| && IsWakeup(steps[i])
    requires forall k: int :: i < k < j ==> !FlusherStep(steps[k])
    ensures worlds[j].flushPending
  {
    if j == i + 1 {
      assert Next(worlds[i], worlds[i + 1], steps[i]);
    } else {
      RequestStays(worlds, steps, i, j - 1);
      assert Next(worlds[j - 1], worlds[j], steps[j - 1]);
    }
  }

  /**
   After a wake-up the flusher can run as soon as its lock is free, also if it waited: its
   next step takes the request.
   */
  lemma FlusherCanRun(worlds: seq<World>, steps: seq<Step>, i: nat, j: nat) returns (step: Step, w': World)
    requires IsRun(worlds, steps) && i < j <= |steps| && IsWakeup(steps[i]) && worlds[j].flusherMu.Free?
    requires forall k: int :: i < k < j ==> !FlusherStep(steps[k])
    ensures FlusherStep(step) && Next(worlds[j], w', step) && w'.flusher.Working? && !w'.flushPending
  {
    hide Initial;
    RequestStays(worlds, steps, i, j);
    FlusherHears(worlds[..j + 1], steps[..j]);
    var w := worlds[j];
    step := if w.flusher.Working? then FlusherLook else FlusherResume;
    w' := w.(flusher := Working, flushPending := false);
  }

  /** Anyone can wake the flusher while its lock is free, and then all who waited can go on. */
  lemma AnyoneCanWake(worlds: seq<World>, steps: seq<Step>) returns (w': World)
    requires IsRun(worlds, steps) && worlds[|steps|].flusherMu.Free?
    ensures Next(worlds[|steps|], w', OtherWake) && w'.flushPending && !w'.flusher.Waiting?
    ensures forall t: int :: t in w'.syncs ==> !w'.syncs[t].Parked?
  {
    hide Initial;
    RunKeeps(worlds, steps);
    var w := worlds[|steps|];
    w' := WithWakeup(w);
    forall t: int | t in w'.syncs ensures !w'.syncs[t].Parked? { assert SyncAt(w, t); }
  }

  /** The locks never deadlock: while one is held, a thread that holds a lock can take its next step. */
  lemma LocksAreReleased(worlds: seq<World>, steps: seq<Step>) returns (step: Step, w': World)
    requires IsRun(worlds, steps) && (!worlds[|steps|].mu.Free? || !worlds[|steps|].flusherMu.Free?)
    ensures Next(worlds[|steps|], w', step)
    ensures var w := worlds[|steps|];
            match step
            case SyncLock(t) => w.mu == Sync(t)
            case SyncRelease(t) => w.flusherMu == Sync(t)
            case SyncPark(t) => w.flusherMu == Sync(t)
            case FlushChange(f) => w.mu == Completion(f)
            case FlushUnlock(f) => w.mu == Completion(f)
            case _ => false
  {
    hide Initial;
    RunKeeps(worlds, steps);
    var w := worlds[|steps|];
    if w.flusherMu.Sync? {
      var t := w.flusherMu.thread;
      if w.syncs[t].Both? {
        step, w' := SyncRelease(t), w.(mu := Free, syncs := w.syncs[t := Registered(w.syncs[t].seen)]);
      } else {
        step := SyncPark(t);
        w' := w.(flusherMu := Free, syncs := w.syncs[t := if w.flushPending then Idle else Parked(w.syncs[t].seen)]);
      }
    } else if w.mu.Sync? {
      var t := w.mu.thread;
      assert SyncAt(w, t);
      step, w' := SyncLock(t), w.(flusherMu := Sync(t), syncs := w.syncs[t := Both(w.syncs[t].seen)]);
    } else {
      var f := w.mu.flush;
      if w.flushes[f].Locked? {
        step, w' := FlushChange(f),
          w.(version := w.version + 1, flushes := w.flushes[f := Changed(w.version + 1, true)]);
      } else {
        step, w' := FlushUnlock(f), w.(mu := Free, flushes := w.flushes[f := w.flushes[f].(held := false)]);
      }
    }
  }
}
