/**
 Listing a directory while it changes. A handle remembers an index into the sorted children
 and the name it returned last. Changes that move children bump the directory's generation;
 the handle then finds its place again by name.
 */
module DirHandles {
  import opened Options
  import opened ByteOrder

  predicate ValidName(name: string)
  {
    name != "" && name != "." && name != ".."
  }

  ghost predicate Sorted(children: seq<string>)
  {
    forall i: int, j: int :: 0 <= i < j < |children| ==> Less(children[i], children[j])
  }

  ghost predicate ValidChildren(children: seq<string>)
  {
    Sorted(children) && forall i: int :: 0 <= i < |children| ==> ValidName(children[i])
  }

  /** Children before `i` come before `name`, those from `i` on do not. */
  ghost predicate Splits(children: seq<string>, name: string, i: nat)
  {
    && i <= |children|
    && (forall j: int :: 0 <= j < i ==> Less(children[j], name))
    && (forall j: int :: i <= j < |children| ==> !Less(children[j], name))
  }

  /** The first child at or after `name`, by binary search. */
  method Search(children: seq<string>, name: string) returns (i: nat)
    requires Sorted(children)
    ensures Splits(children, name, i)
  {
    i := 0;
    var j := |children|;
    while i < j
      invariant i <= j <= |children|
      invariant forall k: int :: 0 <= k < i ==> Less(children[k], name)
      invariant forall k: int :: j <= k < |children| ==> !Less(children[k], name)
    {
      var h := (i + j) / 2;
      if Less(children[h], name) {
        forall k: int | 0 <= k < h ensures Less(children[k], name) { Transitive(children[k], children[h], name); }
        i := h + 1;
      } else {
        forall k: int | h < k < |children| ensures !Less(children[k], name) {
          if Less(children[k], name) { Transitive(children[h], children[k], name); }
        }
        j := h;
      }
    }
  }

  /** How many children come up to `name`. */
  function Place(children: seq<string>, name: string): (i: nat)
    ensures i <= |children|
  {
    if children == [] then 0
    else Place(children[..|children| - 1], name) + if AtMost(children[|children| - 1], name) then 1 else 0
  }

  ghost predicate IsPlace(children: seq<string>, name: string, i: nat)
  {
    && i <= |children|
    && (forall j: int :: 0 <= j < i ==> AtMost(children[j], name))
    && (forall j: int :: i <= j < |children| ==> Less(name, children[j]))
  }

  lemma {:induction false} PlaceIs(children: seq<string>, name: string, i: nat)
    requires IsPlace(children, name, i)
    ensures Place(children, name) == i
  {
    if children != [] {
      var n := |children| - 1;
      if i == |children| {
        PlaceIs(children[..n], name, n);
      } else {
        if AtMost(children[n], name) { Asymmetric(name, children[n]); }
        PlaceIs(children[..n], name, i);
      }
    }
  }

  // ----- The directory -----

  datatype Dir = Dir(children: seq<string>, generation: nat)

  /** A new name at the end moves no position, so the generation stays. */
  function Inserted(d: Dir, name: string): Dir
  {
    var i := Place(d.children, name);
    Dir(d.children[..i] + [name] + d.children[i..], if i == |d.children| then d.generation else d.generation + 1)
  }

  function Without(d: Dir, name: string): Dir
  {
    var i := Place(d.children, name);
    Dir(if i > 0 then d.children[..i - 1] + d.children[i..] else d.children, d.generation + 1)
  }

  function Emptied(d: Dir): Dir
  {
    Dir([], d.generation + 1)
  }

  /** Where a name that is missing would go. */
  lemma GapIs(children: seq<string>, name: string, i: nat)
    requires ValidChildren(children) && name !in children && Splits(children, name, i)
    ensures Place(children, name) == i && IsPlace(children, name, i)
  {
    forall j: int | i <= j < |children| ensures Less(name, children[j]) { Total(name, children[j]); }
    PlaceIs(children, name, i);
  }

  /** Where a name that is present is. */
  lemma FoundIs(children: seq<string>, name: string, i: nat)
    requires ValidChildren(children) && i < |children| && children[i] == name
    ensures Place(children, name) == i + 1 && IsPlace(children, name, i + 1) && Splits(children, name, i)
  {
    Irreflexive(name);
    forall j: int | i < j < |children| ensures !Less(children[j], name) { Asymmetric(children[i], children[j]); }
    PlaceIs(children, name, i + 1);
  }

  /** A search stops at the name exactly when it is there. */
  lemma FoundOrGap(children: seq<string>, name: string, i: nat)
    requires ValidChildren(children) && Splits(children, name, i)
    ensures name in children <==> i < |children| && children[i] == name
  {
    if j: int :| 0 <= j < |children| && children[j] == name {
      Irreflexive(name);
      assert j >= i;
      if i < j { assert Less(children[i], children[j]); }
    }
  }

  lemma InsertedIs(d: Dir, name: string)
    requires ValidChildren(d.children) && ValidName(name) && name !in d.children
    ensures var i := Place(d.children, name);
            && IsPlace(d.children, name, i) && ValidChildren(Inserted(d, name).children)
            && forall x :: x in Inserted(d, name).children <==> x in d.children || x == name
  {
    hide Place, IsPlace, Less;
    PlaceExists(d.children, name);
    var i := Place(d.children, name);
    InsertedSorted(d.children, name, i);
    InsertedMembers(d.children, name, i);
  }

  lemma InsertedSorted(children: seq<string>, name: string, i: nat)
    requires ValidChildren(children) && ValidName(name) && name !in children && IsPlace(children, name, i)
    ensures ValidChildren(children[..i] + [name] + children[i..])
  {
    hide Less;
    forall j: int | 0 <= j < i ensures Less(children[j], name) { assert children[j] in children; }
  }

  lemma InsertedMembers(children: seq<string>, name: string, i: nat)
    requires i <= |children|
    ensures forall x :: x in children[..i] + [name] + children[i..] <==> x in children || x == name
  {
    assert children == children[..i] + children[i..];
  }

  lemma {:induction false} PlaceExists(children: seq<string>, name: string)
    requires Sorted(children)
    ensures IsPlace(children, name, Place(children, name))
  {
    if children != [] {
      var n := |children| - 1;
      PlaceExists(children[..n], name);
      var i := Place(children[..n], name);
      Total(children[n], name);
      if AtMost(children[n], name) {
        forall j: int | 0 <= j < n ensures AtMost(children[j], name) {
          AtMostTransitive(children[j], children[n], name);
        }
        if i < n { Asymmetric(name, children[i]); }
      }
    }
  }

  lemma WithoutIs(d: Dir, name: string)
    requires ValidChildren(d.children) && name in d.children
    ensures ValidChildren(Without(d, name).children)
    ensures forall x :: x in Without(d, name).children <==> x in d.children && x != name
  {
    hide Place, Less, IsPlace, Splits;
    var i: int :| 0 <= i < |d.children| && d.children[i] == name;
    FoundIs(d.children, name, i);
    assert Without(d, name).children == d.children[..i] + d.children[i + 1..];
    WithoutMembers(d.children, i);
  }

  lemma WithoutMembers(children: seq<string>, i: nat)
    requires Sorted(children) && i < |children|
    ensures forall x :: x in children[..i] + children[i + 1..] <==> x in children && x != children[i]
  {
    hide Less;
    forall j: int | 0 <= j < |children| && j != i ensures children[j] != children[i] {
      Irreflexive(children[i]);
    }
    assert children == children[..i] + [children[i]] + children[i + 1..];
  }

  class Directory {
    var children: seq<string>
    var generation: nat

    ghost function AsDir(): Dir
      reads this
    {
      Dir(children, generation)
    }

    ghost predicate Valid()
      reads this
    {
      ValidChildren(children)
    }

    constructor ()
      ensures Valid() && AsDir() == Dir([], 0)
    {
      children, generation := [], 0;
    }

    /** The source panics on a name that is already there. */
    method InsertChildUnlocked(name: string)
      requires Valid() && ValidName(name) && name !in children
      modifies this
      ensures Valid() && AsDir() == Inserted(old(AsDir()), name)
      ensures forall x :: x in children <==> x in old(children) || x == name
      ensures generation == old(generation) + if exists x :: x in old(children) && Less(name, x) then 1 else 0
    {
      InsertedIs(AsDir(), name);
      var l := |children|;
      if l == 0 {
        children := [name];
        return;
      }
      var i := Search(children, name);
      GapIs(children, name, i);
      if i == l {
        forall x | x in children ensures !Less(name, x) { Asymmetric(x, name); }
        children := children + [name];
      } else {
        assert children[i] in children && Less(name, children[i]);
        generation := generation + 1;
        children := children[..i] + [name] + children[i..];
      }
    }

    /** The source panics on a name that is missing, unless the directory is empty. */
    method RemoveChildUnlocked(name: string)
      requires Valid() && (name in children || children == [])
      modifies this
      ensures Valid() && AsDir() == if old(children) == [] then old(AsDir()) else Without(old(AsDir()), name)
      ensures forall x :: x in children <==> x in old(children) && x != name
      ensures generation == old(generation) + if old(children) == [] then 0 else 1
    {
      if |children| == 0 {
        return;
      }
      WithoutIs(AsDir(), name);
      var i := Search(children, name);
      FoundOrGap(children, name, i);
      FoundIs(children, name, i);
      generation := generation + 1;
      children := children[..i] + children[i + 1..];
    }

    method RemoveAllChildrenUnlocked()
      modifies this
      ensures Valid() && AsDir() == Emptied(old(AsDir())) && children == [] && generation == old(generation) + 1
    {
      generation := generation + 1;
      children := [];
    }
  }

  // ----- The handle -----

  datatype Handle = Handle(external: nat, internal: int, lastName: string, generation: nat)

  function FindAgain(d: Dir, h: Handle): int
  {
    if h.external == 0 then 0 else if h.lastName == "." then 1 else if h.lastName == ".." then 2
    else Place(d.children, h.lastName) + 2
  }

  function CheckPosition(d: Dir, h: Handle): Handle
  {
    if h.generation != d.generation || h.internal < 0
    then h.(internal := FindAgain(d, h), generation := d.generation)
    else h
  }

  datatype Entry = Dot | DotDot | Child(name: string) | End

  /** What ReadDir returns at a checked position. */
  function EntryAt(d: Dir, internal: nat): Entry
  {
    if internal == 0 then Dot else if internal == 1 then DotDot
    else if internal - 2 >= |d.children| then End else Child(d.children[internal - 2])
  }

  function Advanced(h: Handle, name: string): Handle
  {
    h.(internal := if h.internal >= 0 then h.internal + 1 else h.internal, external := h.external + 1, lastName := name)
  }

  class DirHandle {
    const dir: Directory
    var lastExternalOffset: nat
    var lastInternalOffset: int
    var lastName: string
    var generation: nat

    ghost function AsHandle(): Handle
      reads this
    {
      Handle(lastExternalOffset, lastInternalOffset, lastName, generation)
    }

    constructor (dir: Directory)
      ensures this.dir == dir && AsHandle() == Handle(0, 0, "", dir.generation)
    {
      this.dir := dir;
      lastExternalOffset, lastInternalOffset, lastName, generation := 0, 0, "", dir.generation;
    }

    method CheckDirPosition()
      requires dir.Valid()
      modifies this
      ensures AsHandle() == CheckPosition(dir.AsDir(), old(AsHandle()))
    {
      if generation != dir.generation {
        lastInternalOffset := -1;
        generation := dir.generation;
      }
      if lastInternalOffset < 0 {
        if lastExternalOffset == 0 {
          lastInternalOffset := 0;
        } else if lastName == "." {
          lastInternalOffset := 1;
        } else if lastName == ".." {
          lastInternalOffset := 2;
        } else {
          var i := Search(dir.children, lastName);
          FoundOrGap(dir.children, lastName, i);
          if i < |dir.children| && dir.children[i] == lastName {
            FoundIs(dir.children, lastName, i);
            i := i + 1;
          } else {
            GapIs(dir.children, lastName, i);
          }
          lastInternalOffset := i + 2;
        }
      }
    }

    /** ReadDir once the listing is loaded. */
    method ReadDir() returns (e: Entry)
      requires dir.Valid()
      modifies this
      ensures AsHandle() == CheckPosition(dir.AsDir(), old(AsHandle()))
      ensures lastInternalOffset >= 0 && e == EntryAt(dir.AsDir(), lastInternalOffset)
    {
      CheckDirPosition();
      if lastInternalOffset == 0 {
        return Dot;
      } else if lastInternalOffset == 1 {
        return DotDot;
      }
      if lastInternalOffset - 2 >= |dir.children| {
        return End;
      }
      return Child(dir.children[lastInternalOffset - 2]);
    }

    method Next(name: string)
      modifies this
      ensures AsHandle() == Advanced(old(AsHandle()), name)
    {
      if lastInternalOffset >= 0 {
        lastInternalOffset := lastInternalOffset + 1;
      }
      lastExternalOffset := lastExternalOffset + 1;
      lastName := name;
    }
  }

  // ----- One listing, with changes in between -----

  /**
   `pending` is the entry the last ReadDir returned and Next has not consumed. `consumed` are
   the entries consumed so far; `stable` are the children present ever since the listing began.
   */
  datatype Scan = Scan(d: Dir, h: Handle, pending: Entry, consumed: seq<Entry>, stable: set<string>)

  datatype Step = Insert(name: string) | Remove(name: string) | RemoveAll | Check | Read | Consume

  ghost predicate Next(s: Scan, s': Scan, step: Step)
  {
    match step
    case Insert(name) => ValidName(name) && name !in s.d.children && s' == s.(d := Inserted(s.d, name))
    case Remove(name) => name in s.d.children && s' == s.(d := Without(s.d, name), stable := s.stable - {name})
    case RemoveAll => s' == s.(d := Emptied(s.d), stable := {})
    case Check => s' == s.(h := CheckPosition(s.d, s.h), pending := End)
    case Read =>
      var h := CheckPosition(s.d, s.h);
      h.internal >= 0 && s' == s.(h := h, pending := EntryAt(s.d, h.internal))
    case Consume =>
      && !s.pending.End?
      && s' == s.(h := Advanced(s.h, EntryName(s.pending)), pending := End, consumed := s.consumed + [s.pending])
  }

  function EntryName(e: Entry): string
  {
    match e
    case Dot => "."
    case DotDot => ".."
    case Child(name) => name
    case End => ""
  }

  /** What the last name says: the stable children up to it are consumed, the others are not. */
  ghost predicate LastOk(s: Scan)
  {
    && s.h.external == |s.consumed| && s.h.lastName == (if s.consumed == [] then "" else EntryName(Last(s.consumed)))
    && DotsFirst(s.consumed)
    && (forall n :: n in s.stable && s.h.external > 2 ==> (Child(n) in s.consumed <==> AtMost(n, s.h.lastName)))
  }

  function Last(entries: seq<Entry>): Entry
    requires entries != []
  {
    entries[|entries| - 1]
  }

  /** The two entries for the directory and its parent come first, then only children. */
  ghost predicate DotsFirst(entries: seq<Entry>)
  {
    forall i: int :: 0 <= i < |entries| ==>
      match entries[i]
      case Dot => i == 0
      case DotDot => i == 1
      case Child(name) => i >= 2 && ValidName(name)
      case End => false
  }

  /** What a position that is still good says: the stable children before it are consumed, the others are not. */
  ghost predicate PositionOk(s: Scan)
  {
    s.h.generation == s.d.generation && s.h.internal >= 0 ==>
      && (s.h.external <= 2 ==> s.h.internal == s.h.external)
      && (s.h.external > 2 ==> 2 <= s.h.internal <= |s.d.children| + 2)
      && forall j: int :: 0 <= j < |s.d.children| && s.d.children[j] in s.stable ==>
           (Child(s.d.children[j]) in s.consumed <==> j < s.h.internal - 2)
  }

  /** What a pending entry says: it comes right after the consumed ones, and a good position still finds it. */
  ghost predicate PendingOk(s: Scan)
  {
    && (s.pending.Dot? ==> s.h.external == 0) && (s.pending.DotDot? ==> s.h.external == 1)
    && (s.pending.Child? ==>
          && s.h.external >= 2 && ValidName(s.pending.name)
          && (forall n :: n in s.stable ==> (Child(n) in s.consumed <==> Less(n, s.pending.name)))
          && (s.h.generation == s.d.generation && s.h.internal >= 0 ==>
                0 <= s.h.internal - 2 < |s.d.children| && s.d.children[s.h.internal - 2] == s.pending.name))
  }

  ghost predicate StableOk(s: Scan)
  {
    forall n :: n in s.stable ==> n in s.d.children && multiset(s.consumed)[Child(n)] <= 1
  }

  ghost predicate Inv(s: Scan)
  {
    && ValidChildren(s.d.children) && s.h.generation <= s.d.generation
    && LastOk(s) && PositionOk(s) && PendingOk(s) && StableOk(s)
  }

  lemma InsertKeeps(s: Scan, s': Scan, name: string)
    requires Inv(s) && Next(s, s', Insert(name))
    ensures Inv(s')
  {
    InsertedIs(s.d, name);
    if s'.d.generation == s.d.generation { assert s'.d.children == s.d.children + [name]; }
  }

  lemma RemoveKeeps(s: Scan, s': Scan, name: string)
    requires Inv(s) && Next(s, s', Remove(name))
    ensures Inv(s')
  {
    WithoutIs(s.d, name);
  }

  lemma Order(children: seq<string>, i: int, j: int)
    requires Sorted(children) && 0 <= i < |children| && 0 <= j < |children|
    ensures Less(children[i], children[j]) <==> i < j
  {
    if i == j { Irreflexive(children[i]); } else if j < i { Asymmetric(children[j], children[i]); }
  }

  lemma CheckKeeps(s: Scan, s': Scan)
    requires Inv(s) && s' == s.(h := CheckPosition(s.d, s.h), pending := End)
    ensures Inv(s') && s'.h.internal >= 0 && s'.h.generation == s'.d.generation
  {
    if s'.h != s.h && s.h.external > 2 {
      PlaceExists(s.d.children, s.h.lastName);
      forall j: int | Place(s.d.children, s.h.lastName) <= j < |s.d.children|
        ensures !AtMost(s.d.children[j], s.h.lastName)
      {
        Asymmetric(s.h.lastName, s.d.children[j]);
      }
    }
  }

  lemma ReadKeeps(s: Scan, s': Scan)
    requires Inv(s) && Next(s, s', Read)
    ensures Inv(s')
  {
    CheckKeeps(s, s'.(pending := End));
    if s'.pending.Child? {
      var i := s'.h.internal - 2;
      forall n | n in s'.stable ensures Child(n) in s'.consumed <==> Less(n, s'.pending.name) {
        var j: int :| 0 <= j < |s'.d.children| && s'.d.children[j] == n;
        Order(s'.d.children, j, i);
      }
    }
  }

  lemma ConsumeKeeps(s: Scan, s': Scan)
    requires Inv(s) && Next(s, s', Consume)
    ensures Inv(s')
  {
    if s.pending.Child? {
      var p := s.pending.name;
      Irreflexive(p);
      if s.h.generation == s.d.generation && s.h.internal >= 0 {
        var i := s.h.internal - 2;
        forall j: int | 0 <= j < |s.d.children| && s.d.children[j] in s.stable
          ensures Child(s.d.children[j]) in s'.consumed <==> j < s'.h.internal - 2
        {
          Order(s.d.children, j, i);
          Order(s.d.children, i, j);
        }
      }
    }
  }

  lemma NextKeeps(s: Scan, s': Scan, step: Step)
    requires Inv(s) && Next(s, s', step)
    ensures Inv(s')
  {
    match step {
      case Insert(name) => InsertKeeps(s, s', name);
      case Remove(name) => RemoveKeeps(s, s', name);
      case RemoveAll =>
      case Check => CheckKeeps(s, s');
      case Read => ReadKeeps(s, s');
      case Consume => ConsumeKeeps(s, s');
    }
  }

  // ----- Runs -----

  /** A fresh or rewound handle; what is there now may turn out stable. */
  ghost predicate Initial(s: Scan)
  {
    && ValidChildren(s.d.children) && s.h == Handle(0, 0, "", s.h.generation) && s.h.generation <= s.d.generation
    && s.pending == End && s.consumed == [] && s.stable == set n | n in s.d.children
  }

  ghost predicate IsRun(states: seq<Scan>, steps: seq<Step>)
  {
    && |states| == |steps| + 1 && Initial(states[0])
    && forall i: int :: 0 <= i < |steps| ==> Next(states[i], states[i + 1], steps[i])
  }

  lemma {:induction false} RunKeeps(states: seq<Scan>, steps: seq<Step>)
    requires IsRun(states, steps)
    ensures Inv(states[|steps|])
  {
    hide Inv, Next;
    if steps == [] {
      InitialHolds(states[0]);
    } else {
      var n := |steps| - 1;
      RunKeeps(states[..|states| - 1], steps[..n]);
      NextKeeps(states[n], states[n + 1], steps[n]);
    }
  }

  lemma InitialHolds(s: Scan)
    requires Initial(s)
    ensures Inv(s)
  {
  }

  /**
   When ReadDir reports the end, every child that was there all along has been consumed
   exactly once, whatever was inserted and removed meanwhile.
   */
  lemma ExactlyOnce(states: seq<Scan>, steps: seq<Step>, name: string)
    requires IsRun(states, steps) && steps != [] && steps[|steps| - 1].Read? && states[|steps|].pending == End
    requires name in states[|steps|].stable
    ensures multiset(states[|steps|].consumed)[Child(name)] == 1
  {
    hide Inv;
    RunKeeps(states, steps);
    EndMeansAll(states[|steps| - 1], states[|steps|], name);
  }

  lemma EndMeansAll(s: Scan, s': Scan, name: string)
    requires Next(s, s', Read) && s'.pending == End && Inv(s') && name in s'.stable
    ensures multiset(s'.consumed)[Child(name)] == 1
  {
    var j: int :| 0 <= j < |s'.d.children| && s'.d.children[j] == name;
    assert Child(name) in s'.consumed;
  }

  /** A child is never consumed twice while it stays, ended or not. */
  lemma NeverTwice(states: seq<Scan>, steps: seq<Step>, name: string)
    requires IsRun(states, steps) && name in states[|steps|].stable
    ensures multiset(states[|steps|].consumed)[Child(name)] <= 1
  {
    RunKeeps(states, steps);
  }

  /**
   The offset given to the caller counts the entries consumed; the directory and its parent
   come first, once each, whatever changes meanwhile.
   */
  lemma OffsetCounts(states: seq<Scan>, steps: seq<Step>)
    requires IsRun(states, steps)
    ensures var s := states[|steps|];
            && s.h.external == |s.consumed|
            && forall i: int :: 0 <= i < |s.consumed| ==>
                 !s.consumed[i].End? && (s.consumed[i].Dot? <==> i == 0) && (s.consumed[i].DotDot? <==> i == 1)
  {
    RunKeeps(states, steps);
  }

  /** A child consumed was there when it was read, at the position the handle had. */
  lemma ReadsWhatIsThere(states: seq<Scan>, steps: seq<Step>)
    requires IsRun(states, steps) && steps != [] && steps[|steps| - 1].Read?
    ensures var s := states[|steps|];
            && (s.pending.Child? ==> s.pending.name in s.d.children)
            && (s.pending.End? ==> s.h.internal == |s.d.children| + 2)
            && (s.h.external <= 1 ==> s.pending == if s.h.external == 0 then Dot else DotDot)
  {
    RunKeeps(states, steps);
    RunKeeps(states[..|steps|], steps[..|steps| - 1]);
    CheckKeeps(states[|steps| - 1], states[|steps|].(pending := End));
  }

  /** ReadDir can be called in every reachable state. */
  lemma CanRead(states: seq<Scan>, steps: seq<Step>) returns (s': Scan)
    requires IsRun(states, steps)
    ensures Next(states[|steps|], s', Read)
  {
    RunKeeps(states, steps);
    var s := states[|steps|];
    var h := CheckPosition(s.d, s.h);
    CheckKeeps(s, s.(h := h, pending := End));
    s' := s.(h := h, pending := EntryAt(s.d, h.internal));
  }

  /** A child that was just removed is not returned. */
  lemma RemovedIsNotReturned(states: seq<Scan>, steps: seq<Step>, name: string)
    requires IsRun(states, steps) && |steps| >= 2 && steps[|steps| - 1].Read?
    requires steps[|steps| - 2] == Remove(name) || steps[|steps| - 2].RemoveAll?
    ensures states[|steps|].pending != Child(name)
  {
    hide Inv;
    var n := |steps| - 2;
    RunKeeps(states[..n + 1], steps[..n]);
    assert Next(states[n], states[n + 1], steps[n]) && Next(states[n + 1], states[n + 2], steps[n + 1]);
    if steps[n].Remove? { GoneAfter(states[n], name); }
  }

  lemma GoneAfter(s: Scan, name: string)
    requires Inv(s) && name in s.d.children
    ensures name !in Without(s.d, name).children
  {
    WithoutIs(s.d, name);
  }
}
