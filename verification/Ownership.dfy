/**
 Which node of a cluster owns an inode. Ownership is a token that moves when a node asks
 the owner for it; terms number the hand-overs. A state holds every node's record of one
 inode and the remote calls in progress; a step is one section under the ownership lock.
 */
module Ownership {
  import opened Options

  datatype Owner = Owner(term: nat, node: int)

  datatype Record = Record(owner: Owner, ready: bool)

  datatype Reply =
    | AnotherOwner(owner: Owner)
    | StolenInode(term: nat)
    | Refused

  /** `declined`: the callee saw that it is not the owner but has not read its record yet. */
  datatype Call = Call(from: int, target: int, steal: bool, declined: bool, reply: Option<Reply>)

  /** `past` is every owner any record ever named; `lost` says that a granted reply never arrived. */
  datatype Cluster = Cluster(records: map<int, Record>, calls: map<int, Call>, past: set<Owner>, lost: bool)

  // ----- One node's record -----

  function WithOwner(r: Record, o: Owner): (r': Record)
    ensures r'.owner.term >= r.owner.term && r'.owner.term >= o.term
  {
    if r.owner.term < o.term then r.(owner := o) else r
  }

  function Yielded(r: Record, newOwner: int): Record
  {
    Record(Owner(r.owner.term + 1, newOwner), false)
  }

  class ClusterInode {
    const id: int
    var ownerTerm: nat
    var owner: int
    var readyOwner: bool

    ghost function AsRecord(): Record
      reads this
    {
      Record(Owner(ownerTerm, owner), readyOwner)
    }

    constructor (id: int, term: nat, owner: int, ready: bool)
      ensures AsRecord() == Record(Owner(term, owner), ready) && this.id == id
    {
      this.id, this.ownerTerm, this.owner, this.readyOwner := id, term, owner, ready;
    }

    method ApplyOwner(o: Owner)
      modifies this
      ensures AsRecord() == WithOwner(old(AsRecord()), o)
      ensures readyOwner == old(readyOwner)
      ensures if old(ownerTerm) < o.term then ownerTerm == o.term && owner == o.node
              else ownerTerm == old(ownerTerm) && owner == old(owner)
    {
      if ownerTerm < o.term {
        ownerTerm, owner := o.term, o.node;
      }
    }

    /** The handler of a steal request; `mayYield` says that the inode is cached and not in use. */
    method TryStealInodeOwnership(from: int, mayYield: bool) returns (r: Option<Reply>)
      modifies this
      ensures r == if old(owner) != id then None
                   else if mayYield then Some(StolenInode(old(ownerTerm) + 1)) else Some(Refused)
      ensures AsRecord() == if r.Some? && r.value.StolenInode? then Yielded(old(AsRecord()), from) else old(AsRecord())
      ensures r.Some? && r.value.StolenInode? ==> ownerTerm == r.value.term && owner == from && !readyOwner
    {
      if owner != id {
        return None;
      }
      if !mayYield {
        return Some(Refused);
      }
      ownerTerm, owner, readyOwner := ownerTerm + 1, from, false;
      return Some(StolenInode(ownerTerm));
    }

    /** The source overwrites the record whatever it says. */
    method ApplyStolenInode(term: nat)
      modifies this
      ensures AsRecord() == Record(Owner(term, id), true)
    {
      ownerTerm, owner, readyOwner := term, id, true;
    }
  }

  // ----- Steps of the cluster -----

  datatype Step =
    | Start(call: int, from: int, steal: bool)
    | Answer(call: int, mayYield: bool)
    | SendOwner(call: int)
    | Receive(call: int)
    | Drop(call: int)
    | Learn(node: int, owner: Owner)

  predicate SelfOwner(s: Cluster, n: int)
  {
    n in s.records && s.records[n].owner.node == n
  }

  predicate Granted(s: Cluster, c: int)
  {
    c in s.calls && s.calls[c].reply.Some? && s.calls[c].reply.value.StolenInode?
  }

  /** A node that is not the owner calls the one it believes to be. */
  ghost predicate StartStep(s: Cluster, s': Cluster, c: int, from: int, steal: bool)
  {
    && c !in s.calls && from in s.records && !SelfOwner(s, from)
    && s' == s.(calls := s.calls[c := Call(from, s.records[from].owner.node, steal, false, None)])
  }

  /** The callee decides under its lock. */
  ghost predicate AnswerStep(s: Cluster, s': Cluster, c: int, mayYield: bool)
  {
    && c in s.calls && s.calls[c].reply.None? && !s.calls[c].declined && s.calls[c].target in s.records
    && var call := s.calls[c];
    var r := s.records[call.target];
    if r.owner.node != call.target then s' == s.(calls := s.calls[c := call.(declined := true)])
    else if call.steal && mayYield then
      var y := Yielded(r, call.from);
      s' == s.(records := s.records[call.target := y], past := s.past + {y.owner},
               calls := s.calls[c := call.(reply := Some(StolenInode(y.owner.term)))])
    else s' == s.(calls := s.calls[c := call.(reply := Some(Refused))])
  }

  /** The callee that declined reads its record, after it released the lock. */
  ghost predicate SendOwnerStep(s: Cluster, s': Cluster, c: int)
  {
    && c in s.calls && s.calls[c].reply.None? && s.calls[c].declined && s.calls[c].target in s.records
    && var call := s.calls[c];
    s' == s.(calls := s.calls[c := call.(reply := Some(AnotherOwner(s.records[call.target].owner)))])
  }

  ghost predicate ReceiveStep(s: Cluster, s': Cluster, c: int)
  {
    && c in s.calls && s.calls[c].reply.Some? && s.calls[c].from in s.records
    && var n, reply := s.calls[c].from, s.calls[c].reply.value;
    var r := match reply
             case AnotherOwner(o) => WithOwner(s.records[n], o)
             case StolenInode(t) => Record(Owner(t, n), true)
             case Refused => s.records[n];
    s' == s.(records := s.records[n := r], calls := s.calls - {c})
  }

  /** A reply is lost on the way. */
  ghost predicate DropStep(s: Cluster, s': Cluster, c: int)
  {
    && c in s.calls && s.calls[c].reply.Some?
    && s' == s.(calls := s.calls - {c}, lost := s.lost || Granted(s, c))
  }

  /** A node that has no record yet learns the inode from some message, however old. */
  ghost predicate LearnStep(s: Cluster, s': Cluster, n: int, o: Owner)
  {
    n !in s.records && o in s.past && s' == s.(records := s.records[n := Record(o, false)])
  }

  ghost predicate Next(s: Cluster, s': Cluster, step: Step)
  {
    match step
    case Start(c, from, steal) => StartStep(s, s', c, from, steal)
    case Answer(c, mayYield) => AnswerStep(s, s', c, mayYield)
    case SendOwner(c) => SendOwnerStep(s, s', c)
    case Receive(c) => ReceiveStep(s, s', c)
    case Drop(c) => DropStep(s, s', c)
    case Learn(n, o) => LearnStep(s, s', n, o)
  }

  /** A node starts no call while another of its calls for this inode is outstanding. */
  ghost predicate Serial(s: Cluster, step: Step)
  {
    step.Start? ==> forall c: int :: c in s.calls ==> s.calls[c].from != step.from
  }

  /** A node takes a token that it has already seen move on: its record has a larger term. */
  ghost predicate Stale(s: Cluster, step: Step)
  {
    && step.Receive? && Granted(s, step.call) && s.calls[step.call].from in s.records
    && s.records[s.calls[step.call].from].owner.term > s.calls[step.call].reply.value.term
  }

  /** Whoever names itself owner does so under the largest term of all. */
  ghost predicate AllNewest(s: Cluster)
  {
    forall n: int, o: Owner :: SelfOwner(s, n) && o in s.past ==> o.term <= s.records[n].owner.term
  }

  // ----- Invariant -----

  /** No owner of the past is newer than `top`; the node of an older one has seen a newer term since. */
  ghost predicate PastAt(s: Cluster, top: Owner, o: Owner)
  {
    o in s.past ==>
      && o.node in s.records && o.term <= top.term
      && (o != top ==> o.term < top.term && s.records[o.node].owner.term > o.term)
  }

  ghost predicate SameTerm(s: Cluster, o: Owner, p: Owner)
  {
    o in s.past && p in s.past && o.term == p.term ==> o == p
  }

  /** A node that names itself owner does so under the newest term, and only such a node is ready. */
  ghost predicate RecordAt(s: Cluster, top: Owner, n: int)
  {
    n in s.records ==>
      && s.records[n].owner in s.past && (s.records[n].owner.node == n ==> s.records[n].owner == top)
      && (s.records[n].ready ==> s.records[n].owner.node == n)
  }

  /** Replies name owners of the past. */
  ghost predicate CallAt(s: Cluster, c: int)
  {
    c in s.calls ==>
      var call := s.calls[c];
      && call.from in s.records
      && (call.reply.Some? && call.reply.value.AnotherOwner? ==> call.reply.value.owner in s.past)
      && (call.reply.Some? && call.reply.value.StolenInode? ==> Owner(call.reply.value.term, call.from) in s.past)
  }

  /** The token is with a node, or on its way, unless a reply that carried it was lost. */
  ghost predicate TokenOk(s: Cluster)
  {
    s.lost || (exists n: int :: SelfOwner(s, n)) || (exists c: int :: Granted(s, c))
  }

  ghost predicate InvWith(s: Cluster, top: Owner)
  {
    && top in s.past && TokenOk(s)
    && (forall o: Owner {:trigger PastAt(s, top, o)} :: PastAt(s, top, o))
    && (forall o: Owner, p: Owner {:trigger SameTerm(s, o, p)} :: SameTerm(s, o, p))
    && (forall n: int {:trigger RecordAt(s, top, n)} :: RecordAt(s, top, n))
    && (forall c: int {:trigger CallAt(s, c)} :: CallAt(s, c))
  }

  // ----- Every step but a stale one keeps it -----

  /** What a step other than a hand-over has to show. */
  lemma KeepsTop(s: Cluster, s': Cluster, top: Owner)
    requires InvWith(s, top) && s'.past == s.past && TokenOk(s')
    requires forall n: int :: n in s.records ==>
               n in s'.records && s'.records[n].owner.term >= s.records[n].owner.term
    requires forall n: int {:trigger RecordAt(s', top, n)} :: RecordAt(s', top, n)
    requires forall c: int {:trigger CallAt(s', c)} :: CallAt(s', c)
    ensures InvWith(s', top)
  {
    forall o: Owner ensures PastAt(s', top, o) { assert PastAt(s, top, o); }
    forall o: Owner, p: Owner ensures SameTerm(s', o, p) { assert SameTerm(s, o, p); }
  }

  /** Steps that only add to the calls, or only move one of them on without granting. */
  lemma CallsKeep(s: Cluster, s': Cluster, c: int, top: Owner)
    requires InvWith(s, top) && s' == s.(calls := s'.calls) && c in s'.calls
    requires s'.calls == s.calls[c := s'.calls[c]] && CallAt(s', c) && !Granted(s, c)
    ensures InvWith(s', top)
  {
    forall n: int ensures RecordAt(s', top, n) { assert RecordAt(s, top, n); }
    forall d: int ensures CallAt(s', d) { assert CallAt(s, d); }
    if n: int :| SelfOwner(s, n) { assert SelfOwner(s', n); }
    if d: int :| Granted(s, d) { assert Granted(s', d); }
    KeepsTop(s, s', top);
  }

  lemma StartKeeps(s: Cluster, s': Cluster, c: int, from: int, steal: bool, top: Owner)
    requires InvWith(s, top) && StartStep(s, s', c, from, steal)
    ensures InvWith(s', top)
  {
    hide InvWith;
    CallsKeep(s, s', c, top);
  }

  /** A hand-over: the new term is larger than any before, and the token is in the reply. */
  lemma GrantKeeps(s: Cluster, s': Cluster, c: int, top: Owner)
    requires InvWith(s, top) && AnswerStep(s, s', c, true)
    requires var call := s.calls[c]; call.steal && s.records[call.target].owner.node == call.target
    ensures var top' := Owner(top.term + 1, s.calls[c].from);
            InvWith(s', top') && s'.past == s.past + {top'} && Granted(s', c)
  {
    var call := s.calls[c];
    var top' := Owner(top.term + 1, call.from);
    assert RecordAt(s, top, call.target) && CallAt(s, c);
    assert Granted(s', c);
    forall o: Owner ensures PastAt(s', top', o) { assert PastAt(s, top, o); }
    forall o: Owner, p: Owner ensures SameTerm(s', o, p) {
      assert SameTerm(s, o, p) && PastAt(s, top, o) && PastAt(s, top, p);
    }
    forall n: int ensures RecordAt(s', top', n) { assert RecordAt(s, top, n); }
    forall d: int ensures CallAt(s', d) { assert CallAt(s, d); }
  }

  lemma DeclineKeeps(s: Cluster, s': Cluster, c: int, mayYield: bool, top: Owner)
    requires InvWith(s, top) && AnswerStep(s, s', c, mayYield)
    requires var call := s.calls[c]; s.records[call.target].owner.node != call.target || !call.steal || !mayYield
    ensures InvWith(s', top)
  {
    assert CallAt(s, c);
    CallsKeep(s, s', c, top);
  }

  lemma SendOwnerKeeps(s: Cluster, s': Cluster, c: int, top: Owner)
    requires InvWith(s, top) && SendOwnerStep(s, s', c)
    ensures InvWith(s', top)
  {
    assert CallAt(s, c) && RecordAt(s, top, s.calls[c].target);
    CallsKeep(s, s', c, top);
  }

  /** The caller takes the token, or a newer owner, or nothing. */
  lemma ReceiveKeeps(s: Cluster, s': Cluster, c: int, top: Owner)
    requires InvWith(s, top) && ReceiveStep(s, s', c) && !Stale(s, Receive(c))
    ensures InvWith(s', top)
  {
    var n := s.calls[c].from;
    assert CallAt(s, c) && RecordAt(s, top, n);
    assert PastAt(s, top, s'.records[n].owner) && PastAt(s, top, s.records[n].owner);
    forall m: int ensures RecordAt(s', top, m) { assert RecordAt(s, top, m); }
    forall d: int ensures CallAt(s', d) { assert CallAt(s, d); }
    TokenReceived(s, s', c, top);
    KeepsTop(s, s', top);
  }

  lemma TokenReceived(s: Cluster, s': Cluster, c: int, top: Owner)
    requires InvWith(s, top) && ReceiveStep(s, s', c)
    ensures TokenOk(s')
  {
    assert CallAt(s, c);
    if Granted(s, c) {
      assert SelfOwner(s', s.calls[c].from);
    } else if m: int :| SelfOwner(s, m) {
      assert RecordAt(s, top, m);
      if s.calls[c].reply.value.AnotherOwner? { assert PastAt(s, top, s.calls[c].reply.value.owner); }
      assert SelfOwner(s', m);
    } else if d: int :| Granted(s, d) {
      assert Granted(s', d);
    }
  }

  lemma DropKeeps(s: Cluster, s': Cluster, c: int, top: Owner)
    requires InvWith(s, top) && DropStep(s, s', c)
    ensures InvWith(s', top)
  {
    forall n: int ensures RecordAt(s', top, n) { assert RecordAt(s, top, n); }
    forall d: int ensures CallAt(s', d) { assert CallAt(s, d); }
    if n: int :| SelfOwner(s, n) { assert SelfOwner(s', n); }
    if d: int :| Granted(s, d) { assert d == c || Granted(s', d); }
    KeepsTop(s, s', top);
  }

  lemma LearnKeeps(s: Cluster, s': Cluster, n: int, o: Owner, top: Owner)
    requires InvWith(s, top) && LearnStep(s, s', n, o)
    ensures InvWith(s', top)
  {
    assert PastAt(s, top, o);
    forall m: int ensures RecordAt(s', top, m) { assert RecordAt(s, top, m); }
    forall d: int ensures CallAt(s', d) { assert CallAt(s, d); }
    if m: int :| SelfOwner(s, m) { assert SelfOwner(s', m); }
    if d: int :| Granted(s, d) { assert Granted(s', d); }
    KeepsTop(s, s', top);
  }

  /** The answer hands the token over. */
  ghost predicate Grants(s: Cluster, step: Step)
  {
    && step.Answer? && step.mayYield && step.call in s.calls && s.calls[step.call].target in s.records
    && s.calls[step.call].steal && SelfOwner(s, s.calls[step.call].target)
  }

  /** The newest owner after a step. */
  ghost function NewTop(s: Cluster, step: Step, top: Owner): Owner
  {
    if Grants(s, step) then Owner(top.term + 1, s.calls[step.call].from) else top
  }

  lemma NextKeeps(s: Cluster, s': Cluster, step: Step, top: Owner)
    requires InvWith(s, top) && Next(s, s', step) && !Stale(s, step)
    ensures InvWith(s', NewTop(s, step, top))
    ensures s'.past == if Grants(s, step) then s.past + {NewTop(s, step, top)} else s.past
  {
    hide InvWith, StartStep, SendOwnerStep, ReceiveStep, DropStep, LearnStep, Stale;
    match step {
      case Start(c, from, steal) => StartKeeps(s, s', c, from, steal, top); NoNewOwner(s, s', step);
      case Answer(c, mayYield) =>
        if Grants(s, step) { GrantKeeps(s, s', c, top); } else { DeclineKeeps(s, s', c, mayYield, top); }
      case SendOwner(c) => SendOwnerKeeps(s, s', c, top); NoNewOwner(s, s', step);
      case Receive(c) => ReceiveKeeps(s, s', c, top); NoNewOwner(s, s', step);
      case Drop(c) => DropKeeps(s, s', c, top); NoNewOwner(s, s', step);
      case Learn(n, o) => LearnKeeps(s, s', n, o, top); NoNewOwner(s, s', step);
    }
  }

  /** Only an answer can name a new owner. */
  lemma NoNewOwner(s: Cluster, s': Cluster, step: Step)
    requires Next(s, s', step) && !step.Answer?
    ensures s'.past == s.past
  {
  }

  /** A stale reply makes a node the owner under a term that is not the newest. */
  lemma StaleBreaks(s: Cluster, s': Cluster, step: Step, top: Owner)
    requires InvWith(s, top) && Next(s, s', step) && Stale(s, step)
    ensures !AllNewest(s')
  {
    var n := s.calls[step.call].from;
    assert RecordAt(s, top, n);
    assert SelfOwner(s', n) && s.records[n].owner in s'.past;
  }

  // ----- Runs -----

  /** One node owns the inode and is ready; every node that knows it names that node. */
  ghost predicate InitialOwner(s: Cluster, n: int)
  {
    && n in s.records && s.past == {Owner(0, n)}
    && forall m: int :: m in s.records ==> s.records[m] == Record(Owner(0, n), m == n)
  }

  ghost predicate Initial(s: Cluster)
  {
    s.calls == map[] && !s.lost && exists n: int :: InitialOwner(s, n)
  }

  lemma InitialHolds(s: Cluster) returns (top: Owner)
    requires Initial(s)
    ensures InvWith(s, top) && SerialInv(s, top)
  {
    var n: int :| InitialOwner(s, n);
    top := Owner(0, n);
    assert SelfOwner(s, n);
  }

  ghost predicate IsRun(states: seq<Cluster>, steps: seq<Step>)
  {
    && |states| == |steps| + 1 && Initial(states[0])
    && forall i: int :: 0 <= i < |steps| ==> Next(states[i], states[i + 1], steps[i])
  }

  /** No node ever takes a token that it has already seen move on. */
  ghost predicate NeverStale(states: seq<Cluster>, steps: seq<Step>)
    requires |states| == |steps| + 1
  {
    forall i: int :: 0 <= i < |steps| ==> !Stale(states[i], steps[i])
  }

  ghost predicate AlwaysNewest(states: seq<Cluster>)
  {
    forall i: int :: 0 <= i < |states| ==> AllNewest(states[i])
  }

  ghost predicate FreshRun(states: seq<Cluster>, steps: seq<Step>)
  {
    IsRun(states, steps) && NeverStale(states, steps)
  }

  lemma {:induction false} RunKeeps(states: seq<Cluster>, steps: seq<Step>) returns (top: Owner)
    requires FreshRun(states, steps)
    ensures InvWith(states[|steps|], top)
  {
    hide InvWith, Initial, Next, Stale, SerialInv;
    if steps == [] {
      top := InitialHolds(states[0]);
    } else {
      var n := |steps| - 1;
      top := RunKeeps(states[..|states| - 1], steps[..n]);
      NextKeeps(states[n], states[n + 1], steps[n], top);
      top := NewTop(states[n], steps[n], top);
    }
  }

  /**
   For every run: all owners are the newest at all times if and only if no node ever takes a
   token under a term smaller than the one in its record.
   */
  lemma {:induction false} NewestExactly(states: seq<Cluster>, steps: seq<Step>)
    requires IsRun(states, steps)
    ensures NeverStale(states, steps) <==> AlwaysNewest(states)
  {
    hide InvWith, Initial, Next, Stale, AllNewest, SerialInv;
    if steps == [] {
      var top := InitialHolds(states[0]);
      TopIsNewest(states[0], top);
    } else {
      var n := |steps| - 1;
      NewestExactly(states[..n + 1], steps[..n]);
      if NeverStale(states[..n + 1], steps[..n]) {
        var top := RunKeeps(states[..n + 1], steps[..n]);
        if Stale(states[n], steps[n]) {
          StaleBreaks(states[n], states[n + 1], steps[n], top);
        } else {
          NextKeeps(states[n], states[n + 1], steps[n], top);
          TopIsNewest(states[n + 1], NewTop(states[n], steps[n], top));
        }
      }
      LastNewest(states, steps);
    }
  }

  /** Both sides hold of a run if they hold of the run without its last step, and of that step. */
  lemma LastNewest(states: seq<Cluster>, steps: seq<Step>)
    requires |states| == |steps| + 1 && steps != []
    ensures var n := |steps| - 1;
            && (NeverStale(states, steps) <==> NeverStale(states[..n + 1], steps[..n]) && !Stale(states[n], steps[n]))
            && (AlwaysNewest(states) <==> AlwaysNewest(states[..n + 1]) && AllNewest(states[n + 1]))
  {
    hide Stale, AllNewest;
    var before := states[..|steps|];
    assert forall i: int :: 0 <= i < |before| ==> before[i] == states[i];
  }

  lemma TopIsNewest(s: Cluster, top: Owner)
    requires InvWith(s, top)
    ensures AllNewest(s) && forall p: Owner :: p in s.past ==> p.term <= top.term
  {
    forall p: Owner | p in s.past ensures p.term <= top.term { assert PastAt(s, top, p); }
    forall n: int | SelfOwner(s, n) ensures s.records[n].owner == top { assert RecordAt(s, top, n); }
  }

  /** In every such run at most one node is the owner, and the token is somewhere unless it was lost. */
  lemma OneOwner(states: seq<Cluster>, steps: seq<Step>)
    requires FreshRun(states, steps)
    ensures var s := states[|steps|];
            && (forall n: int, m: int :: SelfOwner(s, n) && SelfOwner(s, m) ==> n == m)
            && (s.lost || (exists n: int :: SelfOwner(s, n)) || (exists c: int :: Granted(s, c)))
            && (forall n: int :: n in s.records && s.records[n].ready ==> SelfOwner(s, n))
  {
    hide Next, Stale, Initial;
    var top := RunKeeps(states, steps);
    var s := states[|steps|];
    forall n: int, m: int | SelfOwner(s, n) && SelfOwner(s, m) ensures n == m {
      assert RecordAt(s, top, n) && RecordAt(s, top, m);
    }
    forall n: int | n in s.records && s.records[n].ready ensures SelfOwner(s, n) { assert RecordAt(s, top, n); }
  }

  /** Records and messages with the same term name the same owner. */
  lemma TermNamesOwner(states: seq<Cluster>, steps: seq<Step>, o: Owner, p: Owner)
    requires FreshRun(states, steps)
    requires o in states[|steps|].past && p in states[|steps|].past && o.term == p.term
    ensures o == p
    ensures var s := states[|steps|];
            && (forall n: int :: n in s.records ==> s.records[n].owner in s.past)
            && (forall c: int :: c in s.calls && s.calls[c].reply.Some? ==>
                  && (s.calls[c].reply.value.AnotherOwner? ==> s.calls[c].reply.value.owner in s.past)
                  && (s.calls[c].reply.value.StolenInode? ==>
                        Owner(s.calls[c].reply.value.term, s.calls[c].from) in s.past))
  {
    hide Next, Stale, Initial, InvWith;
    var top := RunKeeps(states, steps);
    AllInPast(states[|steps|], top, o, p);
  }

  lemma AllInPast(s: Cluster, top: Owner, o: Owner, p: Owner)
    requires InvWith(s, top)
    ensures o in s.past && p in s.past && o.term == p.term ==> o == p
    ensures forall n: int :: n in s.records ==> s.records[n].owner in s.past
    ensures forall c: int :: c in s.calls && s.calls[c].reply.Some? ==>
              && (s.calls[c].reply.value.AnotherOwner? ==> s.calls[c].reply.value.owner in s.past)
              && (s.calls[c].reply.value.StolenInode? ==>
                    Owner(s.calls[c].reply.value.term, s.calls[c].from) in s.past)
  {
    assert SameTerm(s, o, p);
    forall n: int | n in s.records ensures s.records[n].owner in s.past { assert RecordAt(s, top, n); }
    forall c: int | c in s.calls ensures CallAt(s, c) { }
  }

  /** A hand-over uses a larger term than any before. */
  lemma TermsGrow(states: seq<Cluster>, steps: seq<Step>, o: Owner)
    requires FreshRun(states, steps) && steps != []
    requires o in states[|steps|].past && o !in states[|steps| - 1].past
    ensures forall p: Owner :: p in states[|steps| - 1].past ==> p.term < o.term
  {
    hide Initial, Next, Stale, InvWith, AllNewest;
    var n := |steps| - 1;
    var top := RunKeeps(states[..|states| - 1], steps[..n]);
    NextKeeps(states[n], states[n + 1], steps[n], top);
    TopIsNewest(states[n], top);
  }

  // ----- One call at a time -----

  /** A node with a call outstanding is not the owner; a reply that grants the token grants the newest term. */
  ghost predicate SerialAt(s: Cluster, top: Owner, c: int)
  {
    c in s.calls ==>
      var call := s.calls[c];
      && !SelfOwner(s, call.from)
      && (Granted(s, c) ==> top == Owner(call.reply.value.term, call.from))
  }

  ghost predicate Apart(s: Cluster, c: int, d: int)
  {
    c in s.calls && d in s.calls && c != d ==> s.calls[c].from != s.calls[d].from
  }

  ghost predicate SerialInv(s: Cluster, top: Owner)
  {
    && (forall c: int {:trigger SerialAt(s, top, c)} :: SerialAt(s, top, c))
    && (forall c: int, d: int {:trigger Apart(s, c, d)} :: Apart(s, c, d))
    && (forall n: int {:trigger ReadyAt(s, n)} :: ReadyAt(s, n))
  }

  /** Unless a token was lost, an owner is ready: it has the state that came with the token. */
  ghost predicate ReadyAt(s: Cluster, n: int)
  {
    !s.lost && SelfOwner(s, n) ==> s.records[n].ready
  }

  /** With one call at a time, a reply that grants the token is never stale. */
  lemma SerialNotStale(s: Cluster, step: Step, top: Owner)
    requires InvWith(s, top) && SerialInv(s, top)
    ensures !Stale(s, step)
  {
    if step.Receive? && Granted(s, step.call) {
      var n := s.calls[step.call].from;
      assert SerialAt(s, top, step.call) && RecordAt(s, top, n);
      if n in s.records { assert PastAt(s, top, s.records[n].owner); }
    }
  }

  lemma SerialKeeps(s: Cluster, s': Cluster, step: Step, top: Owner)
    requires InvWith(s, top) && SerialInv(s, top) && Next(s, s', step) && Serial(s, step)
    ensures SerialInv(s', NewTop(s, step, top))
  {
    forall c: int ensures SerialAt(s', NewTop(s, step, top), c) {
      SerialStep(s, s', step, top, c);
    }
    forall c: int, d: int ensures Apart(s', c, d) { assert Apart(s, c, d); }
    forall n: int ensures ReadyAt(s', n) {
      assert ReadyAt(s, n);
      if step.Receive? && n == s.calls[step.call].from { ReceiveReady(s, s', top, step.call); }
      if step.Learn? { assert PastAt(s, top, step.owner); }
      if step.Answer? { assert SerialAt(s, top, step.call); }
    }
  }

  /** A node cannot learn from another that it is the owner, unless the token it was sent is lost. */
  lemma ReceiveReady(s: Cluster, s': Cluster, top: Owner, c: int)
    requires InvWith(s, top) && SerialInv(s, top) && ReceiveStep(s, s', c)
    ensures ReadyAt(s', s.calls[c].from)
  {
    var n := s.calls[c].from;
    assert ReadyAt(s, n) && CallAt(s, c) && RecordAt(s, top, n);
    if s.calls[c].reply.value.AnotherOwner? {
      var o := s.calls[c].reply.value.owner;
      assert PastAt(s, top, o);
      if m: int :| SelfOwner(s, m) { assert RecordAt(s, top, m); }
      if d: int :| Granted(s, d) { assert SerialAt(s, top, d) && Apart(s, c, d); }
    }
  }

  lemma SerialStep(s: Cluster, s': Cluster, step: Step, top: Owner, c: int)
    requires InvWith(s, top) && SerialInv(s, top) && Next(s, s', step) && Serial(s, step)
    ensures SerialAt(s', NewTop(s, step, top), c)
  {
    assert SerialAt(s, top, c);
    match step {
      case Start(d, from, steal) =>
      case Answer(d, mayYield) =>
        assert Apart(s, c, d) && SerialAt(s, top, d) && RecordAt(s, top, s.calls[d].target);
      case SendOwner(d) =>
      case Receive(d) => ReceiveApart(s, s', top, c, d);
      case Drop(d) =>
      case Learn(n, o) => assert CallAt(s, c);
    }
  }

  lemma ReceiveApart(s: Cluster, s': Cluster, top: Owner, c: int, d: int)
    requires InvWith(s, top) && SerialInv(s, top) && ReceiveStep(s, s', d)
    ensures SerialAt(s', top, c)
  {
    assert SerialAt(s, top, c) && Apart(s, c, d);
  }

  ghost predicate SerialRun(states: seq<Cluster>, steps: seq<Step>)
  {
    IsRun(states, steps) && forall i: int :: 0 <= i < |steps| ==> Serial(states[i], steps[i])
  }

  lemma {:induction false} SerialRunKeeps(states: seq<Cluster>, steps: seq<Step>) returns (top: Owner)
    requires SerialRun(states, steps)
    ensures InvWith(states[|steps|], top) && SerialInv(states[|steps|], top) && FreshRun(states, steps)
  {
    hide InvWith, Initial, Next, Serial, Stale, SerialInv, AllNewest;
    if steps == [] {
      top := InitialHolds(states[0]);
    } else {
      var n := |steps| - 1;
      top := SerialRunKeeps(states[..n + 1], steps[..n]);
      SerialNotStale(states[n], steps[n], top);
      NextKeeps(states[n], states[n + 1], steps[n], top);
      SerialKeeps(states[n], states[n + 1], steps[n], top);
      LastNewest(states, steps);
      top := NewTop(states[n], steps[n], top);
    }
  }

  /**
   In every reachable state of a run where each node keeps at most one call outstanding, the
   token is in at most one place, and in exactly one unless a reply that carried it was lost.
   */
  lemma SingleToken(states: seq<Cluster>, steps: seq<Step>)
    requires SerialRun(states, steps)
    ensures var s := states[|steps|];
            && (forall n: int, m: int :: SelfOwner(s, n) && SelfOwner(s, m) ==> n == m)
            && (forall c: int, d: int :: Granted(s, c) && Granted(s, d) ==> c == d)
            && (forall n: int, c: int :: SelfOwner(s, n) ==> !Granted(s, c))
            && (s.lost || (exists n: int :: SelfOwner(s, n)) || (exists c: int :: Granted(s, c)))
            && (!s.lost ==> forall n: int :: SelfOwner(s, n) <==> n in s.records && s.records[n].ready)
  {
    hide Next, Serial, Initial, InvWith, SerialInv, Stale;
    var top := SerialRunKeeps(states, steps);
    OneOwner(states, steps);
    TokenAtMostOnce(states[|steps|], top);
  }

  /** A request for the token that reaches the owner while it may yield makes the caller the owner, ready. */
  lemma StealWorks(s: Cluster, c: int) returns (s1: Cluster, s2: Cluster)
    requires c in s.calls && s.calls[c].reply.None? && !s.calls[c].declined && s.calls[c].steal
    requires SelfOwner(s, s.calls[c].target) && s.calls[c].from in s.records && s.calls[c].from != s.calls[c].target
    ensures Next(s, s1, Answer(c, true)) && Next(s1, s2, Receive(c))
    ensures var n, m := s.calls[c].from, s.calls[c].target;
            && SelfOwner(s2, n) && s2.records[n].ready && !SelfOwner(s2, m) && !s2.records[m].ready
            && s2.records[n].owner.term == s2.records[m].owner.term > s.records[m].owner.term
  {
    var call := s.calls[c];
    var y := Yielded(s.records[call.target], call.from);
    s1 := s.(records := s.records[call.target := y], past := s.past + {y.owner},
             calls := s.calls[c := call.(reply := Some(StolenInode(y.owner.term)))]);
    s2 := s1.(records := s1.records[call.from := Record(Owner(y.owner.term, call.from), true)],
              calls := s1.calls - {c});
  }

  lemma TokenAtMostOnce(s: Cluster, top: Owner)
    requires InvWith(s, top) && SerialInv(s, top)
    ensures forall c: int, d: int :: Granted(s, c) && Granted(s, d) ==> c == d
    ensures forall n: int, c: int :: SelfOwner(s, n) ==> !Granted(s, c)
    ensures !s.lost ==> forall n: int :: SelfOwner(s, n) ==> s.records[n].ready
  {
    forall n: int | !s.lost && SelfOwner(s, n) ensures s.records[n].ready { assert ReadyAt(s, n); }
    forall c: int, d: int | Granted(s, c) && Granted(s, d) ensures c == d {
      assert SerialAt(s, top, c) && SerialAt(s, top, d) && Apart(s, c, d);
    }
    forall n: int, c: int | SelfOwner(s, n) ensures !Granted(s, c) {
      assert RecordAt(s, top, n) && SerialAt(s, top, c);
    }
  }

  /** After a reply was lost, or told of another owner, the caller may ask again. */
  lemma CanAskAgain(states: seq<Cluster>, steps: seq<Step>, c: int, s': Cluster, step: Step, d: int)
    returns (s'': Cluster)
    requires SerialRun(states, steps) && Next(states[|steps|], s', step) && (step == Drop(c) || step == Receive(c))
    requires var n := states[|steps|].calls[c].from; !SelfOwner(s', n) && d !in s'.calls
    ensures var n := states[|steps|].calls[c].from;
            Next(s', s'', Start(d, n, true)) && Serial(s', Start(d, n, true))
  {
    hide Initial, Serial;
    var top := SerialRunKeeps(states, steps);
    var s := states[|steps|];
    var n := s.calls[c].from;
    assert CallAt(s, c);
    s'' := s'.(calls := s'.calls[d := Call(n, s'.records[n].owner.node, true, false, None)]);
    AloneAfter(s, s', top, c, d);
  }

  lemma AloneAfter(s: Cluster, s': Cluster, top: Owner, c: int, d: int)
    requires SerialInv(s, top) && c in s.calls && s'.calls == s.calls - {c}
    ensures Serial(s', Start(d, s.calls[c].from, true))
  {
    forall e: int | e in s'.calls ensures s'.calls[e].from != s.calls[c].from { assert Apart(s, c, e); }
  }

  // ----- Two calls at once -----

  lemma Extend(states: seq<Cluster>, steps: seq<Step>, s': Cluster, step: Step)
    requires IsRun(states, steps) && Next(states[|steps|], s', step)
    ensures IsRun(states + [s'], steps + [step])
  {
    var more, after := states + [s'], steps + [step];
    forall i: int | 0 <= i < |after| ensures Next(more[i], more[i + 1], after[i]) {
      if i < |steps| { assert Next(states[i], states[i + 1], steps[i]); }
    }
  }

  /** A node that is not the owner is told so and learns whom its callee names. */
  lemma AskOwner(states: seq<Cluster>, steps: seq<Step>, c: int) returns (more: seq<Cluster>, after: seq<Step>)
    requires |states| == |steps| + 1 && IsRun(states, steps)
    requires var s := states[|steps|];
             && c in s.calls && s.calls[c].reply.None? && !s.calls[c].declined && s.calls[c].from in s.records
             && s.calls[c].target in s.records && s.records[s.calls[c].target].owner.node != s.calls[c].target
    ensures |more| == |after| + 1 && IsRun(more, after)
    ensures var s, s' := states[|steps|], more[|after|];
            var n, o := s.calls[c].from, s.records[s.calls[c].target].owner;
            s' == s.(records := s.records[n := WithOwner(s.records[n], o)], calls := s'.calls)
              && s'.calls == s.calls - {c}
  {
    hide IsRun;
    var s := states[|steps|];
    var call, o := s.calls[c], s.records[s.calls[c].target].owner;
    var s1 := s.(calls := s.calls[c := call.(declined := true)]);
    more, after := Go(states, steps, s1, Answer(c, false));
    var s2 := s1.(calls := s1.calls[c := s1.calls[c].(reply := Some(AnotherOwner(o)))]);
    more, after := Go(more, after, s2, SendOwner(c));
    var s3 := s2.(records := s2.records[call.from := WithOwner(s2.records[call.from], o)], calls := s2.calls - {c});
    more, after := Go(more, after, s3, Receive(c));
  }

  /** Node 1 asks node 0 for the token and, at the same time, for an operation. */
  lemma TwoCalls() returns (states: seq<Cluster>, steps: seq<Step>)
    ensures |states| == |steps| + 1 && IsRun(states, steps)
    ensures var s := states[|steps|];
            && s.records ==
              map[0 := Record(Owner(1, 1), false), 1 := Record(Owner(1, 1), false), 2 := Record(Owner(0, 0), false)]
            && s.calls == map[10 := Call(1, 0, true, false, Some(StolenInode(1)))]
  {
    hide IsRun;
    var r, other := Record(Owner(0, 0), true), Record(Owner(0, 0), false);
    var s := Cluster(map[0 := r, 1 := other, 2 := other], map[], {Owner(0, 0)}, false);
    assert InitialOwner(s, 0);
    states, steps := Begin(s);
    var s1 := s.(calls := s.calls[10 := Call(1, 0, true, false, None)]);
    states, steps := Go(states, steps, s1, Start(10, 1, true));
    var s2 := s1.(calls := s1.calls[11 := Call(1, 0, false, false, None)]);
    states, steps := Go(states, steps, s2, Start(11, 1, false));
    var s3 := s2.(records := s2.records[0 := Yielded(r, 1)], past := s2.past + {Owner(1, 1)},
                  calls := s2.calls[10 := s2.calls[10].(reply := Some(StolenInode(1)))]);
    states, steps := Go(states, steps, s3, Answer(10, true));
    states, steps := AskOwner(states, steps, 11);
  }

  /**
   Without either condition the property fails: node 1 learns of its ownership from the second
   reply, hands the token on to node 2, and then takes it back with the first reply.
   */
  lemma TwoCallsTwoOwners() returns (states: seq<Cluster>, steps: seq<Step>)
    ensures IsRun(states, steps) && SelfOwner(states[|steps|], 1) && SelfOwner(states[|steps|], 2)
  {
    hide IsRun;
    states, steps := TwoCalls();
    var s := states[|steps|];
    states, steps := Go(states, steps, s.(calls := s.calls[12 := Call(2, 0, false, false, None)]), Start(12, 2, false));
    states, steps := AskOwner(states, steps, 12);
    s := states[|steps|];
    states, steps := Go(states, steps, s.(calls := s.calls[13 := Call(2, 1, true, false, None)]), Start(13, 2, true));
    s := states[|steps|];
    states, steps := Go(states, steps,
                        s.(records := s.records[1 := Yielded(s.records[1], 2)], past := s.past + {Owner(2, 2)},
                           calls := s.calls[13 := s.calls[13].(reply := Some(StolenInode(2)))]), Answer(13, true));
    s := states[|steps|];
    states, steps := Go(states, steps,
                        s.(records := s.records[2 := Record(Owner(2, 2), true)], calls := s.calls - {13}), Receive(13));
    s := states[|steps|];
    states, steps := Go(states, steps,
                        s.(records := s.records[1 := Record(Owner(1, 1), true)], calls := s.calls - {10}), Receive(10));
  }

  lemma Begin(s: Cluster) returns (states: seq<Cluster>, steps: seq<Step>)
    requires Initial(s)
    ensures IsRun(states, steps) && states[|steps|] == s
  {
    states, steps := [s], [];
  }

  lemma Go(states: seq<Cluster>, steps: seq<Step>, s': Cluster, step: Step)
    returns (more: seq<Cluster>, after: seq<Step>)
    requires IsRun(states, steps) && Next(states[|steps|], s', step)
    ensures |more| == |after| + 1 && IsRun(more, after) && more[|after|] == s'
  {
    Extend(states, steps, s', step);
    more, after := states + [s'], steps + [step];
  }
}
