/**
  One producer thread calling `MSIM_TSQ_Enqb` and one consumer thread calling
  `MSIM_TSQ_Deqb` (src/msim_tsq.c), as a state machine whose steps interleave in
  any order.  A thread holds the mutex from the lock to the wait or the unlock; a
  waiting thread goes on only when it has been signalled.
 */
module TsqThreads {
  import opened Basics
  import opened Tsq

  datatype Producer =
    | PIdle
    | PLocking(e: seq<byte>)
    | PTesting(e: seq<byte>)
    | PWaiting(e: seq<byte>)
    | PWoken(e: seq<byte>)
    | PStoring(e: seq<byte>)
    | PSignalling
    | PUnlocking
  {
    predicate Holds() {
      PTesting? || PStoring? || PSignalling? || PUnlocking?
    }
  }

  datatype Consumer =
    | CIdle
    | CLocking(len: nat)
    | CTesting(len: nat)
    | CWaiting(len: nat)
    | CWoken(len: nat)
    | CTaking(len: nat)
    | CSignalling
    | CUnlocking
  {
    predicate Holds() {
      CTesting? || CTaking? || CSignalling? || CUnlocking?
    }
  }

  /** The shared queue, its mutex, both threads, and what has been stored and taken so far. */
  datatype System = System(ring: Ring, locked: bool, p: Producer, c: Consumer,
                           stored: seq<seq<byte>>, taken: seq<seq<byte>>)

  /** The steps of the producer (P...) and of the consumer (C...); a call names its argument. */
  datatype Action =
    | PCall(message: seq<byte>) | PLock | PTest | PRelock | PStore | PSignal | PUnlock
    | CCall(size: nat) | CLock | CTest | CRelock | CTake | CSignal | CUnlock

  predicate Enabled(s: System, a: Action) {
    match a
    case PCall(_) => s.p.PIdle?
    case PLock => s.p.PLocking? && !s.locked
    case PTest => s.p.PTesting?
    case PRelock => s.p.PWoken? && !s.locked
    case PStore => s.p.PStoring? && s.ring.tail < |s.ring.slots| && |s.p.e| <= ELEMSZ
    case PSignal => s.p.PSignalling?
    case PUnlock => s.p.PUnlocking?
    case CCall(size) => s.c.CIdle? && size <= ELEMSZ
    case CLock => s.c.CLocking? && !s.locked
    case CTest => s.c.CTesting?
    case CRelock => s.c.CWoken? && !s.locked
    case CTake => s.c.CTaking? && s.ring.head < |s.ring.slots| && s.c.len <= ELEMSZ
    case CSignal => s.c.CSignalling?
    case CUnlock => s.c.CUnlocking?
  }

  function Do(s: System, a: Action): System
    requires Enabled(s, a)
  {
    match a
    case PCall(message) => if |message| > ELEMSZ then s else s.(p := PLocking(message))
    case PLock => s.(p := PTesting(s.p.e), locked := true)
    case PTest => if s.ring.Full() then s.(p := PWaiting(s.p.e), locked := false) else s.(p := PStoring(s.p.e))
    case PRelock => s.(p := PStoring(s.p.e), locked := true)
    case PStore => s.(ring := s.ring.Stored(s.p.e), stored := s.stored + [s.p.e], p := PSignalling)
    case PSignal => s.(p := PUnlocking, c := if s.c.CWaiting? then CWoken(s.c.len) else s.c)
    case PUnlock => s.(p := PIdle, locked := false)
    case CCall(size) => if size == 0 then s else s.(c := CLocking(size))
    case CLock => s.(c := CTesting(s.c.len), locked := true)
    case CTest => if s.ring.Empty() then s.(c := CWaiting(s.c.len), locked := false) else s.(c := CTaking(s.c.len))
    case CRelock => s.(c := CTaking(s.c.len), locked := true)
    case CTake => s.(ring := s.ring.Taken(),
        taken := s.taken + [s.ring.slots[s.ring.head][..s.c.len]], c := CSignalling)
    case CSignal => s.(c := CUnlocking, p := if s.p.PWaiting? then PWoken(s.p.e) else s.p)
    case CUnlock => s.(c := CIdle, locked := false)
  }

  ghost predicate Initial(s: System) {
    && s.ring.Valid() && s.ring.length == 0
    && !s.locked && s.p == PIdle && s.c == CIdle && s.stored == [] && s.taken == []
  }

  /** The states ss[0], ss[1], ... of a run under the actions as. */
  ghost predicate Run(ss: seq<System>, actions: seq<Action>) {
    && |ss| == |actions| + 1 && Initial(ss[0])
    && forall k :: 0 <= k < |actions| ==> Next(ss, actions, k)
  }

  ghost predicate Next(ss: seq<System>, actions: seq<Action>, k: nat)
    requires k < |actions| && k + 1 < |ss|
  {
    Enabled(ss[k], actions[k]) && ss[k + 1] == Do(ss[k], actions[k])
  }

  // ---------- what every step keeps ----------

  /** Both describe the same bytes as far as both go. */
  predicate Agree(x: seq<byte>, y: seq<byte>) {
    var n := if |x| <= |y| then |x| else |y|;
    x[..n] == y[..n]
  }

  /** The queue holds the stored messages that have not been taken; what was taken is what was stored. */
  ghost predicate Fifo(s: System)
    requires s.ring.Valid()
  {
    && |s.taken| + s.ring.length == |s.stored|
    && (forall k :: 0 <= k < |s.taken| ==> Agree(s.stored[k], s.taken[k]))
    && (forall k :: 0 <= k < s.ring.length ==> HoldsMessage(s, k))
  }

  ghost predicate HoldsMessage(s: System, k: nat)
    requires s.ring.Valid() && k < s.ring.length && |s.taken| + s.ring.length == |s.stored|
  {
    var e := s.stored[|s.taken| + k];
    |e| <= ELEMSZ && s.ring.Contents()[k][..|e|] == e
  }

  /** At most one thread holds the mutex. */
  ghost predicate Exclusive(s: System) {
    (s.locked <==> s.p.Holds() || s.c.Holds()) && !(s.p.Holds() && s.c.Holds())
  }

  /**
    A thread waits without a signal only if the ring gives it a reason to, or the
    other thread is about to signal; a thread that will go on without another
    test, and the one that is about to signal, find the ring as they should.
   */
  ghost predicate Justified(s: System) {
    && (s.p.PWaiting? ==> s.ring.length == |s.ring.slots| || s.c.CSignalling?)
    && (s.p.PWoken? || s.p.PStoring? || s.c.CSignalling? ==> s.ring.length < |s.ring.slots|)
    && (s.c.CWaiting? ==> s.ring.length == 0 || s.p.PSignalling?)
    && (s.c.CWoken? || s.c.CTaking? || s.p.PSignalling? ==> s.ring.length > 0)
  }

  ghost predicate Sized(s: System) {
    && (s.p.PLocking? || s.p.PTesting? || s.p.PWaiting? || s.p.PWoken? || s.p.PStoring? ==> |s.p.e| <= ELEMSZ)
    && (s.c.CLocking? || s.c.CTesting? || s.c.CWaiting? || s.c.CWoken? || s.c.CTaking? ==> 0 < s.c.len <= ELEMSZ)
  }

  ghost predicate Inv(s: System) {
    s.ring.Valid() && Fifo(s) && Exclusive(s) && Justified(s) && Sized(s)
  }

  lemma StoreKeepsFifo(s: System)
    requires Inv(s) && Enabled(s, PStore)
    ensures var s' := Do(s, PStore); s'.ring.Valid() && Fifo(s') && s'.ring.length == s.ring.length + 1
    ensures |Do(s, PStore).ring.slots| == |s.ring.slots|
  {
    var s' := Do(s, PStore);
    StoreAppends(s.ring, s.p.e);
    forall k | 0 <= k < s'.ring.length
      ensures HoldsMessage(s', k)
    {
      assert k < s.ring.length ==> HoldsMessage(s, k);
    }
  }

  lemma TakeKeepsFifo(s: System)
    requires Inv(s) && Enabled(s, CTake)
    ensures var s' := Do(s, CTake); s'.ring.Valid() && Fifo(s') && s'.ring.length == s.ring.length - 1
    ensures Do(s, CTake).ring.slots == s.ring.slots
  {
    var s' := Do(s, CTake);
    TakeRemoves(s.ring);
    assert HoldsMessage(s, 0);
    forall k | 0 <= k < |s'.taken|
      ensures Agree(s'.stored[k], s'.taken[k])
    {
      if k == |s.taken| {
        var e, slot, n := s.stored[k], s.ring.slots[s.ring.head], s.c.len;
        assert slot[..|e|] == e && s'.taken[k] == slot[..n];
        var m := if |e| <= n then |e| else n;
        assert e[..m] == slot[..|e|][..m] == slot[..m] == slot[..n][..m];
      }
    }
    forall k | 0 <= k < s'.ring.length
      ensures HoldsMessage(s', k)
    {
      assert HoldsMessage(s, k + 1);
      assert s'.ring.Contents()[k] == s.ring.Contents()[k + 1];
    }
  }

  lemma StepKeepsMutex(s: System, a: Action)
    requires Inv(s) && Enabled(s, a)
    ensures Exclusive(Do(s, a)) && Sized(Do(s, a))
  {
    hide Fifo, Ring.Valid, Ring.Full, Ring.Empty, Ring.Stored, Ring.Taken, Justified;
  }

  /** Every step of either thread keeps the invariant. */
  lemma StepKeepsInv(s: System, a: Action)
    requires Inv(s) && Enabled(s, a)
    ensures Inv(Do(s, a))
  {
    hide Fifo, Ring.Full, Ring.Empty, Ring.Stored, Ring.Taken, Sized;
    FullAndEmpty(s.ring);
    StepKeepsMutex(s, a);
    if a == PStore {
      StoreKeepsFifo(s);
    } else if a == CTake {
      TakeKeepsFifo(s);
    } else {
      FifoSame(s, Do(s, a));
    }
  }

  lemma FifoSame(s: System, s': System)
    requires s.ring.Valid() && Fifo(s) && s'.ring == s.ring && s'.stored == s.stored && s'.taken == s.taken
    ensures Fifo(s')
  {
    forall k | 0 <= k < s.ring.length
      ensures HoldsMessage(s', k)
    {
      assert HoldsMessage(s, k);
    }
  }

  lemma {:induction false} RunKeepsInv(ss: seq<System>, actions: seq<Action>, k: nat)
    requires Run(ss, actions) && k < |ss|
    ensures Inv(ss[k])
    decreases k
  {
    if k > 0 {
      RunKeepsInv(ss, actions, k - 1);
      assert Next(ss, actions, k - 1);
      StepKeepsInv(ss[k - 1], actions[k - 1]);
    }
  }

  // ---------- what a run guarantees ----------

  /** First in, first out: at every moment, what has been taken is a prefix of what has been stored. */
  lemma FirstInFirstOut(ss: seq<System>, actions: seq<Action>, k: nat)
    requires Run(ss, actions) && k < |ss|
    ensures |ss[k].taken| <= |ss[k].stored|
    ensures forall i :: 0 <= i < |ss[k].taken| ==> Agree(ss[k].stored[i], ss[k].taken[i])
    ensures |ss[k].stored| - |ss[k].taken| == ss[k].ring.length <= |ss[k].ring.slots| && 0 < |ss[k].ring.slots|
    ensures ss[k].ring.tail == (ss[k].ring.head + ss[k].ring.length) % |ss[k].ring.slots|
  {
    RunKeepsInv(ss, actions, k);
    WrapIsMod(ss[k].ring.head + ss[k].ring.length, |ss[k].ring.slots|);
  }

  /** The threads never wait for each other, and no wakeup is lost. */
  lemma NoLostWakeup(ss: seq<System>, actions: seq<Action>, k: nat)
    requires Run(ss, actions) && k < |ss|
    ensures !(ss[k].p.PWaiting? && ss[k].c.CWaiting?)
    ensures ss[k].p.PWaiting? ==> ss[k].ring.Full() || ss[k].c.CSignalling?
    ensures ss[k].c.CWaiting? ==> ss[k].ring.Empty() || ss[k].p.PSignalling?
  {
    RunKeepsInv(ss, actions, k);
    FullAndEmpty(ss[k].ring);
  }

  predicate IsCall(a: Action) {
    a.PCall? || a.CCall?
  }

  /** A run cannot be stuck: unless each thread is idle or waits, one of them has a step inside its call. */
  lemma NeverStuck(ss: seq<System>, actions: seq<Action>, k: nat)
    requires Run(ss, actions) && k < |ss|
    ensures
      || ((ss[k].p.PIdle? || ss[k].p.PWaiting?) && (ss[k].c.CIdle? || ss[k].c.CWaiting?))
      || exists a :: !IsCall(a) && Enabled(ss[k], a)
  {
    RunKeepsInv(ss, actions, k);
    var s := ss[k];
    var p := match s.p
      case PLocking(_) => PLock case PTesting(_) => PTest case PWoken(_) => PRelock
      case PStoring(_) => PStore case PSignalling => PSignal case _ => PUnlock;
    var c := match s.c
      case CLocking(_) => CLock case CTesting(_) => CTest case CWoken(_) => CRelock
      case CTaking(_) => CTake case CSignalling => CSignal case _ => CUnlock;
    assert Enabled(s, p) || Enabled(s, c) || ((s.p.PIdle? || s.p.PWaiting?) && (s.c.CIdle? || s.c.CWaiting?));
  }

  /** The states reached from s under a schedule of actions. */
  function DoAll(s: System, actions: seq<Action>): (r: Option<System>)
    decreases actions
  {
    if actions == [] then Some(s)
    else if !Enabled(s, actions[0]) then None
    else DoAll(Do(s, actions[0]), actions[1..])
  }

  predicate ByConsumer(a: Action) {
    a.CCall? || a == CLock || a == CTest || a == CRelock || a == CTake || a == CSignal || a == CUnlock
  }

  predicate ByProducer(a: Action) {
    a.PCall? || a == PLock || a == PTest || a == PRelock || a == PStore || a == PSignal || a == PUnlock
  }

  /** Steps the consumer still has to make before it signals. */
  function ConsumerRank(c: Consumer): nat {
    match c
    case CUnlocking => 6
    case CIdle => 5
    case CLocking(_) => 4
    case CTesting(_) => 3
    case CWoken(_) => 3
    case CTaking(_) => 2
    case CSignalling => 1
    case CWaiting(_) => 0
  }

  /** A waiting producer is woken by the consumer alone, at most six steps later, if that keeps calling. */
  lemma {:induction false} ProducerIsWoken(s: System, size: nat) returns (schedule: seq<Action>)
    requires Inv(s) && s.p.PWaiting? && 0 < size <= ELEMSZ
    ensures |schedule| <= 6 && forall a :: a in schedule ==> ByConsumer(a)
    ensures DoAll(s, schedule).Some? && DoAll(s, schedule).value.p == PWoken(s.p.e)
    ensures |schedule| == ConsumerRank(s.c)
    decreases ConsumerRank(s.c)
  {
    FullAndEmpty(s.ring);
    var a := match s.c
      case CIdle => CCall(size) case CLocking(_) => CLock case CTesting(_) => CTest case CWoken(_) => CRelock
      case CTaking(_) => CTake case CSignalling => CSignal case _ => CUnlock;
    assert Enabled(s, a);
    var s' := Do(s, a);
    StepKeepsInv(s, a);
    hide Inv;
    if a == CSignal {
      schedule := [a];
      assert schedule[1..] == [];
    } else {
      var later := ProducerIsWoken(s', size);
      schedule := [a] + later;
      assert schedule[1..] == later;
    }
  }

  function ProducerRank(p: Producer): nat {
    match p
    case PUnlocking => 6
    case PIdle => 5
    case PLocking(_) => 4
    case PTesting(_) => 3
    case PWoken(_) => 3
    case PStoring(_) => 2
    case PSignalling => 1
    case PWaiting(_) => 0
  }

  /** A waiting consumer is woken by the producer alone. */
  lemma {:induction false} ConsumerIsWoken(s: System, message: seq<byte>) returns (schedule: seq<Action>)
    requires Inv(s) && s.c.CWaiting? && |message| <= ELEMSZ
    ensures |schedule| <= 6 && forall a :: a in schedule ==> ByProducer(a)
    ensures DoAll(s, schedule).Some? && DoAll(s, schedule).value.c == CWoken(s.c.len)
    ensures |schedule| == ProducerRank(s.p)
    decreases ProducerRank(s.p)
  {
    FullAndEmpty(s.ring);
    var a := match s.p
      case PIdle => PCall(message) case PLocking(_) => PLock case PTesting(_) => PTest case PWoken(_) => PRelock
      case PStoring(_) => PStore case PSignalling => PSignal case _ => PUnlock;
    assert Enabled(s, a);
    var s' := Do(s, a);
    StepKeepsInv(s, a);
    hide Inv;
    if a == PSignal {
      schedule := [a];
      assert schedule[1..] == [];
    } else {
      var later := ConsumerIsWoken(s', message);
      schedule := [a] + later;
      assert schedule[1..] == later;
    }
  }
  // ---------- every call does what it was made for ----------

  /** The message of a call that is accepted, and the size asked for by one. */
  function Offers(a: Action): seq<seq<byte>> {
    if a.PCall? && |a.message| <= ELEMSZ then [a.message] else []
  }

  function Asks(a: Action): seq<nat> {
    if a.CCall? && a.size > 0 then [a.size] else []
  }

  function Offered(actions: seq<Action>): seq<seq<byte>> {
    if actions == [] then [] else Offered(actions[..|actions| - 1]) + Offers(actions[|actions| - 1])
  }

  function Asked(actions: seq<Action>): seq<nat> {
    if actions == [] then [] else Asked(actions[..|actions| - 1]) + Asks(actions[|actions| - 1])
  }

  /** What a thread inside a call still has to store, or to take. */
  function ToStore(p: Producer): seq<seq<byte>> {
    if p.PLocking? || p.PTesting? || p.PWaiting? || p.PWoken? || p.PStoring? then [p.e] else []
  }

  function ToTake(c: Consumer): seq<nat> {
    if c.CLocking? || c.CTesting? || c.CWaiting? || c.CWoken? || c.CTaking? then [c.len] else []
  }

  function Sizes(taken: seq<seq<byte>>): (r: seq<nat>)
    ensures |r| == |taken|
  {
    seq(|taken|, k requires 0 <= k < |taken| => |taken[k]|)
  }

  lemma StepServes(s: System, a: Action)
    requires Inv(s) && Enabled(s, a)
    ensures Do(s, a).stored + ToStore(Do(s, a).p) == s.stored + ToStore(s.p) + Offers(a)
    ensures Sizes(Do(s, a).taken) + ToTake(Do(s, a).c) == Sizes(s.taken) + ToTake(s.c) + Asks(a)
  {
    hide Fifo, Ring.Full, Ring.Empty, Ring.Stored, Ring.Taken, Exclusive, Justified;
  }

  /**
    Over every run each call does its work once and none leaves without it: the messages of the calls,
    in order, are those stored and the one still to be stored; the sizes asked for are those taken and
    the one still to be taken.
   */
  lemma {:induction false} CallsServed(ss: seq<System>, actions: seq<Action>, k: nat)
    requires Run(ss, actions) && k <= |actions|
    ensures Offered(actions[..k]) == ss[k].stored + ToStore(ss[k].p)
    ensures Asked(actions[..k]) == Sizes(ss[k].taken) + ToTake(ss[k].c)
    decreases k
  {
    if k > 0 {
      CallsServed(ss, actions, k - 1);
      RunKeepsInv(ss, actions, k - 1);
      assert Next(ss, actions, k - 1);
      StepServes(ss[k - 1], actions[k - 1]);
      assert actions[..k][..k - 1] == actions[..k - 1];
      hide Inv, Do, Enabled, Sizes, ToStore, ToTake, Offers, Asks;
    }
  }
}
