/**
  How interrupt flags become requests (src/avr/avr_simcore.c, `pass_irqs`): each enabled
  flag is handed over once, and no other flag or request changes.
 */
module IrqFlags {
  import opened Arithmetic
  import opened Basics
  import opened Core

  // ---------- clearing a bit ----------

  lemma {:induction false} Pow2Adds(j: nat, k: nat)
    ensures Pow2(j + k) == Pow2(j) * Pow2(k)
    decreases k
  {
    if k > 0 {
      Pow2Adds(j, k - 1);
      MulAssociates(2, Pow2(j), Pow2(k - 1));
    }
  }

  lemma LowerKept(v: nat, p: int, h: int)
    requires p > 0 && p * (2 * h) <= v
    ensures (v - p * (2 * h)) / p == v / p - 2 * h
  {
    var q, r := DivMod(v, p);
    MulDistributes(p, q, 2 * h);
    DivModUnique(v - p * (2 * h), p, q - 2 * h, r);
  }

  /** Clearing bit b of v leaves the bits below it. */
  lemma LowerBitKept(v: nat, b: nat, c: nat)
    requires c < b && Pow2(b) <= v
    ensures (v - Pow2(b)) / Pow2(c) % 2 == v / Pow2(c) % 2
  {
    var h := Pow2(b - c - 1);
    Pow2Adds(c, b - c);
    assert Pow2(b) == Pow2(c) * (2 * h);
    hide Pow2;
    LowerKept(v, Pow2(c), h);
  }

  lemma HigherKept(v: nat, p: int, d: int)
    requires p > 0 && d > 0 && v / p % 2 == 1
    ensures v / (p * (2 * d)) == (v - p) / (p * (2 * d))
  {
    var q, r := DivMod(v, p);
    var h := q / 2;
    var e, f := DivMod(h, d);
    MulAssociates(2, d, e);
    assert q == 2 * d * e + (2 * f + 1);
    MulDistributes(p, q, 1);
    AboveKept(v, p, 2 * d, e, 2 * f + 1, r);
    AboveKept(v - p, p, 2 * d, e, 2 * f, r);
  }

  /** Clearing bit b of v, which is set, leaves the bits above it. */
  lemma HigherBitKept(v: nat, b: nat, c: nat)
    requires b < c && v / Pow2(b) % 2 == 1
    ensures v >= Pow2(b) && (v - Pow2(b)) / Pow2(c) % 2 == v / Pow2(c) % 2
  {
    SetIsLarge(v, Pow2(b));
    var d := Pow2(c - b - 1);
    Pow2Adds(b, c - b);
    assert Pow2(c) == Pow2(b) * (2 * d);
    hide Pow2;
    HigherKept(v, Pow2(b), d);
  }

  lemma AboveKept(v: int, p: int, d: int, e: int, f: int, r: int)
    requires p > 0 && d > 0 && 0 <= f < d && 0 <= r < p && v == p * (d * e + f) + r
    ensures v / (p * d) == e
  {
    MulDistributes(p, d * e, f);
    MulAssociates(p, d, e);
    MulDistributes(p, d - 1, f);
    MulDistributes(p, d, 1);
    var g := p * f + r;
    assert v == (p * d) * e + g;
    Below(p, d, f, r);
    DivModUnique(v, p * d, e, g);
  }

  lemma Below(p: int, d: int, f: int, r: int)
    requires p > 0 && 0 <= f < d && 0 <= r < p
    ensures 0 <= p * f + r < p * d
  {
    MulDistributes(p, d, f);
    MulAtLeast(p, d - f);
  }

  /** Clearing a bit clears it and no other. */
  lemma ClearedOnly(d: Data, b: IoBit, c: IoBit)
    requires b.Valid() && c.Valid() && Read(d, b) == 1
    ensures Read(Clear(d, b), c) == if c == b then 0 else Read(d, c)
  {
    hide Pow2;
    if c.reg == b.reg {
      var v: nat := d[b.reg];
      SetIsLarge(v, Pow2(b.bit));
      if c.bit < b.bit {
        LowerBitKept(v, b.bit, c.bit);
      } else if b.bit < c.bit {
        HigherBitKept(v, b.bit, c.bit);
      } else {
        SameBitCleared(v, Pow2(b.bit));
      }
    }
  }

  lemma SameBitCleared(v: nat, p: nat)
    requires p > 0 && v / p % 2 == 1
    ensures (v - p) / p % 2 == 0
  {
    var q, r := DivMod(v, p);
    MulDistributes(p, q, 1);
    DivModUnique(v - p, p, q - 1, r);
  }

  // ---------- passing flags ----------

  /** The vectors of a table up to its first gap. */
  function Live(vecs: seq<Option<IntVec>>): (vs: seq<IntVec>)
    requires AllValid(vecs)
    ensures forall k :: 0 <= k < |vs| ==> vs[k].Valid()
    decreases |vecs|
  {
    if vecs == [] || vecs[0].None? then [] else [vecs[0].value] + Live(vecs[1..])
  }

  /** The vectors that are looked at: those of each timer up to its first gaps. */
  function AllLive(timers: seq<TimerVecs>): (vs: seq<IntVec>)
    requires TimersValid(timers)
    ensures forall k :: 0 <= k < |vs| ==> vs[k].Valid()
    decreases |timers|
  {
    if timers == [] then [] else Live(timers[0].own) + Live(timers[0].comps) + AllLive(timers[1..])
  }

  /** Passing vectors one after the other. */
  function PassAll(q: (Data, Requests), vs: seq<IntVec>): (Data, Requests)
    requires forall k :: 0 <= k < |vs| ==> vs[k].Valid()
    decreases |vs|
  {
    if vs == [] then q else PassAll(Pass(q, vs[0]), vs[1..])
  }

  lemma {:induction false} PassAppend(q: (Data, Requests), vs: seq<IntVec>, ws: seq<IntVec>)
    requires forall k :: 0 <= k < |vs| ==> vs[k].Valid()
    requires forall k :: 0 <= k < |ws| ==> ws[k].Valid()
    ensures PassAll(q, vs + ws) == PassAll(PassAll(q, vs), ws)
    decreases |vs|
  {
    hide Pass;
    if vs == [] {
      assert vs + ws == ws;
    } else {
      assert (vs + ws)[1..] == vs[1..] + ws;
      PassAppend(Pass(q, vs[0]), vs[1..], ws);
    }
  }

  lemma {:induction false} PassVecsIsAll(q: (Data, Requests), vecs: seq<Option<IntVec>>)
    requires AllValid(vecs)
    ensures PassVecs(q, vecs) == PassAll(q, Live(vecs))
    decreases |vecs|
  {
    hide Pass;
    if vecs != [] && vecs[0].Some? {
      PassVecsIsAll(Pass(q, vecs[0].value), vecs[1..]);
      assert Live(vecs)[1..] == Live(vecs[1..]);
    }
  }

  /** The nested loops look at these vectors, in this order. */
  lemma {:induction false} PassTimersIsAll(q: (Data, Requests), timers: seq<TimerVecs>)
    requires TimersValid(timers)
    ensures PassTimers(q, timers) == PassAll(q, AllLive(timers))
    decreases |timers|
  {
    hide Pass, PassVecs, Live;
    if timers != [] {
      var own, comps := timers[0].own, timers[0].comps;
      PassVecsIsAll(q, own);
      PassVecsIsAll(PassVecs(q, own), comps);
      PassTimersIsAll(PassVecs(PassVecs(q, own), comps), timers[1..]);
      PassAppend(q, Live(own), Live(comps));
      PassAppend(q, Live(own) + Live(comps), AllLive(timers[1..]));
    }
  }

  /** An enabled interrupt whose flag is set. */
  predicate Asks(d: Data, v: IntVec)
    requires v.Valid()
  {
    Read(d, v.enable) == 1 && Read(d, v.raised) == 1
  }

  /** An interrupt that asks and whose flag can be cleared. */
  predicate Lowers(d: Data, v: IntVec)
    requires v.Valid()
  {
    Asks(d, v) && v.writable
  }

  /** Every vector has a flag of its own, which enables nothing. */
  predicate OwnFlags(vs: seq<IntVec>) {
    && (forall k :: 0 <= k < |vs| ==> vs[k].Valid())
    && (forall j, k :: 0 <= j < k < |vs| ==> vs[j].raised != vs[k].raised)
    && forall j, k :: 0 <= j < |vs| && 0 <= k < |vs| ==> vs[j].enable != vs[k].raised
  }

  /** Passing one vector does not change what the others ask. */
  lemma OthersAsk(q: (Data, Requests), vs: seq<IntVec>, k: nat)
    requires OwnFlags(vs) && 0 < k < |vs|
    ensures Asks(Pass(q, vs[0]).0, vs[k]) == Asks(q.0, vs[k])
  {
    if Asks(q.0, vs[0]) && vs[0].writable {
      ClearedOnly(q.0, vs[0].raised, vs[k].enable);
      ClearedOnly(q.0, vs[0].raised, vs[k].raised);
    }
    hide Read, Clear;
  }

  /**
    After passing, a vector is requested if and only if it was before, or one of the
    interrupts that ask belongs to it.
   */
  lemma {:induction false} RequestedIff(q: (Data, Requests), vs: seq<IntVec>, x: nat)
    requires OwnFlags(vs) && x < IRQ_NUM
    ensures PassAll(q, vs).1[x] <==> q.1[x] || exists k :: 0 <= k < |vs| && vs[k].vector == x && Asks(q.0, vs[k])
    decreases |vs|
  {
    hide Asks, Read, Clear;
    if vs != [] {
      var q1, ws := Pass(q, vs[0]), vs[1..];
      RequestedIff(q1, ws, x);
      forall k | 1 <= k < |vs|
        ensures Asks(q1.0, ws[k - 1]) == Asks(q.0, vs[k])
      {
        OthersAsk(q, vs, k);
      }
      PassedRequest(q, vs[0], x);
      hide Pass;
      assert forall k :: 0 <= k < |ws| ==> ws[k] == vs[k + 1];
    }
  }

  lemma PassedRequest(q: (Data, Requests), v: IntVec, x: nat)
    requires v.Valid() && x < IRQ_NUM
    ensures Pass(q, v).1[x] <==> q.1[x] || (v.vector == x && Asks(q.0, v))
  {
    hide Read, Clear;
  }

  /**
    After passing, the flags of exactly the interrupts that asked are cleared, if they can be;
    no other bit changes.
   */
  lemma {:induction false} FlagClearedIff(q: (Data, Requests), vs: seq<IntVec>, b: IoBit)
    requires OwnFlags(vs) && b.Valid()
    ensures Read(PassAll(q, vs).0, b) ==
      if exists k :: 0 <= k < |vs| && vs[k].raised == b && Lowers(q.0, vs[k]) then 0 else Read(q.0, b)
    decreases |vs|
  {
    hide Asks, Read, Clear;
    if vs != [] {
      var q1, ws := Pass(q, vs[0]), vs[1..];
      FlagClearedIff(q1, ws, b);
      forall k | 1 <= k < |vs|
        ensures Lowers(q1.0, ws[k - 1]) == Lowers(q.0, vs[k])
      {
        OthersAsk(q, vs, k);
      }
      PassedFlag(q, vs[0], b);
      hide Pass;
      assert forall k :: 0 <= k < |ws| ==> ws[k] == vs[k + 1];
    }
  }

  lemma PassedFlag(q: (Data, Requests), v: IntVec, b: IoBit)
    requires v.Valid() && b.Valid()
    ensures Read(Pass(q, v).0, b) == if v.raised == b && Lowers(q.0, v) then 0 else Read(q.0, b)
  {
    if Lowers(q.0, v) {
      ClearedOnly(q.0, v.raised, b);
    }
    hide Read, Clear;
  }

  /**
    `pass_irqs` over all timers: of the vectors up to the gaps, those that ask become requests
    and lose their flags, unless the access mask keeps them: such a flag asks again in every
    cycle.  Every other request and every other bit of I/O stays as it was.
   */
  lemma FlagsBecomeRequests(d: Data, irq: Requests, timers: seq<TimerVecs>)
    requires TimersValid(timers) && OwnFlags(AllLive(timers))
    ensures var vs := AllLive(timers); var (d', irq') := PassTimers((d, irq), timers);
            && (forall x :: 0 <= x < IRQ_NUM ==>
                  (irq'[x] <==> irq[x] || exists k :: 0 <= k < |vs| && vs[k].vector == x && Asks(d, vs[k])))
            && (forall b: IoBit :: b.Valid() ==>
                  Read(d', b) == if exists k :: 0 <= k < |vs| && vs[k].raised == b && Lowers(d, vs[k])
                    then 0 else Read(d, b))
  {
    hide Read, Asks, Lowers, AllLive, PassTimers, PassAll, OwnFlags;
    var vs := AllLive(timers);
    PassTimersIsAll((d, irq), timers);
    forall x | 0 <= x < IRQ_NUM
      ensures PassAll((d, irq), vs).1[x] <==> irq[x] || exists k :: 0 <= k < |vs| && vs[k].vector == x && Asks(d, vs[k])
    {
      RequestedIff((d, irq), vs, x);
    }
    forall b: IoBit | b.Valid()
      ensures Read(PassAll((d, irq), vs).0, b) ==
        if exists k :: 0 <= k < |vs| && vs[k].raised == b && Lowers(d, vs[k]) then 0 else Read(d, b)
    {
      FlagClearedIff((d, irq), vs, b);
    }
  }
}
