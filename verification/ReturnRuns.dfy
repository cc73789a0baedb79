/**
  The I flag over interrupts: entries clear it, RETI sets it, and what was requested
  meanwhile is served after one more instruction (src/avr/avr_decoder.c, `exec_reti`).
 */
module ReturnRuns {
  import opened Basics
  import opened Core
  import opened SimCore
  import opened CoreRuns
  import opened IrqFlags

  // ---------- the flag in SREG ----------

  /** Bit 7 of SREG is `on`, and its other bits are those of d. */
  predicate FlagIs(cfg: Config, d: Data, d': Data, on: bool)
    requires cfg.Valid()
  {
    Bit(d'[cfg.sreg], 7) == (if on then 1 else 0) && d'[cfg.sreg] % 128 == d[cfg.sreg] % 128
  }

  lemma SetFlag(cfg: Config, d: Data, on: bool)
    requires cfg.Valid()
    ensures FlagIs(cfg, d, SetEnabled(cfg, d, on), on)
    ensures Enabled(cfg, d) <==> Bit(d[cfg.sreg], 7) == 1
    ensures forall a :: 0 <= a < DM_SIZE && a != cfg.sreg ==> SetEnabled(cfg, d, on)[a] == d[a]
  {
    assert Pow2(7) == 128;
  }

  /** A push leaves everything but its byte and the stack pointer. */
  lemma PushKeeps(cfg: Config, d: Data, v: byte)
    requires cfg.Valid()
    ensures forall a :: 0 <= a < DM_SIZE && a != Sp(cfg, d) && a != cfg.spl && a != cfg.sph ==>
      Push(cfg, d, v)[a] == d[a]
    ensures Sp(cfg, Push(cfg, d, v)) == (Sp(cfg, d) - 1) % DM_SIZE
  {
    SpMoves(cfg, d, v);
  }

  lemma PushPcKeeps(cfg: Config, d: Data, pc: nat)
    requires cfg.Valid() && Sp(cfg, d) >= cfg.sreg + cfg.PcBytes()
    ensures PushPc(cfg, d, pc)[cfg.sreg] == d[cfg.sreg]
  {
    hide Push, Sp;
    var d1 := Push(cfg, d, pc % 256);
    var d2 := Push(cfg, d1, pc / 256 % 256);
    PushKeeps(cfg, d, pc % 256);
    PushKeeps(cfg, d1, pc / 256 % 256);
    PushKeeps(cfg, d2, pc / 0x1_0000 % 256);
  }

  lemma PopPcKeeps(cfg: Config, d: Data)
    requires cfg.Valid() && CanPop(cfg, d, cfg.PcBytes())
    ensures forall a :: 0 <= a < DM_SIZE && a != cfg.spl && a != cfg.sph ==> PopPc(cfg, d).1[a] == d[a]
  {
    SpMoves(cfg, d, 0);
    hide Sp, Top;
  }

  /** RETI sets the flag, unless the core is an XMEGA, and else changes the stack pointer only; RET leaves the flag. */
  lemma ReturnsFlag(cfg: Config, c: Cpu)
    requires cfg.Valid() && CanPop(cfg, c.dm, cfg.PcBytes())
    ensures
      var d := Complete(cfg, Reti, c).dm;
      && (!cfg.xmega ==> FlagIs(cfg, c.dm, d, true)) && (cfg.xmega ==> d[cfg.sreg] == c.dm[cfg.sreg])
      && forall a :: 0 <= a < DM_SIZE && a != cfg.spl && a != cfg.sph && a != cfg.sreg ==> d[a] == c.dm[a]
    ensures Complete(cfg, Ret, c).dm[cfg.sreg] == c.dm[cfg.sreg]
  {
    PopPcKeeps(cfg, c.dm);
    SetFlag(cfg, PopPc(cfg, c.dm).1, true);
    hide PopPc, SetEnabled, Bit;
  }

  /** Entering a routine clears the flag, unless the core is an XMEGA, as long as the stack stays clear of SREG. */
  lemma EntryFlag(cfg: Config, c: Cpu, v: nat)
    requires cfg.Valid() && v < IRQ_NUM && Sp(cfg, c.dm) >= cfg.sreg + cfg.PcBytes()
    ensures
      var d := Enter(cfg, c, v).dm;
      (!cfg.xmega ==> FlagIs(cfg, c.dm, d, false)) && (cfg.xmega ==> d[cfg.sreg] == c.dm[cfg.sreg])
  {
    var d := if cfg.xmega then c.dm else SetEnabled(cfg, c.dm, false);
    SetFlag(cfg, c.dm, false);
    assert Sp(cfg, d) == Sp(cfg, c.dm);
    PushPcKeeps(cfg, d, c.pc);
    hide PushPc, SetEnabled, Sp, Bit;
  }

  // ---------- when a routine is entered ----------

  /**
    A cycle enters a routine if and only if bit 7 of SREG is set, the core runs, no cycles of an
    instruction are left, none of RETI has just completed, and a vector is requested.
   */
  lemma EntersIff(cfg: Config, env: Env, c: Cpu)
    requires cfg.Valid() && Fits(cfg, env, c) && Whole(cfg, env, c) && Sound(c) && Timed(cfg, env.instr)
    ensures
      var m := Between(cfg, env, c);
      Enters(cfg, env, c) <==>
      && Bit(m.dm[cfg.sreg], 7) == 1 && (m.mode == Running || m.mode == MsimStep) && m.icLeft == 0
      && !(Completes(cfg, env, c) && env.instr == Reti) && exists v :: 0 <= v < IRQ_NUM && m.irq[v]
  {
    hide Between, Completes, Fits, Whole, Bit, Next, Vector;
    BetweenMarks(cfg, env, c);
    EntryServesLowest(cfg, env, c);
    SetFlag(cfg, Between(cfg, env, c).dm, true);
  }

  /**
    When interrupts are considered, a vector is requested if and only if it was after the instruction
    or an enabled and raised interrupt of a timer belongs to it; flags that can be cleared are.
   */
  lemma FlagsArePending(cfg: Config, env: Env, c: Cpu)
    requires cfg.Valid() && Fits(cfg, env, c) && Whole(cfg, env, c) && OwnFlags(AllLive(env.timers))
    ensures
      var x, m, vs := Executed(cfg, env, Begin(cfg, env, c).c), Between(cfg, env, c), AllLive(env.timers);
      && m == x.(dm := m.dm, irq := m.irq)
      && (forall v :: 0 <= v < IRQ_NUM ==>
            (m.irq[v] <==> x.irq[v] || exists k :: 0 <= k < |vs| && vs[k].vector == v && Asks(x.dm, vs[k])))
      && (forall b: IoBit :: b.Valid() ==>
            Read(m.dm, b) == if exists k :: 0 <= k < |vs| && vs[k].raised == b && Lowers(x.dm, vs[k])
                             then 0 else Read(x.dm, b))
  {
    hide Executed, Begin, OwnFlags, AllLive, Asks, Lowers, Read, PassTimers;
    var x := Executed(cfg, env, Begin(cfg, env, c).c);
    FlagsBecomeRequests(x.dm, x.irq, env.timers);
  }

  // ---------- over runs ----------

  /** Interrupts may be served as far as flag and mode go, and vector v is requested. */
  ghost predicate Armed(cfg: Config, c: Cpu, v: nat)
    requires cfg.Valid() && v < IRQ_NUM
  {
    Enabled(cfg, c.dm) && c.mode == Running && c.irq[v]
  }

  /** A cycle in which instruction and outside world leave the flag and the mode alone. */
  ghost predicate Calm(cfg: Config, y: Cycle) {
    && IsCycle(cfg, y) && Whole(cfg, y.env, y.before)
    && var m := Between(cfg, y.env, y.before);
       (Enabled(cfg, m.dm) <==> Enabled(cfg, y.before.dm)) && m.mode == y.before.mode
  }

  /** A cycle that completes RETI, with the mode and then the flag left alone. */
  ghost predicate Returns(cfg: Config, y: Cycle) {
    && CompletesIn(cfg, y) && y.env.instr == Reti
    && var b, m := Begin(cfg, y.env, y.before).c, Between(cfg, y.env, y.before);
       m.mode == Running && (Enabled(cfg, m.dm) <==> Enabled(cfg, Exec(cfg, Reti, b).dm))
  }

  /** Without an entry the end of a cycle leaves flag and mode, in a core that runs. */
  lemma EndKeeps(cfg: Config, y: Cycle)
    requires IsCycle(cfg, y) && Whole(cfg, y.env, y.before) && !Enters(cfg, y.env, y.before)
    requires Between(cfg, y.env, y.before).mode == Running
    ensures y.after.dm == Between(cfg, y.env, y.before).dm && y.after.mode == Running
  {
    hide Between, Whole, Fits, Finish, SimStep, Serves, Enters, Next, Vector;
    EntryServesLowest(cfg, y.env, y.before);
    SimStepIs(cfg, y.env, y.before);
    var m := Between(cfg, y.env, y.before);
    NotEntered(cfg, y.env, y.before);
    RunningStays(cfg, m);
    assert y.after == Finish(cfg, m) by { NextIs(cfg, y.env, y.before); }
  }

  lemma NextIs(cfg: Config, env: Env, c: Cpu)
    requires cfg.Valid() && Fits(cfg, env, c) && Whole(cfg, env, c)
    ensures Next(cfg, env, c) == Finish(cfg, Between(cfg, env, c))
  {
    SimStepIs(cfg, env, c);
    hide Between, Whole, Fits, Finish, SimStep;
  }

  lemma NotEntered(cfg: Config, env: Env, c: Cpu)
    requires cfg.Valid() && Fits(cfg, env, c) && Whole(cfg, env, c) && !Enters(cfg, env, c)
    ensures var m := Between(cfg, env, c); !(Serves(cfg, m) && Lowest(m.irq, 0) < IRQ_NUM)
  {
    hide Between, Serves, Fits;
  }

  lemma RunningStays(cfg: Config, m: Cpu)
    requires cfg.Valid() && m.mode == Running && !(Serves(cfg, m) && Lowest(m.irq, 0) < IRQ_NUM)
    ensures Finish(cfg, m).mode == Running
  {
    hide Serves, Enter;
  }

  /** After RETI a request that was there is armed. */
  lemma ReturnArms(cfg: Config, y: Cycle, v: nat)
    requires Sound(y.before) && Returns(cfg, y) && PendingIn(cfg, y, v)
    requires cfg.xmega ==> Enabled(cfg, Begin(cfg, y.env, y.before).c.dm)
    ensures Armed(cfg, y.after, v)
  {
    hide Between, Whole, Begin, Next, Enters, Pending, Vector;
    if Enters(cfg, y.env, y.before) {
      EntryAfterInstruction(cfg, y.env, y.before);
    }
    EndKeeps(cfg, y);
    RequestOverCycle(cfg, y, v);
    RetiEnables(cfg, y.env, y.before);
  }

  /** The flag once RETI has completed. */
  lemma RetiEnables(cfg: Config, env: Env, c: Cpu)
    requires cfg.Valid() && Fits(cfg, env, c) && Completes(cfg, env, c) && env.instr == Reti
    requires cfg.xmega ==> Enabled(cfg, Begin(cfg, env, c).c.dm)
    ensures Enabled(cfg, Exec(cfg, Reti, Begin(cfg, env, c).c).dm)
  {
    hide Begin, PopPc, SetEnabled, FlagIs;
    var b := Begin(cfg, env, c).c;
    var d := SkipFor(cfg, Reti, b).1;
    ReturnsFlag(cfg, d);
    SetFlag(cfg, Complete(cfg, Reti, d).dm, true);
    FlagOn(cfg, d.dm, Complete(cfg, Reti, d).dm);
  }

  lemma FlagOn(cfg: Config, d: Data, d': Data)
    requires cfg.Valid()
    ensures FlagIs(cfg, d, d', true) ==> Bit(d'[cfg.sreg], 7) == 1
    ensures d'[cfg.sreg] == d[cfg.sreg] ==> (Enabled(cfg, d') <==> Enabled(cfg, d))
  {
  }

  /** A calm cycle that enters nothing keeps a request armed. */
  lemma CalmKeeps(cfg: Config, y: Cycle, v: nat)
    requires Calm(cfg, y) && v < IRQ_NUM && Armed(cfg, y.before, v) && !Enters(cfg, y.env, y.before)
    ensures Armed(cfg, y.after, v)
  {
    hide Between, Whole, Next, Enters, Vector, Fits, Pending;
    EndKeeps(cfg, y);
    RequestOverCycle(cfg, y, v);
  }

  /** Nothing is entered before an instruction completes. */
  lemma {:induction false} StaysArmed(cfg: Config, run: seq<Cycle>, i: nat, j: nat, v: nat)
    requires IsRun(cfg, run) && i < j < |run| && v < IRQ_NUM && Armed(cfg, run[i].after, v)
    requires forall k :: i < k < j ==> Calm(cfg, run[k]) && !CompletesIn(cfg, run[k])
    ensures Armed(cfg, run[j].before, v)
    decreases j
  {
    hide Calm, Armed, Sound, Fits, Whole, Between, Next, Vector;
    assert Linked(run, j);
    if i + 1 < j {
      StaysArmed(cfg, run, i, j - 1, v);
      RunIsSound(cfg, run, j - 1);
      var y := run[j - 1];
      if Enters(cfg, y.env, y.before) {
        EntryAfterInstruction(cfg, y.env, y.before);
      }
      CalmKeeps(cfg, y, v);
    }
  }

  /** An instruction that completes in a core with an armed request ends in the entry of a routine. */
  lemma ArmedEnters(cfg: Config, y: Cycle, v: nat)
    requires Sound(y.before) && Calm(cfg, y) && v < IRQ_NUM && Armed(cfg, y.before, v)
    requires CompletesIn(cfg, y) && y.env.instr != Reti && (Skips(cfg, y.env.instr).Some? || y.before.icLeft == 0)
    ensures Enters(cfg, y.env, y.before) && Vector(cfg, y.env, y.before) <= v
    ensures forall u :: 0 <= u < Vector(cfg, y.env, y.before) ==> !PendingIn(cfg, y, u)
  {
    hide Between, Begin, Next, Fits, Completes;
    BetweenMarks(cfg, y.env, y.before);
    RequestReaches(cfg, y.env, y.before, v);
    var m := Between(cfg, y.env, y.before);
    assert m.irq[v];
  }

  /**
    A request that is there when RETI completes is not lost and not put off: the next instruction
    that completes is followed by the entry of the routine with the lowest requested vector, as
    long as instructions and the outside world leave the I flag and the mode alone.
   */
  lemma ServedAfterReti(cfg: Config, run: seq<Cycle>, i: nat, j: nat, v: nat) returns (w: nat)
    requires IsRun(cfg, run) && i < j < |run|
    requires Returns(cfg, run[i]) && PendingIn(cfg, run[i], v)
    requires cfg.xmega ==> Enabled(cfg, Begin(cfg, run[i].env, run[i].before).c.dm)
    requires forall k :: i < k <= j ==> Calm(cfg, run[k])
    requires forall k :: i < k < j ==> !CompletesIn(cfg, run[k])
    requires CompletesIn(cfg, run[j]) && run[j].env.instr != Reti
    requires Skips(cfg, run[j].env.instr).Some? || run[j].before.icLeft == 0
    ensures w <= v && EntersIn(cfg, run[j], w) && forall u :: 0 <= u < w ==> !PendingIn(cfg, run[j], u)
  {
    hide Calm, Armed, Sound, Fits, Whole, Between, Next, Returns, Pending, Begin, Completes, Skips;
    RunIsSound(cfg, run, i);
    RunIsSound(cfg, run, j);
    ReturnArms(cfg, run[i], v);
    StaysArmed(cfg, run, i, j, v);
    ArmedEnters(cfg, run[j], v);
    w := Vector(cfg, run[j].env, run[j].before);
  }
}
