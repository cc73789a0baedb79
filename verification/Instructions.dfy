/**
  What instructions and cycles mean in the terms of the AVR Instruction Set Manual: where
  calls go, how long instructions take, and when a cycle does nothing.
 */
module Instructions {
  import opened Basics
  import opened Core
  import opened SimCore
  import opened CoreRuns

  // ---------- where control goes ----------

  /** The Z register. */
  function Z(d: Data): nat {
    var high: nat, low: nat := d[31], d[30];
    256 * high + low
  }

  /** The bytes a call writes: the return address and the stack pointer. */
  predicate StackAway(cfg: Config, d: Data, a: nat)
    requires cfg.Valid()
  {
    a != cfg.spl && a != cfg.sph && Sp(cfg, d) >= a + cfg.PcBytes()
  }

  lemma PushLeaves(cfg: Config, d: Data, v: byte, a: nat, n: nat)
    requires cfg.Valid() && a < DM_SIZE && a != cfg.spl && a != cfg.sph && Sp(cfg, d) >= a + n > a
    ensures Push(cfg, d, v)[a] == d[a] && Sp(cfg, Push(cfg, d, v)) == Sp(cfg, d) - 1
  {
    SpMoves(cfg, d, v);
  }

  lemma PushPcLeaves(cfg: Config, d: Data, pc: nat, a: nat)
    requires cfg.Valid() && a < DM_SIZE && StackAway(cfg, d, a)
    ensures PushPc(cfg, d, pc)[a] == d[a]
  {
    hide Push, Sp;
    var n := cfg.PcBytes();
    var d1 := Push(cfg, d, pc % 256);
    var d2 := Push(cfg, d1, pc / 256 % 256);
    PushLeaves(cfg, d, pc % 256, a, n);
    PushLeaves(cfg, d1, pc / 256 % 256, a, n - 1);
    if cfg.Wide() {
      PushLeaves(cfg, d2, pc / 0x1_0000 % 256, a, 1);
    }
  }

  /**
    The three calls are one: CALL of an address, RCALL of its distance from the next instruction,
    and ICALL with the address in Z reach the same address, and the two short ones leave the
    same stack.
   */
  lemma CallsAgree(cfg: Config, c: Cpu, target: nat)
    requires cfg.Valid() && target < WORD
    ensures
      var call, rcall, icall := Complete(cfg, Call(target), c), Complete(cfg, Rcall(target - (c.pc + 1)), c),
                                Complete(cfg, Icall, c);
      && call.pc == rcall.pc == target && rcall.dm == icall.dm
      && (Z(c.dm) == target && StackAway(cfg, c.dm, 31) && StackAway(cfg, c.dm, 30) ==> icall.pc == target)
      && call.dm == Complete(cfg, Rcall(0), c.(pc := c.pc + 1)).dm
  {
    hide PushPc, Sp;
    if StackAway(cfg, c.dm, 31) && StackAway(cfg, c.dm, 30) {
      PushPcLeaves(cfg, c.dm, c.pc + 1, 30);
      PushPcLeaves(cfg, c.dm, c.pc + 1, 31);
    }
  }

  /** A call comes back to the instruction behind it, and PUSH and POP, of one word, go on there. */
  lemma OneWordOn(cfg: Config, c: Cpu, reg: nat)
    requires cfg.Valid() && reg < 32 && CanPop(cfg, c.dm, 1) && c.pc + 1 < WORD
    ensures Complete(cfg, PushReg(reg), c).pc - c.pc == 1 == Complete(cfg, PopReg(reg), c).pc - c.pc
  {
    hide Push, Pop, Top;
  }

  /** An instruction without a name of its own does what it was given, in the cycle in which it completes. */
  lemma EffectDone(cfg: Config, skips: Option<(bool, nat)>, e: Effect, c: Cpu)
    requires cfg.Valid()
    ensures
      var d := Complete(cfg, Other(skips, e), c);
      && d.pc - e.pc == 0 && d.mode == e.mode && Written(c.dm, e.writes, d.dm)
      && (forall v :: 0 <= v < IRQ_NUM ==> (d.irq[v] <==> c.irq[v] || v in e.raised))
      && d.icLeft == c.icLeft && d.mci == c.mci && d.execMain == c.execMain
  {
    RaisedAll(c.irq, e.raised);
    AllWritten(c.dm, e.writes);
    hide WriteAll, RaiseAll, Written;
  }

  // ---------- how long instructions take ----------

  datatype Family = Classic | Xmega | Reduced

  function FamilyOf(cfg: Config): Family {
    if cfg.reducedCore then Reduced else if cfg.xmega then Xmega else Classic
  }

  /** The cycles of the manual, for cores with return addresses of 2 bytes. */
  function ManualCycles(i: Instr, core: Family): nat {
    match i
    case Call(_) => if core == Xmega then 3 else 4
    case Rcall(_) => if core == Classic then 3 else if core == Xmega then 2 else 4
    case Icall => if core == Xmega then 2 else 3
    case Ret => 4
    case Reti => 4
    case PushReg(_) => if core == Xmega then 1 else 2
    case PopReg(_) => 2
    case _ => 0
  }

  predicate OnStack(i: Instr) {
    !i.Other? && !i.Unknown?
  }

  /** A return address of 3 bytes takes one cycle more, except in RCALL on a reduced core. */
  function ExtraCycle(cfg: Config, i: Instr): nat {
    if cfg.Wide() && !i.PushReg? && !i.PopReg? && !(i.Rcall? && cfg.reducedCore) then 1 else 0
  }

  /**
    The instructions that use the stack take the cycles of the manual: nothing but flag and count
    shows before the last one, and the whole effect is there after it.
   */
  lemma TakesManualCycles(cfg: Config, i: Instr, c: Cpu, k: nat)
    requires cfg.Valid() && OnStack(i) && Runs(cfg, i, c.dm) && !c.mci && c.icLeft == 0
    requires !(cfg.xmega && cfg.reducedCore)
    requires k <= ManualCycles(i, FamilyOf(cfg)) + ExtraCycle(cfg, i)
    ensures
      var d := Cycles(cfg, i, c, k);
      if k == ManualCycles(i, FamilyOf(cfg)) + ExtraCycle(cfg, i) then d == Complete(cfg, i, c)
      else d == c.(mci := d.mci, icLeft := d.icLeft)
  {
    hide Complete, Runs;
    if Skips(cfg, i).Some? {
      EffectOnce(cfg, i, c, Skips(cfg, i).value.1, k);
    } else {
      assert Cycles(cfg, i, c, 0) == c;
      assert k > 0 ==> k == 1 && Cycles(cfg, i, c, k) == Exec(cfg, i, Cycles(cfg, i, c, 0));
    }
  }

  // ---------- cycles that end early, and cycles that do nothing ----------

  /** A stopped core asks the debugger, between instructions. */
  predicate AsksDebugger(env: Env, c: Cpu) {
    !env.freeRun && c.icLeft == 0 && c.mode == Stopped
  }

  /**
    What fails a cycle: a failed test or debugger, a program counter outside flash, or an unknown
    instruction that is to be executed.
   */
  predicate Fails(cfg: Config, env: Env, c: Cpu) {
    var asks := AsksDebugger(env, c);
    var pc, mode := if asks then env.debugger.pc else c.pc, if asks then env.debugger.mode else c.mode;
    var active := if mode == Running || mode == MsimStep then env.tick.mode else mode;
    || (c.icLeft == 0 && c.mode == TestFail) || (asks && env.debugger.failed)
    || 2 * pc > cfg.flashend || pc + 2 >= cfg.pmSize
    || (env.instr == Unknown && (c.icLeft > 0 || active == Running || active == MsimStep))
  }

  /**
    The code of a cycle: 2 for a core that was asked to stop, between instructions; 1 for one that
    fails; and 0 for one that runs to its end.
   */
  lemma ReturnCode(cfg: Config, env: Env, c: Cpu)
    requires cfg.Valid() && Fits(cfg, env, c)
    ensures
      var rc := SimStep(cfg, env, c).0;
      && (rc == 2 <==> c.icLeft == 0 && c.mode == MsimStop)
      && (rc == 0 <==> Whole(cfg, env, c))
      && (rc == 1 <==> rc != 2 && Fails(cfg, env, c))
  {
    hide Finish, Requested, Executed, WriteAll, RaiseAll, Ready;
  }

  /** A core that does not run, and that the debugger leaves alone, only has its flags handed over. */
  lemma StoppedStays(cfg: Config, env: Env, c: Cpu)
    requires cfg.Valid() && Fits(cfg, env, c) && Whole(cfg, env, c) && c.icLeft == 0 && !c.execMain
    requires c.mode == Stopped || c.mode == Sleeping
    requires env.freeRun || (env.debugger.writes == [] && env.debugger.pc == c.pc && env.debugger.mode == c.mode)
    ensures Next(cfg, env, c) == Requested(env.timers, c)
  {
    assert WriteAll(c.dm, []) == c.dm;
    hide PassTimers, WriteAll, RaiseAll, Exec;
  }

  /** What a running core's outside world writes and requests in a cycle is there before the instruction. */
  lemma WorldFirst(cfg: Config, env: Env, c: Cpu)
    requires cfg.Valid() && Fits(cfg, env, c) && Whole(cfg, env, c) && c.Active()
    ensures
      var b := Begin(cfg, env, c).c;
      && b.mode == env.tick.mode && b.pc == c.pc
      && (forall v :: 0 <= v < IRQ_NUM && v in env.tick.raised ==> b.irq[v])
      && Written(c.dm, env.tick.writes, b.dm)
  {
    RaisedAll(c.irq, env.tick.raised);
    AllWritten(c.dm, env.tick.writes);
    hide WriteAll, RaiseAll, Written;
  }

  /** What the pins bring is there after the instruction, in a core that runs or is inside an instruction. */
  lemma PinsLast(cfg: Config, env: Env, b: Cpu)
    requires cfg.Valid() && Ready(cfg, env.instr, b)
    ensures
      var x := if Executes(b) then Exec(cfg, env.instr, b) else b;
      Executed(cfg, env, b) == x.(dm := Executed(cfg, env, b).dm) &&
      if Executes(x) then Written(x.dm, env.pins, Executed(cfg, env, b).dm) else Executed(cfg, env, b) == x
  {
    hide WriteAll, Exec, Written;
    var x := if Executes(b) then Exec(cfg, env.instr, b) else b;
    AllWritten(x.dm, env.pins);
  }

  /** The debugger's writes, program counter and mode are taken over by a core that has stopped. */
  lemma DebuggerFirst(cfg: Config, env: Env, c: Cpu)
    requires cfg.Valid() && Fits(cfg, env, c) && Whole(cfg, env, c)
    requires !env.freeRun && c.icLeft == 0 && c.mode == Stopped && env.debugger.mode == Stopped
    ensures
      var b := Begin(cfg, env, c).c;
      b.pc == env.debugger.pc && b.mode == Stopped && b.irq == c.irq && Written(c.dm, env.debugger.writes, b.dm)
  {
    hide WriteAll, RaiseAll, Written;
    AllWritten(c.dm, env.debugger.writes);
  }

  /** In d' every address has what was written to it last, or what it had in d. */
  ghost predicate Written(d: Data, w: Writes, d': Data) {
    forall a :: 0 <= a < DM_SIZE ==>
      || ((forall x :: x in w ==> x.0 != a) && d'[a] == d[a])
      || exists k :: 0 <= k < |w| && w[k] == (a, d'[a]) && forall m :: k < m < |w| ==> w[m].0 != a
  }

  lemma {:induction false} RaisedAll(q: Requests, raised: seq<nat>)
    ensures forall v :: 0 <= v < IRQ_NUM ==> (RaiseAll(q, raised)[v] <==> q[v] || v in raised)
    decreases |raised|
  {
    if raised != [] {
      var n := |raised| - 1;
      RaisedAll(q, raised[..n]);
      assert forall v :: v in raised <==> v in raised[..n] || v == raised[n];
    }
  }

  lemma {:induction false} AllWritten(d: Data, w: Writes)
    ensures Written(d, w, WriteAll(d, w))
    decreases |w|
  {
    if w != [] {
      var n := |w| - 1;
      AllWritten(d, w[..n]);
      var e, e' := WriteAll(d, w[..n]), WriteAll(d, w);
      forall a | 0 <= a < DM_SIZE
        ensures || ((forall x :: x in w ==> x.0 != a) && e'[a] == d[a])
                || exists k :: 0 <= k < |w| && w[k] == (a, e'[a]) && forall m :: k < m < |w| ==> w[m].0 != a
      {
        if a == w[n].0 {
          assert w[n] == (a, e'[a]);
        } else {
          assert e'[a] == e[a];
          assert forall x :: x in w <==> x in w[..n] || x == w[n];
          if k :| 0 <= k < n && w[..n][k] == (a, e[a]) && forall m :: k < m < n ==> w[..n][m].0 != a {
            assert w[k] == (a, e'[a]);
            assert forall m :: k < m < n ==> w[m] == w[..n][m];
          }
        }
      }
    }
  }
}
