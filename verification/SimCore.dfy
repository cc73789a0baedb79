/**
  The simulation cycle (src/avr/avr_simcore.c) and the instructions that use the stack
  (src/avr/avr_decoder.c), on a core whose fields and memories change in place.
 */
module SimCore {
  import opened Basics
  import opened Core

  // ---------- the cycle as a function ----------

  /** What a debugger does to a stopped core. */
  datatype Debugger = Debugger(failed: bool, writes: Writes, pc: nat, mode: Mode)

  /** What timers, peripherals and models do in a cycle: writes, requests and a change of mode. */
  datatype Tick = Tick(writes: Writes, raised: seq<nat>, mode: Mode)

  /** What a cycle meets: the free-run flag, the outside world, and the instruction at pc. */
  datatype Env = Env(freeRun: bool, debugger: Debugger, tick: Tick, instr: Instr, pins: Writes, timers: seq<TimerVecs>)

  /** The outcome of a cycle's first half: the core goes on, or the cycle ends with a code. */
  datatype Half = Go(c: Cpu) | Halt(rc: int, c: Cpu)

  /** What happens before an instruction is executed. */
  function Begin(cfg: Config, env: Env, c: Cpu): Half {
    if c.icLeft == 0 && c.mode == MsimStop then Halt(2, c)
    else if c.icLeft == 0 && c.mode == TestFail then Halt(1, c)
    else
      var asked := !env.freeRun && c.icLeft == 0 && c.mode == Stopped;
      var c1 := if asked then Debugged(env.debugger, c) else c;
      if asked && env.debugger.failed then Halt(1, c1)
      else
        var c2 := if c1.Active() then Ticked(env.tick, c1) else c1;
        if c2.pc > cfg.flashend / 2 || c2.pc + 2 >= cfg.pmSize then Halt(1, c2) else Go(c2)
  }

  function Debugged(d: Debugger, c: Cpu): Cpu {
    c.(dm := WriteAll(c.dm, d.writes), pc := d.pc, mode := d.mode)
  }

  function Ticked(t: Tick, c: Cpu): Cpu {
    c.(dm := WriteAll(c.dm, t.writes), irq := RaiseAll(c.irq, t.raised), mode := t.mode)
  }

  /** An instruction is executed in a cycle that finds an unfinished one, or an active core. */
  predicate Executes(c: Cpu) {
    c.icLeft > 0 || c.Active()
  }

  /** The core after the instruction's cycle and the pins. */
  function Executed(cfg: Config, env: Env, c: Cpu): Cpu
    requires cfg.Valid() && Ready(cfg, env.instr, c)
  {
    var c1 := if Executes(c) then Exec(cfg, env.instr, c) else c;
    if Executes(c1) then c1.(dm := WriteAll(c1.dm, env.pins)) else c1
  }

  /** The core after requests were passed. */
  function Requested(timers: seq<TimerVecs>, c: Cpu): Cpu
    requires TimersValid(timers)
  {
    var (d, q) := PassTimers((c.dm, c.irq), timers);
    c.(dm := d, irq := q)
  }

  /** Interrupts may be served: enabled, between instructions, and not right after RETI. */
  predicate Serves(cfg: Config, c: Cpu)
    requires cfg.Valid()
  {
    Enabled(cfg, c.dm) && c.icLeft == 0 && !c.execMain && c.Active()
  }

  /** What ends a cycle. */
  function Finish(cfg: Config, c: Cpu): Cpu
    requires cfg.Valid()
  {
    var c1 := if Serves(cfg, c) then HandleIrq(cfg, c) else c;
    var c2 := if c1.icLeft == 0 then c1.(execMain := false) else c1;
    if c2.icLeft == 0 && c2.mode == MsimStep then c2.(mode := Stopped) else c2
  }

  /** The conditions under which a cycle is defined: the instruction has its operands. */
  predicate Fits(cfg: Config, env: Env, c: Cpu)
    requires cfg.Valid()
  {
    TimersValid(env.timers) && (Begin(cfg, env, c).Go? ==> Ready(cfg, env.instr, Begin(cfg, env, c).c))
  }

  /** `MSIM_AVR_SimStep`: its return code and the core after it. */
  function SimStep(cfg: Config, env: Env, c: Cpu): (int, Cpu)
    requires cfg.Valid() && Fits(cfg, env, c)
  {
    match Begin(cfg, env, c)
    case Halt(rc, c1) => (rc, c1)
    case Go(c1) =>
      if Executes(c1) && env.instr == Unknown then (1, c1)
      else (0, Finish(cfg, Requested(env.timers, Executed(cfg, env, c1))))
  }

  // ---------- the program ----------

  class Avr {
    const cfg: Config
    const dm: array<byte>
    const irq: array<bool>
    var pc: nat
    var icLeft: nat
    var mci: bool
    var execMain: bool
    var mode: Mode

    /** A core at reset: nothing requested, no instruction begun, stopped. */
    constructor (c: Config, start: nat)
      requires c.Valid()
      ensures Valid() && fresh(dm) && fresh(irq) && cfg == c
      ensures State() == Cpu(seq(DM_SIZE, _ => 0), start, 0, false, false, seq(IRQ_NUM, _ => false), Stopped)
    {
      cfg := c;
      dm := new byte[DM_SIZE](_ => 0);
      irq := new bool[IRQ_NUM](_ => false);
      pc, icLeft, mci, execMain, mode := start, 0, false, false, Stopped;
    }

    ghost predicate Valid() {
      cfg.Valid() && dm.Length == DM_SIZE && irq.Length == IRQ_NUM
    }

    ghost function State(): Cpu
      requires Valid()
      reads this, dm, irq
    {
      Cpu(dm[..], pc, icLeft, mci, execMain, irq[..], mode)
    }

    method ReadSp() returns (sp: nat)
      requires Valid()
      ensures sp == Sp(cfg, dm[..])
    {
      var low: int, high: int := dm[cfg.spl], dm[cfg.sph];
      sp := 256 * high + low;
    }

    method WriteSp(sp: nat)
      requires Valid() && sp < DM_SIZE
      modifies dm
      ensures dm[..] == SetSp(cfg, old(dm[..]), sp)
    {
      dm[cfg.spl] := sp % 256;
      dm[cfg.sph] := sp / 256;
    }

    /** `MSIM_AVR_StackPush`: the stack pointer wraps below address 0. */
    method StackPush(v: byte)
      requires Valid()
      modifies dm
      ensures dm[..] == Push(cfg, old(dm[..]), v)
    {
      var sp := ReadSp();
      dm[sp] := v;
      WriteSp((sp - 1) % DM_SIZE);
    }

    /** `MSIM_AVR_StackPop`. */
    method StackPop() returns (v: byte)
      requires Valid() && CanPop(cfg, dm[..], 1)
      modifies dm
      ensures v == Top(cfg, old(dm[..])) && dm[..] == Pop(cfg, old(dm[..]))
    {
      var sp := ReadSp();
      v := dm[sp + 1];
      WriteSp(sp + 1);
    }

    method PushAddress(address: nat)
      requires Valid()
      modifies dm
      ensures dm[..] == PushPc(cfg, old(dm[..]), address)
    {
      hide Push;
      StackPush(address % 256);
      StackPush(address / 256 % 256);
      if cfg.pcBits > 16 {
        StackPush(address / 0x1_0000 % 256);
      }
    }

    method PopAddress() returns (address: nat)
      requires Valid() && CanPop(cfg, dm[..], cfg.PcBytes())
      modifies dm
      ensures (address, dm[..]) == PopPc(cfg, old(dm[..]))
    {
      var e: int, h: int, l: int := 0, 0, 0;
      SpMoves(cfg, dm[..], 0);
      hide Pop, Top, Sp;
      if cfg.pcBits > 16 {
        e := StackPop();
        SpMoves(cfg, dm[..], 0);
      }
      h := StackPop();
      l := StackPop();
      address := 0x1_0000 * e + 256 * h + l;
    }

    /** SKIP_CYCLES; `go` says that the instruction completes in this cycle. */
    method SkipCycles(cond: bool, extra: nat) returns (go: bool)
      requires Valid()
      modifies `mci, `icLeft
      ensures (go, State()) == Skip(old(State()), cond, extra)
    {
      if !mci && cond {
        mci, icLeft := true, extra;
        return false;
      }
      if mci && icLeft > 0 {
        icLeft := icLeft - 1;
        if icLeft > 0 {
          return false;
        }
      }
      mci := false;
      return true;
    }

    method WriteBytes(w: Writes)
      requires Valid()
      modifies dm
      ensures dm[..] == WriteAll(old(dm[..]), w)
    {
      var k := 0;
      while k < |w|
        invariant 0 <= k <= |w| && dm[..] == WriteAll(old(dm[..]), w[..k])
      {
        WriteNext(old(dm[..]), w, k);
        hide WriteAll;
        dm[w[k].0] := w[k].1;
        k := k + 1;
      }
      assert w[..k] == w;
    }

    method RaiseIrqs(raised: seq<nat>)
      requires Valid()
      modifies irq
      ensures irq[..] == RaiseAll(old(irq[..]), raised)
    {
      var k := 0;
      while k < |raised|
        invariant 0 <= k <= |raised| && irq[..] == RaiseAll(old(irq[..]), raised[..k])
      {
        RaiseNext(old(irq[..]), raised, k);
        hide RaiseAll;
        if raised[k] < IRQ_NUM {
          irq[raised[k]] := true;
        }
        k := k + 1;
      }
      assert raised[..k] == raised;
    }

    /** `exec_call` */
    method ExecCall(target: nat)
      requires Valid()
      modifies this, dm
      ensures State() == Exec(cfg, Call(target), old(State()))
    {
      hide PushPc, Runs;
      var c := if cfg.xmega then if cfg.pcBits > 16 then 3 else 2 else if cfg.pcBits > 16 then 4 else 3;
      var go := SkipCycles(true, c);
      if !go {
        return;
      }
      PushAddress(pc + 2);
      pc := target;
    }

    /** `exec_rcall` */
    method ExecRcall(offset: int)
      requires Valid()
      modifies this, dm
      ensures State() == Exec(cfg, Rcall(offset), old(State()))
    {
      hide PushPc, Runs;
      var go;
      if !cfg.reducedCore && cfg.xmega {
        go := SkipCycles(true, if cfg.pcBits > 16 then 2 else 1);
      } else if !cfg.reducedCore && !cfg.xmega {
        go := SkipCycles(true, if cfg.pcBits > 16 then 3 else 2);
      } else {
        go := SkipCycles(true, 3);
      }
      if !go {
        return;
      }
      PushAddress(pc + 1);
      pc := (pc + offset + 1) % WORD;
    }

    /** `exec_icall` */
    method ExecIcall()
      requires Valid()
      modifies this, dm
      ensures State() == Exec(cfg, Icall, old(State()))
    {
      hide PushPc, Runs;
      var go;
      if cfg.xmega {
        go := SkipCycles(true, if cfg.pcBits > 16 then 2 else 1);
      } else {
        go := SkipCycles(true, if cfg.pcBits > 16 then 3 else 2);
      }
      if !go {
        return;
      }
      PushAddress(pc + 1);
      var high: int, low: int := dm[31], dm[30];
      pc := 256 * high + low;
    }

    /** `exec_ret` */
    method ExecRet()
      requires Valid() && Ready(cfg, Ret, State())
      modifies this, dm
      ensures State() == Exec(cfg, Ret, old(State()))
    {
      hide PopPc, CanPop;
      var go := SkipCycles(true, if cfg.pcBits > 16 then 4 else 3);
      if !go {
        return;
      }
      var address := PopAddress();
      pc := address;
    }

    /** `exec_reti` */
    method ExecReti()
      requires Valid() && Ready(cfg, Reti, State())
      modifies this, dm
      ensures State() == Exec(cfg, Reti, old(State()))
    {
      hide PopPc, CanPop;
      var go := SkipCycles(true, if cfg.pcBits > 16 then 4 else 3);
      if !go {
        return;
      }
      var address := PopAddress();
      pc := address;
      if !cfg.xmega {
        SetGlobalInterrupt(true);
      }
      execMain := true;
    }

    method SetGlobalInterrupt(on: bool)
      requires Valid()
      modifies dm
      ensures dm[..] == SetEnabled(cfg, old(dm[..]), on)
    {
      dm[cfg.sreg] := dm[cfg.sreg] % 128 + if on then 128 else 0;
    }

    /** `exec_push_pop`, pushing */
    method ExecPush(reg: nat)
      requires Valid() && Ready(cfg, PushReg(reg), State())
      modifies this, dm
      ensures State() == Exec(cfg, PushReg(reg), old(State()))
    {
      hide Push;
      if !cfg.xmega {
        var go := SkipCycles(true, 1);
        if !go {
          return;
        }
      }
      StackPush(dm[reg]);
      pc := (pc + 1) % WORD;
    }

    /** `exec_push_pop`, popping */
    method ExecPop(reg: nat)
      requires Valid() && Ready(cfg, PopReg(reg), State())
      modifies this, dm
      ensures State() == Exec(cfg, PopReg(reg), old(State()))
    {
      hide Pop, Top, CanPop;
      var go := SkipCycles(true, 1);
      if !go {
        return;
      }
      var v := StackPop();
      dm[reg] := v;
      pc := (pc + 1) % WORD;
    }

    /** Any other instruction. */
    method ExecOther(skips: Option<(bool, nat)>, e: Effect)
      requires Valid()
      modifies this, dm, irq
      ensures State() == Exec(cfg, Other(skips, e), old(State()))
    {
      hide WriteAll, RaiseAll;
      if skips.Some? {
        var go := SkipCycles(skips.value.0, skips.value.1);
        if !go {
          return;
        }
      }
      WriteBytes(e.writes);
      RaiseIrqs(e.raised);
      pc, mode := e.pc, e.mode;
    }

    /** `MSIM_AVR_Step`: one cycle of the decoded instruction. */
    method Step(i: Instr) returns (rc: int)
      requires Valid() && Ready(cfg, i, State())
      modifies this, dm, irq
      ensures rc == if i == Unknown then -1 else 0
      ensures State() == if i == Unknown then old(State()) else Exec(cfg, i, old(State()))
    {
      hide Exec;
      rc := 0;
      match i
      case Call(target) => ExecCall(target);
      case Rcall(offset) => ExecRcall(offset);
      case Icall => ExecIcall();
      case Ret => ExecRet();
      case Reti => ExecReti();
      case PushReg(reg) => ExecPush(reg);
      case PopReg(reg) => ExecPop(reg);
      case Other(skips, e) => ExecOther(skips, e);
      case Unknown => rc := -1;
    }

    /** One vector of `pass_irqs`. */
    method PassVector(v: IntVec)
      requires Valid() && v.Valid()
      modifies dm, irq
      ensures (dm[..], irq[..]) == Pass((old(dm[..]), old(irq[..])), v)
    {
      var en := Bit(dm[v.enable.reg], v.enable.bit);
      var rai := Bit(dm[v.raised.reg], v.raised.bit);
      if en == 1 && rai == 1 {
        irq[v.vector] := true;
        if v.writable {
          SetIsLarge(dm[v.raised.reg], Pow2(v.raised.bit));
          var value: int := dm[v.raised.reg];
          dm[v.raised.reg] := value - Pow2(v.raised.bit);
        }
      }
    }

    /** The vectors of a table up to its first gap. */
    method PassTable(vecs: seq<Option<IntVec>>)
      requires Valid() && AllValid(vecs)
      modifies dm, irq
      ensures (dm[..], irq[..]) == PassVecs((old(dm[..]), old(irq[..])), vecs)
    {
      hide Pass;
      var k := 0;
      while k < |vecs|
        invariant 0 <= k <= |vecs|
        invariant PassVecs((old(dm[..]), old(irq[..])), vecs) == PassVecs((dm[..], irq[..]), vecs[k..])
      {
        if vecs[k].None? {
          break;
        }
        assert vecs[k..][1..] == vecs[k + 1..];
        PassVector(vecs[k].value);
        k := k + 1;
      }
    }

    /** `pass_irqs` */
    method PassIrqs(timers: seq<TimerVecs>)
      requires Valid() && TimersValid(timers)
      modifies dm, irq
      ensures State() == Requested(timers, old(State()))
    {
      var i := 0;
      while i < |timers|
        invariant 0 <= i <= |timers|
        invariant PassTimers((old(dm[..]), old(irq[..])), timers) == PassTimers((dm[..], irq[..]), timers[i..])
      {
        PassTimersNext((dm[..], irq[..]), timers, i);
        hide PassVecs, PassTimers;
        PassTable(timers[i].own);
        PassTable(timers[i].comps);
        i := i + 1;
      }
    }

    /** `handle_irq` */
    method ServeIrq()
      requires Valid()
      modifies this, dm, irq
      ensures State() == HandleIrq(cfg, old(State()))
    {
      hide PushPc;
      var i := 0;
      while i < IRQ_NUM
        invariant 0 <= i <= IRQ_NUM && Lowest(irq[..], 0) == Lowest(irq[..], i)
      {
        if irq[i] {
          break;
        }
        i := i + 1;
      }
      assert i == Lowest(irq[..], 0);
      if i != IRQ_NUM {
        irq[i] := false;
        if !cfg.xmega {
          SetGlobalInterrupt(false);
        }
        PushAddress(pc);
        pc := cfg.ivt * i % WORD;
        if cfg.trapAtIsr && mode == Running {
          mode := MsimStep;
        }
      }
    }

    method StartCycle(env: Env) returns (rc: int, go: bool)
      requires Valid()
      modifies this, dm, irq
      ensures Begin(cfg, env, old(State())) == if go then Go(State()) else Halt(rc, State())
    {
      hide WriteAll, RaiseAll;
      if icLeft == 0 && mode == MsimStop {
        return 2, false;
      }
      if icLeft == 0 && mode == TestFail {
        return 1, false;
      }
      if !env.freeRun && icLeft == 0 && mode == Stopped {
        WriteBytes(env.debugger.writes);
        pc, mode := env.debugger.pc, env.debugger.mode;
        if env.debugger.failed {
          return 1, false;
        }
      }
      if mode == Running || mode == MsimStep {
        WriteBytes(env.tick.writes);
        RaiseIrqs(env.tick.raised);
        mode := env.tick.mode;
      }
      if pc > cfg.flashend / 2 {
        return 1, false;
      }
      if pc + 2 >= cfg.pmSize {
        return 1, false;
      }
      return 0, true;
    }

    method ExecuteCycle(env: Env) returns (rc: int)
      requires Valid() && Ready(cfg, env.instr, State())
      modifies this, dm, irq
      ensures rc == if Executes(old(State())) && env.instr == Unknown then -1 else 0
      ensures rc == -1 ==> State() == old(State())
      ensures rc == 0 ==> State() == Executed(cfg, env, old(State()))
    {
      hide WriteAll, Exec, Ready;
      rc := 0;
      if icLeft > 0 || mode == Running || mode == MsimStep {
        rc := Step(env.instr);
        if rc != 0 {
          return;
        }
      }
      if icLeft > 0 || mode == Running || mode == MsimStep {
        WriteBytes(env.pins);
      }
    }

    method EndCycle()
      requires Valid()
      modifies this, dm, irq
      ensures State() == Finish(cfg, old(State()))
    {
      hide HandleIrq;
      if dm[cfg.sreg] >= 128 && icLeft == 0 && !execMain && (mode == Running || mode == MsimStep) {
        ServeIrq();
      }
      if icLeft == 0 {
        execMain := false;
      }
      if icLeft == 0 && mode == MsimStep {
        mode := Stopped;
      }
    }

    /** `MSIM_AVR_SimStep` */
    method SimCycle(env: Env) returns (rc: int)
      requires Valid() && Fits(cfg, env, State())
      modifies this, dm, irq
      ensures (rc, State()) == SimStep(cfg, env, old(State()))
    {
      var go;
      rc, go := StartCycle(env);
      hide Begin, Executed, Requested, Finish, Ready;
      if !go {
        return;
      }
      rc := ExecuteCycle(env);
      if rc != 0 {
        return 1;
      }
      PassIrqs(env.timers);
      EndCycle();
    }
  }

  lemma PassTimersNext(q: (Data, Requests), timers: seq<TimerVecs>, i: nat)
    requires TimersValid(timers) && i < |timers|
    ensures PassTimers(q, timers[i..])
      == PassTimers(PassVecs(PassVecs(q, timers[i].own), timers[i].comps), timers[i + 1..])
  {
    hide PassVecs;
    assert timers[i..][1..] == timers[i + 1..];
  }

  lemma WriteNext(d: Data, w: Writes, k: nat)
    requires k < |w|
    ensures WriteAll(d, w[..k + 1]) == WriteAll(d, w[..k])[w[k].0 := w[k].1]
  {
    assert w[..k + 1][..k] == w[..k];
  }

  lemma RaiseNext(q: Requests, raised: seq<nat>, k: nat)
    requires k < |raised|
    ensures RaiseAll(q, raised[..k + 1])
         == if raised[k] < IRQ_NUM then RaiseAll(q, raised[..k])[raised[k] := true] else RaiseAll(q, raised[..k])
  {
    assert raised[..k + 1][..k] == raised[..k];
  }
}
