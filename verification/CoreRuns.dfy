/**
  What holds over whole runs of the simulation cycle: instructions of several cycles,
  when interrupts are served, and what becomes of their requests.
 */
module CoreRuns {
  import opened Basics
  import opened Core
  import opened SimCore

  // ---------- instructions of several cycles ----------

  /** The core after k cycles of one instruction. */
  function Cycles(cfg: Config, i: Instr, c: Cpu, k: nat): Cpu
    requires cfg.Valid()
  {
    if k == 0 then c
    else
      var d := Cycles(cfg, i, c, k - 1);
      if Ready(cfg, i, d) then Exec(cfg, i, d) else d
  }

  /**
    An instruction that takes n further cycles shows nothing but the flag and the count
    for n cycles, and has its whole effect once, in the cycle after them.
   */
  lemma {:induction false} EffectOnce(cfg: Config, i: Instr, c: Cpu, n: nat, k: nat)
    requires cfg.Valid() && Skips(cfg, i) == Some((true, n)) && n > 0
    requires !c.mci && c.icLeft == 0 && Runs(cfg, i, c.dm) && k <= n + 1
    ensures Cycles(cfg, i, c, k) ==
      if k == 0 then c else if k <= n then c.(mci := true, icLeft := n + 1 - k) else Complete(cfg, i, c)
  {
    hide Complete, Runs;
    if k > 0 {
      EffectOnce(cfg, i, c, n, k - 1);
    }
  }

  /** Outside instructions, nothing is left to do: the flag says whether cycles are left. */
  predicate Sound(c: Cpu) {
    (c.mci <==> c.icLeft > 0) && !c.execMain
  }

  predicate Timed(cfg: Config, i: Instr) {
    Skips(cfg, i).Some? && Skips(cfg, i).value.0 ==> Skips(cfg, i).value.1 > 0
  }

  // ---------- one cycle ----------

  /** A cycle that runs to its end. */
  predicate Whole(cfg: Config, env: Env, c: Cpu)
    requires cfg.Valid() && Fits(cfg, env, c)
  {
    Begin(cfg, env, c).Go? && !(Executes(Begin(cfg, env, c).c) && env.instr == Unknown)
  }

  /** The core when interrupts are considered. */
  function Between(cfg: Config, env: Env, c: Cpu): Cpu
    requires cfg.Valid() && Fits(cfg, env, c) && Whole(cfg, env, c)
  {
    Requested(env.timers, Executed(cfg, env, Begin(cfg, env, c).c))
  }

  /** The instruction of this cycle completes in it. */
  predicate Completes(cfg: Config, env: Env, c: Cpu)
    requires cfg.Valid() && Fits(cfg, env, c)
  {
    Whole(cfg, env, c) && Executes(Begin(cfg, env, c).c) && SkipFor(cfg, env.instr, Begin(cfg, env, c).c).0
  }

  /** An interrupt service routine is entered in this cycle. */
  predicate Enters(cfg: Config, env: Env, c: Cpu)
    requires cfg.Valid() && Fits(cfg, env, c)
  {
    Whole(cfg, env, c) && Serves(cfg, Between(cfg, env, c)) && Vector(cfg, env, c) < IRQ_NUM
  }

  /** The vector that is entered. */
  function Vector(cfg: Config, env: Env, c: Cpu): nat
    requires cfg.Valid() && Fits(cfg, env, c) && Whole(cfg, env, c)
  {
    Lowest(Between(cfg, env, c).irq, 0)
  }

  function Next(cfg: Config, env: Env, c: Cpu): Cpu
    requires cfg.Valid() && Fits(cfg, env, c)
  {
    SimStep(cfg, env, c).1
  }

  lemma BeginKeeps(cfg: Config, env: Env, c: Cpu)
    ensures var b := Begin(cfg, env, c).c; b.mci == c.mci && b.icLeft == c.icLeft && b.execMain == c.execMain
    ensures forall v :: 0 <= v < IRQ_NUM && c.irq[v] ==> Begin(cfg, env, c).c.irq[v]
  {
    hide WriteAll;
    RaiseKeeps(c.irq, env.tick.raised);
    hide RaiseAll;
  }

  lemma {:induction false} RaiseKeeps(q: Requests, raised: seq<nat>)
    ensures forall v :: 0 <= v < IRQ_NUM && q[v] ==> RaiseAll(q, raised)[v]
    decreases |raised|
  {
    if raised != [] {
      RaiseKeeps(q, raised[..|raised| - 1]);
    }
  }

  /** A cycle of an instruction either leaves cycles to do or completes it. */
  lemma ExecMarks(cfg: Config, i: Instr, c: Cpu)
    requires cfg.Valid() && Ready(cfg, i, c) && Timed(cfg, i) && (c.mci <==> c.icLeft > 0)
    ensures var d := Exec(cfg, i, c); var done := SkipFor(cfg, i, c).0;
            && (d.mci <==> d.icLeft > 0)
            && (Skips(cfg, i).Some? ==> (done <==> d.icLeft == 0))
            && (Skips(cfg, i).None? ==> done && d.icLeft == c.icLeft)
            && d.execMain == (c.execMain || (done && i == Reti))
            && (!done ==> d == c.(mci := d.mci, icLeft := d.icLeft))
  {
    hide PushPc, PopPc, Push, Pop, Top, Runs, WriteAll, RaiseAll, SetEnabled;
  }

  /** The parts of the core that passing requests and pins leave alone. */
  lemma BetweenMarks(cfg: Config, env: Env, c: Cpu)
    requires cfg.Valid() && Fits(cfg, env, c) && Whole(cfg, env, c) && Sound(c) && Timed(cfg, env.instr)
    ensures var m := Between(cfg, env, c);
            && (m.mci <==> m.icLeft > 0)
            && (Completes(cfg, env, c) && (Skips(cfg, env.instr).Some? || c.icLeft == 0) ==> m.icLeft == 0)
            && (m.icLeft == 0 && m.Active() ==> Completes(cfg, env, c))
            && (m.execMain <==> Completes(cfg, env, c) && env.instr == Reti)
  {
    BeginKeeps(cfg, env, c);
    var b := Begin(cfg, env, c).c;
    hide Begin;
    if Executes(b) {
      ExecMarks(cfg, env.instr, b);
    }
    hide Exec, SkipFor, PassTimers, WriteAll, Ready;
  }

  /** Between cycles, the flag of a multi-cycle instruction is set exactly when cycles are left. */
  lemma CycleKeepsSound(cfg: Config, env: Env, c: Cpu)
    requires cfg.Valid() && Fits(cfg, env, c) && Sound(c) && Timed(cfg, env.instr)
    ensures Sound(Next(cfg, env, c))
  {
    BeginKeeps(cfg, env, c);
    if Whole(cfg, env, c) {
      BetweenMarks(cfg, env, c);
      SimStepIs(cfg, env, c);
      hide Begin, Between, Completes, SimStep, Fits, Whole;
      FinishMarks(cfg, Between(cfg, env, c));
    } else {
      hide Begin, Exec, PassTimers, Finish;
    }
  }

  lemma SimStepIs(cfg: Config, env: Env, c: Cpu)
    requires cfg.Valid() && Fits(cfg, env, c)
    ensures Whole(cfg, env, c) ==> SimStep(cfg, env, c) == (0, Finish(cfg, Between(cfg, env, c)))
    ensures !Whole(cfg, env, c) ==> Next(cfg, env, c) == Begin(cfg, env, c).c && SimStep(cfg, env, c).0 != 0
  {
    hide Finish, Executed, Requested, WriteAll, RaiseAll, Ready;
  }

  lemma FinishMarks(cfg: Config, m: Cpu)
    requires cfg.Valid()
    ensures var f := Finish(cfg, m);
            f.mci == m.mci && f.icLeft == m.icLeft && (f.execMain <==> m.execMain && m.icLeft > 0)
  {
    hide PushPc, SetEnabled;
  }

  // ---------- entering interrupt service routines ----------

  /**
    No routine is entered while an instruction is unfinished, nor right after RETI:
    the cycle that enters one completes an instruction, and it is not RETI.
   */
  lemma EntryAfterInstruction(cfg: Config, env: Env, c: Cpu)
    requires cfg.Valid() && Fits(cfg, env, c) && Sound(c) && Timed(cfg, env.instr) && Enters(cfg, env, c)
    ensures Completes(cfg, env, c) && env.instr != Reti
    ensures Between(cfg, env, c).icLeft == 0 && !Between(cfg, env, c).mci
  {
    BetweenMarks(cfg, env, c);
    hide Between, Completes, Fits;
  }

  /** What entering a routine does to the core. */
  ghost predicate Entered(cfg: Config, m: Cpu, f: Cpu, v: nat)
    requires cfg.Valid() && v < IRQ_NUM
  {
    && m.irq[v] && (forall u :: 0 <= u < v ==> !m.irq[u]) && f.irq == m.irq[v := false]
    && f.pc == cfg.ivt * v % WORD
    && f.dm == PushPc(cfg, if cfg.xmega then m.dm else SetEnabled(cfg, m.dm, false), m.pc)
    && f.mode == (if m.mode == MsimStep || cfg.trapAtIsr then Stopped else m.mode)
  }

  /**
    A cycle enters a routine exactly when interrupts may be served and one is requested.
    It serves the request with the lowest vector and no other; a cycle that enters
    none leaves requests, memory and program counter alone.
   */
  lemma EntryServesLowest(cfg: Config, env: Env, c: Cpu)
    requires cfg.Valid() && Fits(cfg, env, c) && Whole(cfg, env, c)
    ensures var m := Between(cfg, env, c); var f := Next(cfg, env, c);
            && (Enters(cfg, env, c) <==> Serves(cfg, m) && exists v :: 0 <= v < IRQ_NUM && m.irq[v])
            && (Enters(cfg, env, c) ==> Entered(cfg, m, f, Vector(cfg, env, c)))
            && (!Enters(cfg, env, c) ==> f.irq == m.irq && f.dm == m.dm && f.pc == m.pc)
  {
    hide Between, SimStep, Fits, Whole, Finish;
    SimStepIs(cfg, env, c);
    FinishServes(cfg, Between(cfg, env, c));
  }

  /** The end of a cycle: it enters the lowest requested vector, if it may and there is one. */
  lemma FinishServes(cfg: Config, m: Cpu)
    requires cfg.Valid()
    ensures var f := Finish(cfg, m); var v := Lowest(m.irq, 0);
            && (v == IRQ_NUM <==> !exists u :: 0 <= u < IRQ_NUM && m.irq[u])
            && (Serves(cfg, m) && v < IRQ_NUM ==> Entered(cfg, m, f, v))
            && (!(Serves(cfg, m) && v < IRQ_NUM) ==> f.irq == m.irq && f.dm == m.dm && f.pc == m.pc)
  {
    hide PushPc, SetEnabled, Lowest, Serves, Finish, Entered;
    var v := Lowest(m.irq, 0);
    if Serves(cfg, m) && v < IRQ_NUM {
      FinishEnters(cfg, m);
    } else {
      FinishWaits(cfg, m);
    }
  }

  lemma FinishEnters(cfg: Config, m: Cpu)
    requires cfg.Valid() && Serves(cfg, m) && Lowest(m.irq, 0) < IRQ_NUM
    ensures Entered(cfg, m, Finish(cfg, m), Lowest(m.irq, 0))
  {
    hide PushPc, SetEnabled, Lowest, Enabled;
  }

  lemma FinishWaits(cfg: Config, m: Cpu)
    requires cfg.Valid() && !(Serves(cfg, m) && Lowest(m.irq, 0) < IRQ_NUM)
    ensures var f := Finish(cfg, m); f.irq == m.irq && f.dm == m.dm && f.pc == m.pc
  {
    hide PushPc, SetEnabled, Lowest, Serves;
  }

  // ---------- requests ----------

  /** A cycle loses no request except the one it serves. */
  lemma CycleKeepsRequest(cfg: Config, env: Env, c: Cpu, v: nat)
    requires cfg.Valid() && Fits(cfg, env, c) && v < IRQ_NUM && Pending(cfg, env, c, v)
    requires !(Enters(cfg, env, c) && Vector(cfg, env, c) == v)
    ensures Next(cfg, env, c).irq[v]
  {
    if Whole(cfg, env, c) {
      EntryServesLowest(cfg, env, c);
    } else {
      SimStepIs(cfg, env, c);
    }
    hide Between, Begin, Next, Enters, Whole, Vector, Fits;
  }

  /** Vector v is requested when this cycle considers interrupts. */
  predicate Pending(cfg: Config, env: Env, c: Cpu, v: nat)
    requires cfg.Valid() && Fits(cfg, env, c) && v < IRQ_NUM
  {
    if Whole(cfg, env, c) then Between(cfg, env, c).irq[v] else Begin(cfg, env, c).c.irq[v]
  }

  lemma {:induction false} PassKeeps(q: (Data, Requests), vecs: seq<Option<IntVec>>, v: nat)
    requires AllValid(vecs) && v < IRQ_NUM && q.1[v]
    ensures PassVecs(q, vecs).1[v]
    decreases |vecs|
  {
    if vecs != [] && vecs[0].Some? {
      hide Read, Clear;
      PassKeeps(Pass(q, vecs[0].value), vecs[1..], v);
    }
  }

  lemma {:induction false} PassTimersKeeps(q: (Data, Requests), timers: seq<TimerVecs>, v: nat)
    requires TimersValid(timers) && v < IRQ_NUM && q.1[v]
    ensures PassTimers(q, timers).1[v]
    decreases |timers|
  {
    if timers != [] {
      hide PassVecs;
      PassKeeps(q, timers[0].own, v);
      PassKeeps(PassVecs(q, timers[0].own), timers[0].comps, v);
      PassTimersKeeps(PassVecs(PassVecs(q, timers[0].own), timers[0].comps), timers[1..], v);
    }
  }

  /** A request once made stays until interrupts are considered. */
  lemma RequestReaches(cfg: Config, env: Env, c: Cpu, v: nat)
    requires cfg.Valid() && Fits(cfg, env, c) && v < IRQ_NUM && c.irq[v]
    ensures Pending(cfg, env, c, v)
  {
    BeginKeeps(cfg, env, c);
    if Whole(cfg, env, c) {
      var b := Begin(cfg, env, c).c;
      var x := Executed(cfg, env, b);
      ExecutedKeeps(cfg, env, b, v);
      hide Begin, Executed, Fits, Whole;
      PassTimersKeeps((x.dm, x.irq), env.timers, v);
    }
  }

  lemma ExecutedKeeps(cfg: Config, env: Env, b: Cpu, v: nat)
    requires cfg.Valid() && Ready(cfg, env.instr, b) && v < IRQ_NUM && b.irq[v]
    ensures Executed(cfg, env, b).irq[v]
  {
    if env.instr.Other? {
      RaiseKeeps(b.irq, env.instr.effect.raised);
    }
    hide WriteAll, PushPc, PopPc, Push, Pop, Top, RaiseAll, SetEnabled, Runs;
  }

  lemma CycleMakesRequest(cfg: Config, env: Env, c: Cpu, v: nat)
    requires cfg.Valid() && Fits(cfg, env, c) && v < IRQ_NUM && Next(cfg, env, c).irq[v]
    ensures Pending(cfg, env, c, v)
  {
    if Whole(cfg, env, c) {
      EntryServesLowest(cfg, env, c);
    } else {
      SimStepIs(cfg, env, c);
    }
    hide Between, Begin, Next, Enters, Whole, Vector, Fits;
  }

  // ---------- runs ----------

  /** A cycle of a run. */
  datatype Cycle = Cycle(env: Env, before: Cpu, after: Cpu)

  ghost predicate IsCycle(cfg: Config, y: Cycle) {
    cfg.Valid() && Fits(cfg, y.env, y.before) && Timed(cfg, y.env.instr) && y.after == Next(cfg, y.env, y.before)
  }

  ghost predicate Linked(run: seq<Cycle>, k: nat) {
    k < |run| && (k > 0 ==> run[k].before == run[k - 1].after)
  }

  /** A run from a core that is not in the middle of anything. */
  ghost predicate IsRun(cfg: Config, run: seq<Cycle>) {
    && (forall k :: 0 <= k < |run| ==> IsCycle(cfg, run[k]))
    && (forall k :: 0 <= k < |run| ==> Linked(run, k))
    && (run != [] ==> Sound(run[0].before))
  }

  /** Events of a cycle. */
  ghost predicate CompletesIn(cfg: Config, y: Cycle) {
    IsCycle(cfg, y) && Completes(cfg, y.env, y.before)
  }

  ghost predicate EntersIn(cfg: Config, y: Cycle, v: nat) {
    IsCycle(cfg, y) && Enters(cfg, y.env, y.before) && v == Vector(cfg, y.env, y.before)
  }

  ghost predicate PendingIn(cfg: Config, y: Cycle, v: nat) {
    IsCycle(cfg, y) && v < IRQ_NUM && Pending(cfg, y.env, y.before, v)
  }

  lemma {:induction false} RunIsSound(cfg: Config, run: seq<Cycle>, k: nat)
    requires IsRun(cfg, run) && k < |run|
    ensures Sound(run[k].before) && IsCycle(cfg, run[k])
    decreases k
  {
    hide Fits, Next, Timed, Sound;
    if k > 0 {
      RunIsSound(cfg, run, k - 1);
      assert Linked(run, k);
      CycleKeepsSound(cfg, run[k - 1].env, run[k - 1].before);
    }
  }

  /** Over a whole run, the flag of a multi-cycle instruction is set exactly while cycles are left. */
  lemma FlagFollowsCount(cfg: Config, run: seq<Cycle>)
    requires IsRun(cfg, run)
    ensures forall k :: 0 <= k < |run| ==> (run[k].after.mci <==> run[k].after.icLeft > 0)
  {
    forall k | 0 <= k < |run|
      ensures run[k].after.mci <==> run[k].after.icLeft > 0
    {
      RunIsSound(cfg, run, k);
      CycleKeepsSound(cfg, run[k].env, run[k].before);
    }
  }

  /** Between a RETI and the next entry, another instruction completes. */
  lemma InstructionAfterReti(cfg: Config, run: seq<Cycle>, i: nat, j: nat, v: nat)
    requires IsRun(cfg, run) && i <= j < |run|
    requires CompletesIn(cfg, run[i]) && run[i].env.instr == Reti && EntersIn(cfg, run[j], v)
    ensures i < j && CompletesIn(cfg, run[j]) && run[j].env.instr != Reti
  {
    RunIsSound(cfg, run, j);
    EntryAfterInstruction(cfg, run[j].env, run[j].before);
  }

  lemma RequestOverCycle(cfg: Config, y: Cycle, v: nat)
    requires IsCycle(cfg, y) && v < IRQ_NUM
    ensures y.before.irq[v] ==> PendingIn(cfg, y, v)
    ensures PendingIn(cfg, y, v) && !EntersIn(cfg, y, v) ==> y.after.irq[v]
    ensures EntersIn(cfg, y, v) ==> PendingIn(cfg, y, v) && !y.after.irq[v]
    ensures y.after.irq[v] ==> PendingIn(cfg, y, v)
  {
    if y.before.irq[v] {
      RequestReaches(cfg, y.env, y.before, v);
    }
    if PendingIn(cfg, y, v) && !EntersIn(cfg, y, v) {
      CycleKeepsRequest(cfg, y.env, y.before, v);
    }
    if EntersIn(cfg, y, v) {
      EntryServesLowest(cfg, y.env, y.before);
    }
    if y.after.irq[v] {
      CycleMakesRequest(cfg, y.env, y.before, v);
    }
    hide Fits, Begin, Between, Next, Whole, Vector, Timed, Serves;
  }

  /** No request is lost: it stays until a cycle serves it. */
  lemma {:induction false} NoRequestLost(cfg: Config, run: seq<Cycle>, i: nat, j: nat, v: nat)
    requires IsRun(cfg, run) && i <= j < |run| && v < IRQ_NUM && PendingIn(cfg, run[i], v)
    requires forall k :: i <= k <= j ==> !EntersIn(cfg, run[k], v)
    ensures run[j].after.irq[v]
    decreases j
  {
    hide IsCycle, PendingIn, EntersIn, Sound;
    RequestOverCycle(cfg, run[j], v);
    if i < j {
      NoRequestLost(cfg, run, i, j - 1, v);
      assert Linked(run, j);
    }
  }

  /** No request is served twice: between two entries of a vector it is requested anew. */
  lemma ServedOnce(cfg: Config, run: seq<Cycle>, i: nat, j: nat, v: nat) returns (k: nat)
    requires IsRun(cfg, run) && i < j < |run| && v < IRQ_NUM
    requires EntersIn(cfg, run[i], v) && EntersIn(cfg, run[j], v)
    ensures i < k <= j && !run[k].before.irq[v] && PendingIn(cfg, run[k], v)
  {
    hide IsCycle, PendingIn, EntersIn, Sound;
    RequestOverCycle(cfg, run[i], v);
    RequestOverCycle(cfg, run[j], v);
    assert Linked(run, i + 1);
    k := Rise(cfg, run, i + 1, j, v);
  }

  lemma {:induction false} Rise(cfg: Config, run: seq<Cycle>, i: nat, j: nat, v: nat) returns (k: nat)
    requires IsRun(cfg, run) && i <= j < |run| && v < IRQ_NUM
    requires !run[i].before.irq[v] && PendingIn(cfg, run[j], v)
    ensures i <= k <= j && !run[k].before.irq[v] && PendingIn(cfg, run[k], v)
    decreases j
  {
    hide IsCycle, PendingIn, EntersIn, Sound;
    if !run[j].before.irq[v] {
      k := j;
    } else {
      RequestOverCycle(cfg, run[j - 1], v);
      assert Linked(run, j);
      k := Rise(cfg, run, i, j - 1, v);
    }
  }

  // ---------- stepping ----------

  /** In step mode the core stops again exactly when the instruction has completed. */
  lemma StepStops(cfg: Config, env: Env, c: Cpu)
    requires cfg.Valid() && Fits(cfg, env, c) && Whole(cfg, env, c) && Sound(c) && Timed(cfg, env.instr)
    requires Between(cfg, env, c).mode == MsimStep
    ensures Next(cfg, env, c).mode == Stopped || Next(cfg, env, c).mode == MsimStep
    ensures Next(cfg, env, c).mode == Stopped <==> Between(cfg, env, c).icLeft == 0
    ensures Next(cfg, env, c).mode == Stopped ==> Completes(cfg, env, c)
  {
    BetweenMarks(cfg, env, c);
    SimStepIs(cfg, env, c);
    hide Between, SimStep, Fits, Whole, PushPc, SetEnabled, Completes;
  }
}
