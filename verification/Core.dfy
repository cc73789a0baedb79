/**
  The state of the AVR core and its stack, calls, returns and interrupts, as functions
  (src/avr/avr_simcore.c, src/avr/avr_decoder.c).
 */
module Core {
  import opened Arithmetic
  import opened Basics

  const DM_SIZE: nat := 0x1_0000
  const IRQ_NUM: nat := 64
  /** Data memory: registers, I/O registers and SRAM. */
  type Data = d: seq<byte> | |d| == DM_SIZE witness seq(DM_SIZE, _ => 0)

  /** The interrupt requests, one flag for each vector. */
  type Requests = q: seq<bool> | |q| == IRQ_NUM witness seq(IRQ_NUM, _ => false)

  datatype Mode = Running | Stopped | Sleeping | MsimStep | MsimStop | TestFail | StepOver

  /** What does not change while a program is simulated. */
  datatype Config = Config(spl: nat, sph: nat, sreg: nat, pcBits: nat, xmega: bool, reducedCore: bool,
                           ivt: nat, trapAtIsr: bool, flashend: nat, pmSize: nat)
  {
    predicate Valid() {
      && spl < DM_SIZE && sph < DM_SIZE && sreg < DM_SIZE
      && spl != sph && sreg != spl && sreg != sph
    }

    predicate Wide() {
      pcBits > 16
    }

    /** The bytes of a return address on the stack. */
    function PcBytes(): nat {
      if Wide() then 3 else 2
    }

    function PcLimit(): (n: nat)
      ensures n > 0
    {
      if Wide() then 0x100_0000 else 0x1_0000
    }
  }

  datatype Cpu = Cpu(dm: Data, pc: nat, icLeft: nat, mci: bool, execMain: bool, irq: Requests, mode: Mode)
  {
    predicate Active() {
      mode == Running || mode == MsimStep
    }
  }

  // ---------- the stack ----------

  function Sp(cfg: Config, dm: Data): (sp: nat)
    requires cfg.Valid()
    ensures sp < DM_SIZE
  {
    var low: int, high: int := dm[cfg.spl], dm[cfg.sph];
    256 * high + low
  }

  function SetSp(cfg: Config, dm: Data, sp: nat): Data
    requires cfg.Valid() && sp < DM_SIZE
  {
    dm[cfg.spl := sp % 256][cfg.sph := sp / 256]
  }

  function Push(cfg: Config, dm: Data, v: byte): Data
    requires cfg.Valid()
  {
    var sp := Sp(cfg, dm);
    SetSp(cfg, dm[sp := v], (sp - 1) % DM_SIZE)
  }

  /** The byte a pop yields, and memory after it; the stack must not be at the end of memory. */
  predicate CanPop(cfg: Config, dm: Data, n: nat)
    requires cfg.Valid()
  {
    Sp(cfg, dm) + n < DM_SIZE
  }

  function Top(cfg: Config, dm: Data): byte
    requires cfg.Valid() && CanPop(cfg, dm, 1)
  {
    dm[Sp(cfg, dm) + 1]
  }

  function Pop(cfg: Config, dm: Data): Data
    requires cfg.Valid() && CanPop(cfg, dm, 1)
  {
    SetSp(cfg, dm, Sp(cfg, dm) + 1)
  }

  lemma SpOfSet(cfg: Config, dm: Data, sp: nat)
    requires cfg.Valid() && sp < DM_SIZE
    ensures Sp(cfg, SetSp(cfg, dm, sp)) == sp
  {
  }

  /** The stack pointer after a push, and after a pop. */
  lemma SpMoves(cfg: Config, dm: Data, v: byte)
    requires cfg.Valid()
    ensures Sp(cfg, Push(cfg, dm, v)) == (Sp(cfg, dm) - 1) % DM_SIZE
    ensures CanPop(cfg, dm, 1) ==> Sp(cfg, Pop(cfg, dm)) == Sp(cfg, dm) + 1
  {
    var sp := Sp(cfg, dm);
    SpOfSet(cfg, dm[sp := v], (sp - 1) % DM_SIZE);
    if CanPop(cfg, dm, 1) {
      SpOfSet(cfg, dm, sp + 1);
    }
  }

  /** A return address: low byte first, so that the high byte is on top. */
  function PushPc(cfg: Config, dm: Data, pc: nat): Data
    requires cfg.Valid()
  {
    var d := Push(cfg, Push(cfg, dm, pc % 256), pc / 256 % 256);
    if cfg.Wide() then Push(cfg, d, pc / 0x1_0000 % 256) else d
  }

  function PopPc2(cfg: Config, dm: Data, extended: byte): (nat, Data)
    requires cfg.Valid() && CanPop(cfg, dm, 2)
  {
    SpMoves(cfg, dm, 0);
    var d := Pop(cfg, dm);
    var e: int, h: int, l: int := extended, Top(cfg, dm), Top(cfg, d);
    (0x1_0000 * e + 256 * h + l, Pop(cfg, d))
  }

  /** The popped program counter, and memory after the pops. */
  function PopPc(cfg: Config, dm: Data): (nat, Data)
    requires cfg.Valid() && CanPop(cfg, dm, cfg.PcBytes())
  {
    if cfg.Wide() then
      SpMoves(cfg, dm, 0);
      PopPc2(cfg, Pop(cfg, dm), Top(cfg, dm))
    else PopPc2(cfg, dm, 0)
  }

  // ---------- the global interrupt flag ----------

  predicate Enabled(cfg: Config, dm: Data)
    requires cfg.Valid()
  {
    dm[cfg.sreg] >= 128
  }

  function SetEnabled(cfg: Config, dm: Data, on: bool): Data
    requires cfg.Valid()
  {
    dm[cfg.sreg := dm[cfg.sreg] % 128 + if on then 128 else 0]
  }

  // ---------- instructions ----------

  /** Writes to data memory, in order. */
  type Writes = w: seq<(nat, byte)> | forall k :: 0 <= k < |w| ==> w[k].0 < DM_SIZE witness []

  function WriteAll(dm: Data, w: Writes): Data
    decreases |w|
  {
    if w == [] then dm else WriteAll(dm, w[..|w| - 1])[w[|w| - 1].0 := w[|w| - 1].1]
  }

  /** What an instruction without a name of its own does once it completes. */
  datatype Effect = Effect(writes: Writes, pc: nat, mode: Mode, raised: seq<nat>)

  datatype Instr =
    | Call(target: nat)
    | Rcall(offset: int)
    | Icall
    | Ret
    | Reti
    | PushReg(reg: nat)
    | PopReg(reg: nat)
    | Other(skips: Option<(bool, nat)>, effect: Effect)
    | Unknown

  /**
    The arguments of SKIP_CYCLES when an instruction evaluates it: the condition for
    taking more than one cycle, and the number of further cycles.
   */
  function Skips(cfg: Config, i: Instr): Option<(bool, nat)> {
    var w := if cfg.Wide() then 1 else 0;
    match i
    case Call(_) => Some((true, if cfg.xmega then 2 + w else 3 + w))
    case Rcall(_) => Some((true, if cfg.reducedCore then 3 else if cfg.xmega then 1 + w else 2 + w))
    case Icall => Some((true, if cfg.xmega then 1 + w else 2 + w))
    case Ret => Some((true, 3 + w))
    case Reti => Some((true, 3 + w))
    case PushReg(_) => if cfg.xmega then None else Some((true, 1))
    case PopReg(_) => Some((true, 1))
    case Other(skips, _) => skips
    case Unknown => None
  }

  function RaiseAll(irq: Requests, raised: seq<nat>): Requests {
    if raised == [] then irq
    else
      var q, v := RaiseAll(irq, raised[..|raised| - 1]), raised[|raised| - 1];
      if v < IRQ_NUM then q[v := true] else q
  }

  /** The registers an instruction can name, and a stack it can pop. */
  predicate Runs(cfg: Config, i: Instr, dm: Data)
    requires cfg.Valid()
  {
    match i
    case Ret => CanPop(cfg, dm, cfg.PcBytes())
    case Reti => CanPop(cfg, dm, cfg.PcBytes())
    case PushReg(reg) => reg < 32
    case PopReg(reg) => reg < 32 && CanPop(cfg, dm, 1)
    case _ => true
  }

  /** What an instruction does in its last cycle. */
  function Complete(cfg: Config, i: Instr, c: Cpu): Cpu
    requires cfg.Valid() && Runs(cfg, i, c.dm)
  {
    match i
    case Call(target) => c.(dm := PushPc(cfg, c.dm, c.pc + 2), pc := target)
    case Rcall(offset) => c.(dm := PushPc(cfg, c.dm, c.pc + 1), pc := (c.pc + offset + 1) % WORD)
    case Icall =>
      var d := PushPc(cfg, c.dm, c.pc + 1);
      var high: int, low: int := d[31], d[30];
      c.(dm := d, pc := 256 * high + low)
    case Ret =>
      var (pc, d) := PopPc(cfg, c.dm);
      c.(dm := d, pc := pc)
    case Reti =>
      var (pc, d) := PopPc(cfg, c.dm);
      c.(dm := if cfg.xmega then d else SetEnabled(cfg, d, true), pc := pc, execMain := true)
    case PushReg(reg) => c.(dm := Push(cfg, c.dm, c.dm[reg]), pc := (c.pc + 1) % WORD)
    case PopReg(reg) => c.(dm := Pop(cfg, c.dm)[reg := Top(cfg, c.dm)], pc := (c.pc + 1) % WORD)
    case Other(_, e) => c.(dm := WriteAll(c.dm, e.writes), pc := e.pc, mode := e.mode, irq := RaiseAll(c.irq, e.raised))
    case Unknown => c
  }

  /** SKIP_CYCLES: whether the instruction completes in this cycle, and the core after it. */
  function Skip(c: Cpu, cond: bool, extra: nat): (bool, Cpu) {
    if !c.mci && cond then (false, c.(mci := true, icLeft := extra))
    else if c.mci && c.icLeft > 1 then (false, c.(icLeft := c.icLeft - 1))
    else (true, c.(icLeft := if c.mci then 0 else c.icLeft, mci := false))
  }

  function SkipFor(cfg: Config, i: Instr, c: Cpu): (bool, Cpu) {
    match Skips(cfg, i)
    case None => (true, c)
    case Some(args) => Skip(c, args.0, args.1)
  }

  /** An instruction that completes in this cycle has its operands. */
  predicate Ready(cfg: Config, i: Instr, c: Cpu)
    requires cfg.Valid()
  {
    SkipFor(cfg, i, c).0 ==> Runs(cfg, i, c.dm)
  }

  /** One cycle of an instruction. */
  function Exec(cfg: Config, i: Instr, c: Cpu): Cpu
    requires cfg.Valid() && Ready(cfg, i, c)
  {
    var (go, d) := SkipFor(cfg, i, c);
    if go then Complete(cfg, i, d) else d
  }

  // ---------- interrupts ----------

  /** A bit of an I/O register. */
  datatype IoBit = IoBit(reg: nat, bit: nat)
  {
    predicate Valid() {
      reg < DM_SIZE && bit < 8
    }
  }

  /** `writable` tells whether the access mask of the flag's register lets the flag be written. */
  datatype IntVec = IntVec(enable: IoBit, raised: IoBit, vector: nat, writable: bool)
  {
    predicate Valid() {
      enable.Valid() && raised.Valid() && vector < IRQ_NUM
    }
  }

  /** The interrupt vectors of a timer: overflow and input capture, then its compare channels. */
  datatype TimerVecs = TimerVecs(own: seq<Option<IntVec>>, comps: seq<Option<IntVec>>)

  function Read(dm: Data, b: IoBit): nat
    requires b.Valid()
  {
    Bit(dm[b.reg], b.bit)
  }

  /** Clearing a bit that is set. */
  function Clear(dm: Data, b: IoBit): Data
    requires b.Valid() && Read(dm, b) == 1
  {
    SetIsLarge(dm[b.reg], Pow2(b.bit));
    var old_value: int := dm[b.reg];
    dm[b.reg := old_value - Pow2(b.bit)]
  }

  lemma SetIsLarge(v: nat, p: nat)
    requires p > 0 && v / p % 2 == 1
    ensures v >= p
  {
    if v < p {
      DivModUnique(v, p, 0, v);
    }
  }

  /** Passing one vector: an enabled and raised interrupt becomes a request, and its flag is cleared if it can be. */
  function Pass(q: (Data, Requests), v: IntVec): (Data, Requests)
    requires v.Valid()
  {
    if Read(q.0, v.enable) == 1 && Read(q.0, v.raised) == 1 then
      (if v.writable then Clear(q.0, v.raised) else q.0, q.1[v.vector := true])
    else q
  }

  predicate AllValid(vecs: seq<Option<IntVec>>) {
    forall k :: 0 <= k < |vecs| && vecs[k].Some? ==> vecs[k].value.Valid()
  }

  /** Passing the vectors of a table up to its first gap. */
  function PassVecs(q: (Data, Requests), vecs: seq<Option<IntVec>>): (Data, Requests)
    requires AllValid(vecs)
    decreases |vecs|
  {
    if vecs == [] || vecs[0].None? then q else PassVecs(Pass(q, vecs[0].value), vecs[1..])
  }

  predicate TimersValid(timers: seq<TimerVecs>) {
    forall k :: 0 <= k < |timers| ==> AllValid(timers[k].own) && AllValid(timers[k].comps)
  }

  function PassTimers(q: (Data, Requests), timers: seq<TimerVecs>): (Data, Requests)
    requires TimersValid(timers)
    decreases |timers|
  {
    if timers == [] then q
    else PassTimers(PassVecs(PassVecs(q, timers[0].own), timers[0].comps), timers[1..])
  }

  /** The request with the highest priority from vector i on; IRQ_NUM if there is none. */
  function Lowest(irq: Requests, i: nat): (v: nat)
    requires i <= IRQ_NUM
    ensures i <= v <= IRQ_NUM && (v < IRQ_NUM ==> irq[v]) && forall k :: i <= k < v ==> !irq[k]
    decreases IRQ_NUM - i
  {
    if i == IRQ_NUM || irq[i] then i else Lowest(irq, i + 1)
  }

  /** Entering an interrupt service routine. */
  function Enter(cfg: Config, c: Cpu, v: nat): Cpu
    requires cfg.Valid() && v < IRQ_NUM
  {
    var d := if cfg.xmega then c.dm else SetEnabled(cfg, c.dm, false);
    c.(irq := c.irq[v := false],
       dm := PushPc(cfg, d, c.pc),
       pc := cfg.ivt * v % WORD,
       mode := if cfg.trapAtIsr && c.mode == Running then MsimStep else c.mode)
  }

  function HandleIrq(cfg: Config, c: Cpu): Cpu
    requires cfg.Valid()
  {
    var v := Lowest(c.irq, 0);
    if v == IRQ_NUM then c else Enter(cfg, c, v)
  }
}
