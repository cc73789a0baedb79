/**
  Properly nested control flow: calls, interrupts and saved registers, each undone by
  its own return or pop, on one stack.
 */
module Brackets {
  import opened Basics
  import opened Core

  datatype Entry = ByCall(target: nat) | ByRcall(offset: int) | ByIcall | ByIrq(vector: nat)
  datatype Exit = ByRet | ByReti

  /**
    A properly nested trace: writes of other instructions, registers saved by PUSH
    around a body and restored by POP, and bodies that are entered and left.
   */
  datatype Trace =
    | End
    | Plain(writes: Writes, next: nat, rest: Trace)
    | Saved(reg: nat, body: Trace, rest: Trace)
    | Frame(entry: Entry, body: Trace, exit: Exit, rest: Trace)

  // ---------- what a trace does ----------

  function EnterBy(cfg: Config, e: Entry, c: Cpu): Cpu
    requires cfg.Valid()
  {
    match e
    case ByCall(target) => Complete(cfg, Call(target), c)
    case ByRcall(offset) => Complete(cfg, Rcall(offset), c)
    case ByIcall => Complete(cfg, Icall, c)
    case ByIrq(v) => if v < IRQ_NUM then Enter(cfg, c, v) else c
  }

  function ExitBy(cfg: Config, e: Exit, c: Cpu): Cpu
    requires cfg.Valid()
  {
    var i := if e == ByRet then Ret else Reti;
    if Runs(cfg, i, c.dm) then Complete(cfg, i, c) else c
  }

  function Restore(cfg: Config, reg: nat, c: Cpu): Cpu
    requires cfg.Valid()
  {
    if Runs(cfg, PopReg(reg), c.dm) then Complete(cfg, PopReg(reg), c) else c
  }

  function Save(cfg: Config, reg: nat, c: Cpu): Cpu
    requires cfg.Valid()
  {
    if reg < 32 then Complete(cfg, PushReg(reg), c) else c
  }

  function Do(cfg: Config, t: Trace, c: Cpu): Cpu
    requires cfg.Valid()
  {
    match t
    case End => c
    case Plain(writes, next, rest) => Do(cfg, rest, c.(dm := WriteAll(c.dm, writes), pc := next))
    case Saved(reg, body, rest) => Do(cfg, rest, Restore(cfg, reg, Do(cfg, body, Save(cfg, reg, c))))
    case Frame(entry, body, exit, rest) => Do(cfg, rest, ExitBy(cfg, exit, Do(cfg, body, EnterBy(cfg, entry, c))))
  }

  // ---------- traces that respect the stack ----------

  /** Working registers, stack pointer and status register lie below SRAM. */
  predicate Below(cfg: Config, sram: nat) {
    cfg.Valid() && 32 <= sram && 32 <= cfg.spl < sram && 32 <= cfg.sph < sram && 32 <= cfg.sreg < sram
  }

  /** The stack has room for n more bytes in SRAM. */
  predicate Room(cfg: Config, c: Cpu, sram: nat, n: nat)
    requires cfg.Valid()
  {
    Sp(cfg, c.dm) >= sram + n
  }

  /** No write reaches the stack pointer, or memory above sp up to base. */
  predicate Spares(cfg: Config, w: Writes, sp: nat, base: nat) {
    forall k :: 0 <= k < |w| ==> w[k].0 != cfg.spl && w[k].0 != cfg.sph && (w[k].0 <= sp || w[k].0 > base)
  }

  /** Frames are kept inside SRAM, and other instructions write to none of them, up to `base`. */
  predicate Respects(cfg: Config, t: Trace, c: Cpu, sram: nat, base: nat)
    requires cfg.Valid()
  {
    match t
    case End => true
    case Plain(writes, next, rest) =>
      && Spares(cfg, writes, Sp(cfg, c.dm), base)
      && Respects(cfg, rest, c.(dm := WriteAll(c.dm, writes), pc := next), sram, base)
    case Saved(reg, body, rest) =>
      && reg < 32 && Room(cfg, c, sram, 1)
      && Respects(cfg, body, Save(cfg, reg, c), sram, base)
      && Respects(cfg, rest, Restore(cfg, reg, Do(cfg, body, Save(cfg, reg, c))), sram, base)
    case Frame(entry, body, exit, rest) =>
      && (entry.ByIrq? ==> entry.vector < IRQ_NUM) && Room(cfg, c, sram, cfg.PcBytes())
      && Respects(cfg, body, EnterBy(cfg, entry, c), sram, base)
      && Respects(cfg, rest, ExitBy(cfg, exit, Do(cfg, body, EnterBy(cfg, entry, c))), sram, base)
  }

  /** Where an entry is to return to. */
  function Home(e: Entry, pc: nat): nat {
    match e
    case ByCall(_) => pc + 2
    case ByRcall(_) => pc + 1
    case ByIcall => pc + 1
    case ByIrq(_) => pc
  }

  // ---------- memory around pushes and pops ----------

  /** The stack pointer is at sp and memory above it, up to base, is that of d. */
  ghost predicate Keeps(cfg: Config, d: Data, d': Data, sp: nat, base: nat)
    requires cfg.Valid()
  {
    Sp(cfg, d') == sp && forall a :: sp < a <= base && a < DM_SIZE ==> d'[a] == d[a]
  }

  lemma {:induction false} SparedKept(cfg: Config, d: Data, w: Writes, base: nat)
    requires cfg.Valid() && Spares(cfg, w, Sp(cfg, d), base)
    ensures Keeps(cfg, d, WriteAll(d, w), Sp(cfg, d), base)
    decreases |w|
  {
    if w != [] {
      SparedKept(cfg, d, w[..|w| - 1], base);
    }
  }

  lemma PushFacts(cfg: Config, d: Data, v: byte, sram: nat)
    requires Below(cfg, sram) && Sp(cfg, d) > sram
    ensures var e := Push(cfg, d, v); var sp := Sp(cfg, d);
            && Sp(cfg, e) == sp - 1 && e[sp] == v
            && forall a :: 0 <= a < DM_SIZE && a != sp && a != cfg.spl && a != cfg.sph ==> e[a] == d[a]
  {
    SpMoves(cfg, d, v);
  }

  lemma PopFacts(cfg: Config, d: Data, sram: nat)
    requires Below(cfg, sram) && CanPop(cfg, d, 1)
    ensures var e := Pop(cfg, d);
            && Sp(cfg, e) == Sp(cfg, d) + 1 && Top(cfg, d) == d[Sp(cfg, d) + 1]
            && forall a :: 0 <= a < DM_SIZE && a != cfg.spl && a != cfg.sph ==> e[a] == d[a]
  {
    SpMoves(cfg, d, 0);
  }

  /** A return address as it lies on the stack, above sp. */
  ghost predicate Stacked(cfg: Config, d: Data, sp: nat, pc: nat)
    requires cfg.Valid() && sp + cfg.PcBytes() < DM_SIZE
  {
    var n := cfg.PcBytes();
    && d[sp + n] == pc % 256 && d[sp + n - 1] == pc / 256 % 256
    && (cfg.Wide() ==> d[sp + 1] == pc / 0x1_0000 % 256)
  }

  lemma PushPcFacts(cfg: Config, d: Data, pc: nat, sram: nat)
    requires Below(cfg, sram) && Sp(cfg, d) >= sram + cfg.PcBytes()
    ensures var e := PushPc(cfg, d, pc); var sp := Sp(cfg, d) - cfg.PcBytes();
            && Sp(cfg, e) == sp && Stacked(cfg, e, sp, pc)
            && forall a :: 0 <= a < DM_SIZE && (a > Sp(cfg, d) || a <= sp) && a != cfg.spl && a != cfg.sph ==>
              e[a] == d[a]
  {
    var d1 := Push(cfg, d, pc % 256);
    var d2 := Push(cfg, d1, pc / 256 % 256);
    PushFacts(cfg, d, pc % 256, sram);
    PushFacts(cfg, d1, pc / 256 % 256, sram);
    if cfg.Wide() {
      PushFacts(cfg, d2, pc / 0x1_0000 % 256, sram);
    }
    hide Push, Sp;
  }

  lemma Reassembled(pc: nat)
    ensures 256 * (pc / 256 % 256) + pc % 256 == pc % 0x1_0000
    ensures 0x1_0000 * (pc / 0x1_0000 % 256) + 256 * (pc / 256 % 256) + pc % 256 == pc % 0x100_0000
  {
  }

  lemma PopPcFacts(cfg: Config, d: Data, pc: nat, sram: nat)
    requires Below(cfg, sram) && Sp(cfg, d) >= sram && CanPop(cfg, d, cfg.PcBytes())
    requires Stacked(cfg, d, Sp(cfg, d), pc)
    ensures var (p, e) := PopPc(cfg, d);
            && p == pc % cfg.PcLimit() && Sp(cfg, e) == Sp(cfg, d) + cfg.PcBytes()
            && forall a :: 0 <= a < DM_SIZE && a != cfg.spl && a != cfg.sph ==> e[a] == d[a]
  {
    Reassembled(pc);
    PopFacts(cfg, d, sram);
    var d1 := Pop(cfg, d);
    PopFacts(cfg, d1, sram);
    if cfg.Wide() {
      PopFacts(cfg, Pop(cfg, d1), sram);
    }
    hide Pop, Top, Sp;
  }

  // ---------- entries and exits ----------

  /** Memory before an entry pushes the return address. */
  function Before(cfg: Config, e: Entry, c: Cpu): Data
    requires cfg.Valid()
  {
    if e.ByIrq? && !cfg.xmega then SetEnabled(cfg, c.dm, false) else c.dm
  }

  lemma EnterPushes(cfg: Config, e: Entry, c: Cpu)
    requires cfg.Valid() && (e.ByIrq? ==> e.vector < IRQ_NUM)
    ensures EnterBy(cfg, e, c).dm == PushPc(cfg, Before(cfg, e, c), Home(e, c.pc))
  {
    hide PushPc, SetEnabled;
  }

  lemma EnterFacts(cfg: Config, e: Entry, c: Cpu, sram: nat, base: nat)
    requires Below(cfg, sram) && Room(cfg, c, sram, cfg.PcBytes()) && Sp(cfg, c.dm) <= base < DM_SIZE
    requires e.ByIrq? ==> e.vector < IRQ_NUM
    ensures var d, d', sp := c.dm, EnterBy(cfg, e, c).dm, Sp(cfg, c.dm);
            Keeps(cfg, d, d', sp - cfg.PcBytes(), sp - cfg.PcBytes())
            && Stacked(cfg, d', sp - cfg.PcBytes(), Home(e, c.pc))
            && forall a :: sp < a <= base ==> d'[a] == d[a]
  {
    hide PushPc, EnterBy, Stacked, Sp, Before, Home;
    var d := Before(cfg, e, c);
    EnterPushes(cfg, e, c);
    BeforeKeeps(cfg, e, c, sram);
    PushPcFacts(cfg, d, Home(e, c.pc), sram);
  }

  lemma BeforeKeeps(cfg: Config, e: Entry, c: Cpu, sram: nat)
    requires Below(cfg, sram)
    ensures var d := Before(cfg, e, c);
        Sp(cfg, d) == Sp(cfg, c.dm) && forall a :: sram <= a < DM_SIZE ==> d[a] == c.dm[a]
  {
  }

  lemma ExitFacts(cfg: Config, e: Exit, c: Cpu, pc: nat, sram: nat)
    requires Below(cfg, sram) && Sp(cfg, c.dm) >= sram && CanPop(cfg, c.dm, cfg.PcBytes())
    requires Stacked(cfg, c.dm, Sp(cfg, c.dm), pc)
    ensures var c' := ExitBy(cfg, e, c);
            && c'.pc == pc % cfg.PcLimit() && Sp(cfg, c'.dm) == Sp(cfg, c.dm) + cfg.PcBytes()
            && forall a :: sram <= a < DM_SIZE ==> c'.dm[a] == c.dm[a]
  {
    PopPcFacts(cfg, c.dm, pc, sram);
    hide PopPc, Stacked;
  }

  lemma SaveFacts(cfg: Config, reg: nat, c: Cpu, sram: nat)
    requires Below(cfg, sram) && reg < 32 && Room(cfg, c, sram, 1)
    ensures var d' := Save(cfg, reg, c).dm; var sp := Sp(cfg, c.dm);
            && Sp(cfg, d') == sp - 1 && d'[sp] == c.dm[reg]
            && forall a :: sp < a < DM_SIZE ==> d'[a] == c.dm[a]
  {
    PushFacts(cfg, c.dm, c.dm[reg], sram);
    hide Push, Sp;
  }

  lemma RestoreFacts(cfg: Config, reg: nat, c: Cpu, sram: nat)
    requires Below(cfg, sram) && reg < 32 && CanPop(cfg, c.dm, 1) && Sp(cfg, c.dm) >= sram
    ensures var d' := Restore(cfg, reg, c).dm; var sp := Sp(cfg, c.dm);
            && Sp(cfg, d') == sp + 1 && d'[reg] == c.dm[sp + 1]
            && forall a :: sram <= a < DM_SIZE ==> d'[a] == c.dm[a]
  {
    PopFacts(cfg, c.dm, sram);
    var d := Pop(cfg, c.dm);
    assert Sp(cfg, d[reg := Top(cfg, c.dm)]) == Sp(cfg, d);
    hide Pop, Sp, Top;
  }

  lemma StackedKept(cfg: Config, d: Data, d': Data, sp: nat, pc: nat, base: nat)
    requires cfg.Valid() && sp + cfg.PcBytes() <= base < DM_SIZE
    requires Stacked(cfg, d, sp, pc) && Keeps(cfg, d, d', sp, base)
    ensures Stacked(cfg, d', sp, pc)
  {
    hide Sp;
  }

  // ---------- the theorems ----------

  /** A trace that respects the stack restores the stack pointer and what lies above it. */
  lemma {:induction false} Balanced(cfg: Config, t: Trace, c: Cpu, sram: nat, base: nat)
    requires Below(cfg, sram) && sram <= Sp(cfg, c.dm) <= base < DM_SIZE && Respects(cfg, t, c, sram, base)
    ensures Keeps(cfg, c.dm, Do(cfg, t, c).dm, Sp(cfg, c.dm), base)
    decreases t, 0
  {
    match t
    case End =>
    case Plain(writes, next, rest) =>
      SparedKept(cfg, c.dm, writes, base);
      Balanced(cfg, rest, c.(dm := WriteAll(c.dm, writes), pc := next), sram, base);
    case Saved(reg, body, rest) =>
      var c3 := SavedOnce(cfg, reg, body, rest, c, sram, base);
      Balanced(cfg, rest, c3, sram, base);
    case Frame(entry, body, exit, rest) =>
      var c3 := FrameOnce(cfg, entry, body, exit, rest, c, sram, base);
      Balanced(cfg, rest, c3, sram, base);
  }

  /** A saved register has its value back after the body. */
  lemma {:induction false} SavedOnce(cfg: Config, reg: nat, body: Trace, rest: Trace, c: Cpu, sram: nat, base: nat)
      returns (c3: Cpu)
    requires Below(cfg, sram) && sram <= Sp(cfg, c.dm) <= base < DM_SIZE
    requires Respects(cfg, Saved(reg, body, rest), c, sram, base)
    ensures c3 == Restore(cfg, reg, Do(cfg, body, Save(cfg, reg, c)))
    ensures Keeps(cfg, c.dm, c3.dm, Sp(cfg, c.dm), base) && c3.dm[reg] == c.dm[reg]
    decreases body, 1
  {
    var c1 := Save(cfg, reg, c);
    SaveFacts(cfg, reg, c, sram);
    Balanced(cfg, body, c1, sram, base);
    var c2 := Do(cfg, body, c1);
    RestoreFacts(cfg, reg, c2, sram);
    c3 := Restore(cfg, reg, c2);
    hide Do, Save, Restore, Sp, Respects;
  }

  /** A body that was entered leaves to the address after its own entry. */
  lemma {:induction false} FrameOnce(cfg: Config, entry: Entry, body: Trace, exit: Exit, rest: Trace, c: Cpu,
                                     sram: nat, base: nat)
      returns (c3: Cpu)
    requires Below(cfg, sram) && sram <= Sp(cfg, c.dm) <= base < DM_SIZE
    requires Respects(cfg, Frame(entry, body, exit, rest), c, sram, base)
    ensures c3 == ExitBy(cfg, exit, Do(cfg, body, EnterBy(cfg, entry, c)))
    ensures Keeps(cfg, c.dm, c3.dm, Sp(cfg, c.dm), base) && c3.pc == Home(entry, c.pc) % cfg.PcLimit()
    decreases body, 1
  {
    hide Do, EnterBy, ExitBy, Sp, Stacked, Home;
    var c1 := EnterBy(cfg, entry, c);
    EnterFacts(cfg, entry, c, sram, base);
    Balanced(cfg, body, c1, sram, base);
    var c2 := Do(cfg, body, c1);
    StackedKept(cfg, c1.dm, c2.dm, Sp(cfg, c1.dm), Home(entry, c.pc), base);
    ExitFacts(cfg, exit, c2, Home(entry, c.pc), sram);
    c3 := ExitBy(cfg, exit, c2);
  }

  /** Every frame of a trace, at any depth, leaves to where it was entered from; every saved register is restored. */
  ghost predicate AllHome(cfg: Config, t: Trace, c: Cpu)
    requires cfg.Valid()
  {
    match t
    case End => true
    case Plain(writes, next, rest) => AllHome(cfg, rest, c.(dm := WriteAll(c.dm, writes), pc := next))
    case Saved(reg, body, rest) =>
      var c1 := Save(cfg, reg, c);
      var c3 := Restore(cfg, reg, Do(cfg, body, c1));
      reg < 32 && c3.dm[reg] == c.dm[reg] && AllHome(cfg, body, c1) && AllHome(cfg, rest, c3)
    case Frame(entry, body, exit, rest) =>
      var c1 := EnterBy(cfg, entry, c);
      var c3 := ExitBy(cfg, exit, Do(cfg, body, c1));
      c3.pc == Home(entry, c.pc) % cfg.PcLimit() && AllHome(cfg, body, c1) && AllHome(cfg, rest, c3)
  }

  lemma {:induction false} EveryExitGoesHome(cfg: Config, t: Trace, c: Cpu, sram: nat, base: nat)
    requires Below(cfg, sram) && sram <= Sp(cfg, c.dm) <= base < DM_SIZE && Respects(cfg, t, c, sram, base)
    ensures AllHome(cfg, t, c)
    decreases t
  {
    match t
    case End =>
    case Plain(writes, next, rest) =>
      SparedKept(cfg, c.dm, writes, base);
      EveryExitGoesHome(cfg, rest, c.(dm := WriteAll(c.dm, writes), pc := next), sram, base);
    case Saved(reg, body, rest) =>
      SaveFacts(cfg, reg, c, sram);
      EveryExitGoesHome(cfg, body, Save(cfg, reg, c), sram, base);
      var c3 := SavedOnce(cfg, reg, body, rest, c, sram, base);
      EveryExitGoesHome(cfg, rest, c3, sram, base);
    case Frame(entry, body, exit, rest) =>
      EnterFacts(cfg, entry, c, sram, base);
      EveryExitGoesHome(cfg, body, EnterBy(cfg, entry, c), sram, base);
      var c3 := FrameOnce(cfg, entry, body, exit, rest, c, sram, base);
      EveryExitGoesHome(cfg, rest, c3, sram, base);
  }

  /** A call inside an interrupt respects the stack exactly when there is room for two return addresses. */
  lemma CallInInterrupt(cfg: Config, c: Cpu, v: nat, target: nat, sram: nat, base: nat)
    requires Below(cfg, sram) && sram <= Sp(cfg, c.dm) <= base < DM_SIZE && v < IRQ_NUM
    ensures var t := Frame(ByIrq(v), Frame(ByCall(target), End, ByRet, End), ByReti, End);
            Respects(cfg, t, c, sram, base) <==> Room(cfg, c, sram, 2 * cfg.PcBytes())
  {
    hide EnterBy, ExitBy, Do, Sp, Stacked;
    if Room(cfg, c, sram, cfg.PcBytes()) {
      EnterFacts(cfg, ByIrq(v), c, sram, base);
      var c1 := EnterBy(cfg, ByIrq(v), c);
      assert Respects(cfg, Frame(ByCall(target), End, ByRet, End), c1, sram, base)
        <==> Room(cfg, c1, sram, cfg.PcBytes());
    }
  }
}
