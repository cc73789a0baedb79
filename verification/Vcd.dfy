/**
  The value change dump (src/avr/avr_vcd.c): a log of the values of tracked registers,
  written frame by frame, and what a reader makes of it.
 */
module Vcd {
  import opened Basics

  const REGS: nat := 512

  function BitChar(v: nat, n: nat): char {
    if Bit(v, n) == 1 then '1' else '0'
  }

  /** The lowest n bits of v, highest first. */
  function Bits(v: nat, n: nat): (s: string)
    ensures |s| == n
  {
    if n == 0 then "" else [BitChar(v, n - 1)] + Bits(v, n - 1)
  }

  // ---------- registers and lines ----------

  /** A tracked register, the two halves of one, or a bit of one; `i` below 0 ends the table. */
  datatype Reg = Reg(i: int, lowi: int, n: int, oldVal: nat, name: string)
  {
    /** The identifier of the variable in the dump. */
    function Id(): string {
      if lowi < 0 && 0 <= n < 10 then name + ['0' + n as char] else name
    }

    predicate Fits(mem: seq<byte>) {
      i < |mem| && lowi < |mem| && n < 8
    }

    /** Only an 8-bit register is tracked by its bits. */
    predicate Plain() {
      lowi >= 0 ==> n < 0
    }

    function Now(mem: seq<byte>): nat
      requires 0 <= i && Fits(mem)
    {
      var high: int := mem[i];
      var low: int := if lowi >= 0 then mem[lowi] else 0;
      if lowi >= 0 then 256 * high + low else high
    }

    predicate Changed(v: nat) {
      if n < 0 then v != oldVal else Bit(v, n) != Bit(oldVal, n)
    }

    /** The value as it is printed. */
    function Printed(v: nat): string {
      if lowi >= 0 then Bits(v % 0x1_0000, 16)
      else if n < 0 then Bits(v % 256, 8)
      else [BitChar(v % 256, n)]
    }

    predicate InRange() {
      oldVal < if lowi >= 0 then 0x1_0000 else 256
    }
  }

  datatype Line = Stamp(tick: nat) | Value(bits: string, id: string)

  /** The registers before the end of the table. */
  function Tracked(regs: seq<Reg>): (t: seq<Reg>)
    ensures t <= regs && (forall k :: 0 <= k < |t| ==> t[k].i >= 0) && (|t| < |regs| ==> regs[|t|].i < 0)
  {
    if regs == [] || regs[0].i < 0 then [] else [regs[0]] + Tracked(regs[1..])
  }

  /** All tracked registers lie in memory. */
  predicate AllFit(regs: seq<Reg>, mem: seq<byte>) {
    forall k :: 0 <= k < |Tracked(regs)| ==> regs[k].Fits(mem)
  }

  // ---------- a frame as a function ----------

  ghost predicate AnyChanged(regs: seq<Reg>, mem: seq<byte>)
    requires AllFit(regs, mem)
  {
    exists k :: 0 <= k < |Tracked(regs)| && regs[k].Changed(regs[k].Now(mem))
  }

  /** The line of a register whose value differs from the one it had. */
  function LineOf(r: Reg, mem: seq<byte>): seq<Line>
    requires 0 <= r.i && r.Fits(mem)
  {
    if r.Now(mem) == r.oldVal then [] else [Value(r.Printed(r.Now(mem)), r.Id())]
  }

  /** The lines of the first k registers. */
  function Lines(regs: seq<Reg>, mem: seq<byte>, k: nat): seq<Line>
    requires AllFit(regs, mem) && k <= |Tracked(regs)|
  {
    if k == 0 then [] else Lines(regs, mem, k - 1) + LineOf(regs[k - 1], mem)
  }

  /** The table after a frame: every tracked register has its current value. */
  function Updated(regs: seq<Reg>, mem: seq<byte>): (u: seq<Reg>)
    requires AllFit(regs, mem)
    ensures |u| == |regs|
  {
    seq(|regs|, k requires 0 <= k < |regs| =>
      if k < |Tracked(regs)| then regs[k].(oldVal := regs[k].Now(mem)) else regs[k])
  }

  /** The initial values of the first k registers. */
  function InitialLines(regs: seq<Reg>, mem: seq<byte>, k: nat): seq<Line>
    requires AllFit(regs, mem) && k <= |Tracked(regs)|
  {
    if k == 0 then []
    else InitialLines(regs, mem, k - 1) + [Value(regs[k - 1].Printed(regs[k - 1].Now(mem)), regs[k - 1].Id())]
  }

  datatype Dump = Dump(regs: seq<Reg>, log: seq<Line>)

  ghost function Frame(d: Dump, mem: seq<byte>, tick: nat): Dump
    requires AllFit(d.regs, mem)
  {
    if !AnyChanged(d.regs, mem) then d
    else Dump(Updated(d.regs, mem), d.log + [Stamp(tick)] + Lines(d.regs, mem, |Tracked(d.regs)|))
  }

  // ---------- the program ----------

  class Recorder {
    const regs: array<Reg>
    var log: seq<Line>

    constructor (table: seq<Reg>)
      requires |table| == REGS
      ensures fresh(regs) && Valid() && State() == Dump(table, [])
    {
      regs := new Reg[REGS](k requires 0 <= k < |table| => table[k]);
      log := [];
      new;
      assert regs[..] == table;
    }

    ghost predicate Valid() {
      regs.Length == REGS
    }

    ghost function State(): Dump
      reads this, regs
    {
      Dump(regs[..], log)
    }

    /** `print_reg16` and `print_reg`: the loop over the bits of a value. */
    method PrintBits(v: nat, rbits: nat) returns (buf: string)
      ensures buf == Bits(v, rbits)
    {
      buf := "";
      var i := 0;
      while i < rbits
        invariant 0 <= i <= rbits && Bits(v, rbits) == buf + Bits(v, rbits - i)
      {
        buf := buf + [if v / Pow2(rbits - 1 - i) % 2 == 1 then '1' else '0'];
        i := i + 1;
      }
    }

    /** The current value of a register. */
    method ReadReg(r: Reg, mem: seq<byte>) returns (v: nat)
      requires 0 <= r.i && r.Fits(mem)
      ensures v == r.Now(mem) && v < 0x1_0000
    {
      v := mem[r.i];
      if r.lowi >= 0 {
        var rh: int, rl: int := mem[r.i], mem[r.lowi];
        v := 256 * rh + rl;
      }
    }

    method PrintValue(r: Reg, v: nat) returns (line: Line)
      requires v < 0x1_0000
      ensures line == Value(r.Printed(v), r.Id())
    {
      hide Bits, BitChar;
      if r.lowi >= 0 {
        var buf := PrintBits(v, 16);
        line := Value(buf, r.name);
      } else if r.n < 0 {
        var buf := PrintBits(v % 256, 8);
        line := Value(buf, r.name);
      } else {
        line := Value([BitChar(v % 256, r.n)], r.Id());
      }
    }

    /** The first loop of `MSIM_AVR_VCDDumpFrame`: is there a register to report? */
    method FindChange(mem: seq<byte>) returns (changed: bool)
      requires Valid() && AllFit(regs[..], mem)
      ensures changed <==> AnyChanged(regs[..], mem)
    {
      hide Bit, Reg.Now, Tracked;
      var i := 0;
      while i < REGS
        invariant 0 <= i <= |Tracked(regs[..])|
        invariant forall k :: 0 <= k < i ==> !regs[k].Changed(regs[k].Now(mem))
      {
        if regs[i].i < 0 {
          break;
        }
        var v := ReadReg(regs[i], mem);
        var n := regs[i].n;
        if n < 0 && v != regs[i].oldVal {
          return true;
        }
        if n >= 0 && Bit(v, n) != Bit(regs[i].oldVal, n) {
          return true;
        }
        i := i + 1;
      }
      return false;
    }

    /** The second loop: the lines of the registers that changed. */
    method PrintChanges(mem: seq<byte>)
      requires Valid() && AllFit(regs[..], mem)
      modifies `log
      ensures log == old(log) + Lines(regs[..], mem, |Tracked(regs[..])|)
    {
      hide Reg.Now, Reg.Printed, Reg.Id, Tracked;
      var i := 0;
      while i < REGS
        invariant 0 <= i <= |Tracked(regs[..])| && log == old(log) + Lines(regs[..], mem, i)
      {
        if regs[i].i < 0 {
          break;
        }
        var v := ReadReg(regs[i], mem);
        if v != regs[i].oldVal {
          var line := PrintValue(regs[i], v);
          log := log + [line];
        }
        i := i + 1;
      }
    }

    /** The third loop: the values are kept for the next frame. */
    method KeepValues(mem: seq<byte>)
      requires Valid() && AllFit(regs[..], mem)
      modifies regs
      ensures regs[..] == Updated(old(regs[..]), mem)
    {
      hide Reg.Now, Tracked;
      ghost var table := regs[..];
      var i := 0;
      while i < REGS
        invariant 0 <= i <= |Tracked(table)|
        invariant forall k :: 0 <= k < REGS ==>
          regs[k] == if k < i then table[k].(oldVal := table[k].Now(mem)) else table[k]
      {
        if regs[i].i < 0 {
          break;
        }
        var v := ReadReg(regs[i], mem);
        if v != regs[i].oldVal {
          regs[i] := regs[i].(oldVal := v);
        }
        i := i + 1;
      }
    }

    /** The initial values that `MSIM_AVR_VCDOpen` writes; the old values are left as they are. */
    method DumpInitial(mem: seq<byte>)
      requires Valid() && AllFit(regs[..], mem)
      modifies `log
      ensures log == old(log) + InitialLines(regs[..], mem, |Tracked(regs[..])|)
    {
      hide Reg.Now, Reg.Printed, Reg.Id, Tracked;
      var i := 0;
      while i < REGS
        invariant 0 <= i <= |Tracked(regs[..])| && log == old(log) + InitialLines(regs[..], mem, i)
      {
        if regs[i].i < 0 {
          break;
        }
        var v := ReadReg(regs[i], mem);
        var line := PrintValue(regs[i], v);
        log := log + [line];
        i := i + 1;
      }
    }

    /** `MSIM_AVR_VCDDumpFrame` */
    method DumpFrame(mem: seq<byte>, tick: nat)
      requires Valid() && AllFit(regs[..], mem)
      modifies this, regs
      ensures State() == Frame(old(State()), mem, tick)
    {
      hide Lines, Updated, AnyChanged, Tracked, AllFit;
      var changed := FindChange(mem);
      if !changed {
        return;
      }
      log := log + [Stamp(tick)];
      PrintChanges(mem);
      KeepValues(mem);
    }
  }
}
