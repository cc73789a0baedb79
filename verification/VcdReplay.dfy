/**
  What a reader of a value change dump sees: replaying the log gives every tracked
  variable its current value.
 */
module VcdReplay {
  import opened Arithmetic
  import opened Basics
  import opened Vcd

  // ---------- binary numbers ----------

  /** The number that binary digits stand for. */
  function Binary(s: string): nat {
    if s == "" then 0 else (if s[0] == '1' then Pow2(|s| - 1) else 0) + Binary(s[1..])
  }

  lemma Halves(p: int, h: int, b: int)
    ensures p * (2 * h + b) == 2 * p * h + p * b
  {
    MulDistributes(p, 2 * h, b);
    MulAssociates(p, 2, h);
  }

  lemma ModDouble(v: nat, p: nat)
    requires p > 0
    ensures v % (2 * p) == v / p % 2 * p + v % p
  {
    var q, r := DivMod(v, p);
    var h, b := DivMod(q, 2);
    Halves(p, h, b);
    var w := p * b;
    assert w == b * p && 0 <= w <= p;
    DivModUnique(v, 2 * p, h, w + r);
  }

  /** Printed bits read back as the number they were printed from. */
  lemma {:induction false} BitsRead(v: nat, n: nat)
    ensures Binary(Bits(v, n)) == v % Pow2(n)
    decreases n
  {
    if n > 0 {
      BitsRead(v, n - 1);
      ModDouble(v, Pow2(n - 1));
      var s := Bits(v, n);
      assert s[1..] == Bits(v, n - 1);
      var b := Bit(v, n - 1);
      assert b * Pow2(n - 1) == if b == 1 then Pow2(n - 1) else 0;
      hide Bits;
    }
  }

  // ---------- what is printed ----------

  lemma {:induction false} BitsJoined(high: nat, low: byte, n: nat)
    requires 8 <= n
    ensures Bits(256 * high + low, n) == Bits(high, n - 8) + Bits(low, 8)
    decreases n
  {
    hide Bits, Bit;
    var v := 256 * high + low;
    if n == 8 {
      LowBits(high, low, 8);
      BitsNext(high, 1);
    } else {
      BitsJoined(high, low, n - 1);
      HighBit(high, low, n - 9);
      BitsNext(v, n);
      BitsNext(high, n - 8);
      Associates([BitChar(high, n - 9)], Bits(high, n - 9), Bits(low, 8));
    }
  }

  lemma BitsNext(v: nat, n: nat)
    requires n > 0
    ensures Bits(v, n) == [BitChar(v, n - 1)] + Bits(v, n - 1) && Bits(v, 0) == ""
  {
  }

  /** The bits above the lowest eight are those of the high part. */
  lemma HighBit(high: nat, low: byte, k: nat)
    ensures Bit(256 * high + low, k + 8) == Bit(high, k)
  {
    var p := Pow2(k);
    Pow2Eight(k);
    var q, r := DivMod(high, p);
    MulAssociates(256, p, q);
    MulDistributes(256, p * q, r);
    assert 256 * high + low == (256 * p) * q + (256 * r + low);
    DivModUnique(256 * high + low, 256 * p, q, 256 * r + low);
  }

  lemma Pow2Eight(k: nat)
    ensures Pow2(k + 8) == 256 * Pow2(k)
  {
    assert Pow2(k + 8) == 2 * Pow2(k + 7) == 4 * Pow2(k + 6) == 8 * Pow2(k + 5) == 16 * Pow2(k + 4);
    assert Pow2(k + 4) == 2 * Pow2(k + 3) == 4 * Pow2(k + 2) == 8 * Pow2(k + 1) == 16 * Pow2(k);
  }

  lemma {:induction false} LowBits(high: nat, low: byte, n: nat)
    requires n <= 8
    ensures Bits(256 * high + low, n) == Bits(low, n)
    decreases n
  {
    if n > 0 {
      LowBits(high, low, n - 1);
      LowBitOf(high, low, n - 1);
      hide Bit;
    }
  }

  lemma LowBitOf(high: nat, low: byte, k: nat)
    requires k < 8
    ensures Bit(256 * high + low, k) == Bit(low, k)
  {
    var p := Pow2(k);
    var d := Pow2(7 - k);
    assert Pow2(0) == 1 && Pow2(1) == 2 && Pow2(2) == 4 && Pow2(3) == 8 && Pow2(4) == 16;
    assert Pow2(5) == 32 && Pow2(6) == 64 && Pow2(7) == 128;
    assert 256 == p * (2 * d);
    var q, r := DivMod(low, p);
    MulAssociates(p, 2 * d, high);
    MulDistributes(p, 2 * d * high, q);
    DivModUnique(256 * high + low, p, 2 * d * high + q, r);
    MulAssociates(2, d, high);
    EvenAdded(d * high, q);
  }

  lemma EvenAdded(m: int, q: int)
    ensures (2 * m + q) % 2 == q % 2
  {
  }

  /**
    The printed text is that of memory: a byte's eight bits, the bits of the high register of a
    pair and then those of the low one, or the one bit of a byte that is tracked.
   */
  lemma PrintedIs(r: Reg, mem: seq<byte>)
    requires 0 <= r.i && r.Fits(mem) && r.Plain()
    ensures r.Printed(r.Now(mem)) ==
      if r.lowi >= 0 then Bits(mem[r.i], 8) + Bits(mem[r.lowi], 8)
      else if r.n < 0 then Bits(mem[r.i], 8) else [if mem[r.i] / Pow2(r.n) % 2 == 1 then '1' else '0']
  {
    hide Bits, Bit, Pow2;
    if r.lowi >= 0 {
      BitsJoined(mem[r.i], mem[r.lowi], 16);
    } else if r.n >= 0 {
      BitOf(mem[r.i], r.n);
    }
  }

  lemma BitOf(v: byte, n: nat)
    ensures BitChar(v % 256, n) == if v / Pow2(n) % 2 == 1 then '1' else '0'
  {
  }

  /** Bits of one register are variables of their own. */
  lemma BitIds(r: Reg, t: Reg)
    requires r.name == t.name && r.lowi < 0 && t.lowi < 0 && 0 <= r.n < 8 && t.n < 8 && r.n != t.n
    ensures r.Id() != t.Id()
  {
    assert r.Id()[|r.name|] == '0' + r.n as char;
  }

  // ---------- replaying ----------

  /** The last value of a variable in a log. */
  function Replay(log: seq<Line>, id: string): Option<string>
    decreases |log|
  {
    if log == [] then None
    else
      var last := log[|log| - 1];
      if last.Value? && last.id == id then Some(last.bits) else Replay(log[..|log| - 1], id)
  }

  lemma ReplayLast(log: seq<Line>, line: Line, id: string)
    ensures Replay(log + [line], id) == if line.Value? && line.id == id then Some(line.bits) else Replay(log, id)
  {
    assert (log + [line])[..|log|] == log;
  }

  /** A table as the configuration makes it: distinct variables, halves without a bit, old values in range. */
  predicate Sane(regs: seq<Reg>) {
    && (forall k :: 0 <= k < |Tracked(regs)| ==> regs[k].Plain() && regs[k].InRange())
    && forall j, k :: 0 <= j < k < |Tracked(regs)| ==> regs[j].Id() != regs[k].Id()
  }

  /** What the lines of a frame do to a variable. */
  lemma {:induction false} LinesReplay(regs: seq<Reg>, mem: seq<byte>, log: seq<Line>, m: nat, k: nat)
    requires Sane(regs) && AllFit(regs, mem) && k < |Tracked(regs)| && m <= |Tracked(regs)|
    ensures var r := regs[k];
            Replay(log + Lines(regs, mem, m), r.Id()) ==
              if k < m && r.Now(mem) != r.oldVal then Some(r.Printed(r.Now(mem))) else Replay(log, r.Id())
    decreases m
  {
    hide Reg.Id, Reg.Printed, Reg.Now, Reg.Plain, Reg.InRange, Replay, Tracked;
    if m == 0 {
      assert log + Lines(regs, mem, m) == log;
    } else {
      LinesReplay(regs, mem, log, m - 1, k);
      var before := log + Lines(regs, mem, m - 1);
      var line := LineOf(regs[m - 1], mem);
      assert log + Lines(regs, mem, m) == before + line;
      if line == [] {
        assert before + line == before;
      } else {
        ReplayLast(before, line[0], regs[k].Id());
      }
      if m - 1 != k {
        assert regs[m - 1].Id() != regs[k].Id();
      }
    }
  }

  // ---------- one frame ----------

  /** The log gives register k the value v. */
  predicate Shows(d: Dump, k: nat, v: nat)
    requires k < |d.regs|
  {
    Replay(d.log, d.regs[k].Id()) == Some(d.regs[k].Printed(v))
  }

  /** The last printed value of every tracked variable agrees with the value kept for it. */
  predicate Agrees(d: Dump) {
    forall k :: 0 <= k < |Tracked(d.regs)| ==> Shows(d, k, d.regs[k].oldVal)
  }

  /** The log gives every tracked variable its value in memory. */
  predicate Current(d: Dump, mem: seq<byte>)
    requires AllFit(d.regs, mem)
  {
    forall k :: 0 <= k < |Tracked(d.regs)| ==> Shows(d, k, d.regs[k].Now(mem))
  }

  /** A frame keeps the table but for the old values. */
  lemma FrameTable(d: Dump, mem: seq<byte>, tick: nat)
    requires AllFit(d.regs, mem)
    ensures var d' := Frame(d, mem, tick);
            && |Tracked(d'.regs)| == |Tracked(d.regs)| && |d'.regs| == |d.regs|
            && (forall k :: 0 <= k < |Tracked(d.regs)| ==>
                  d'.regs[k] == d.regs[k].(oldVal :=
                      if AnyChanged(d.regs, mem) then d.regs[k].Now(mem) else d.regs[k].oldVal))
            && AllFit(d'.regs, mem)
  {
    hide AnyChanged, Lines, Tracked;
    TrackedLength(d.regs, Updated(d.regs, mem));
  }

  lemma {:induction false} TrackedLength(r: seq<Reg>, u: seq<Reg>)
    requires |r| == |u| && forall k :: 0 <= k < |r| ==> u[k].i == r[k].i
    ensures |Tracked(u)| == |Tracked(r)|
    decreases |r|
  {
    if r != [] && r[0].i >= 0 {
      TrackedLength(r[1..], u[1..]);
    }
  }

  /** What a frame does to the log's value of a variable. */
  lemma FrameReplay(d: Dump, mem: seq<byte>, tick: nat, k: nat)
    requires Sane(d.regs) && AllFit(d.regs, mem) && k < |Tracked(d.regs)|
    ensures var r := d.regs[k];
            Replay(Frame(d, mem, tick).log, r.Id()) ==
              if AnyChanged(d.regs, mem) && r.Now(mem) != r.oldVal
                then Some(r.Printed(r.Now(mem))) else Replay(d.log, r.Id())
  {
    LinesReplay(d.regs, mem, d.log + [Stamp(tick)], |Tracked(d.regs)|, k);
    ReplayLast(d.log, Stamp(tick), d.regs[k].Id());
    hide Lines, Reg.Now, Reg.Printed, Reg.Id, AnyChanged, Tracked, Sane, AllFit, Replay;
  }

  /**
    Exactly when the log is right about a variable after a frame: the frame printed it,
    or what was printed last is its value.
   */
  lemma FrameExact(d: Dump, mem: seq<byte>, tick: nat, k: nat)
    requires Sane(d.regs) && AllFit(d.regs, mem) && k < |Tracked(d.regs)|
    ensures var r := d.regs[k];
            (Replay(Frame(d, mem, tick).log, r.Id()) == Some(r.Printed(r.Now(mem)))) <==>
            ((AnyChanged(d.regs, mem) && r.Now(mem) != r.oldVal) || Shows(d, k, r.Now(mem)))
  {
    FrameReplay(d, mem, tick, k);
    hide Frame, Reg.Now, Reg.Printed, Reg.Id, AnyChanged, Tracked, Sane, AllFit, Replay;
  }

  lemma LowBit(v: nat, n: nat)
    requires v < 256
    ensures BitChar(v % 256, n) == BitChar(v, n)
  {
  }

  lemma NowInRange(r: Reg, mem: seq<byte>)
    requires 0 <= r.i && r.Fits(mem)
    ensures r.Now(mem) < if r.lowi >= 0 then 0x1_0000 else 256
  {
  }

  lemma {:induction false} SameNumber(n: nat, v: nat, w: nat)
    requires v < Pow2(n) && w < Pow2(n) && Bits(v, n) == Bits(w, n)
    ensures v == w
  {
    BitsRead(v, n);
    BitsRead(w, n);
    DivModUnique(v, Pow2(n), 0, v);
    DivModUnique(w, Pow2(n), 0, w);
  }

  /** Numbers below 2^n are equal exactly when they are printed alike. */
  lemma SameBits(n: nat, p: nat, v: nat, w: nat)
    requires v < p && w < p && ((n == 8 && p == 256) || (n == 16 && p == 0x1_0000))
    ensures Bits(v, n) == Bits(w, n) <==> v == w
  {
    assert Pow2(8) == 256 && Pow2(16) == 0x1_0000;
    hide Bits;
    if Bits(v, n) == Bits(w, n) {
      SameNumber(n, v, w);
    }
  }

  /** A register counts as changed exactly when its printed value changes. */
  lemma ChangedIff(r: Reg, v: nat)
    requires r.Plain() && r.InRange() && v < if r.lowi >= 0 then 0x1_0000 else 256
    ensures r.Changed(v) <==> r.Printed(v) != r.Printed(r.oldVal)
  {
    hide Pow2, Bits;
    if r.lowi >= 0 {
      SameBits(16, 0x1_0000, v, r.oldVal);
    } else if r.n < 0 {
      SameBits(8, 256, v, r.oldVal);
    } else {
      LowBit(v, r.n);
      LowBit(r.oldVal, r.n);
    }
  }

  /**
    Once the log agrees with the kept values, every frame leaves it with the current
    value of every tracked variable, and in agreement again.
   */
  lemma FrameReplays(d: Dump, mem: seq<byte>, tick: nat)
    requires Sane(d.regs) && AllFit(d.regs, mem) && Agrees(d)
    ensures var d' := Frame(d, mem, tick);
            Sane(d'.regs) && AllFit(d'.regs, mem) && Current(d', mem) && Agrees(d')
  {
    var d' := Frame(d, mem, tick);
    FrameTable(d, mem, tick);
    SaneKept(d, mem, tick);
    forall k | 0 <= k < |Tracked(d.regs)|
      ensures Shows(d', k, d'.regs[k].Now(mem)) && Shows(d', k, d'.regs[k].oldVal)
    {
      RegisterReplays(d, mem, tick, k);
    }
  }

  lemma SaneKept(d: Dump, mem: seq<byte>, tick: nat)
    requires Sane(d.regs) && AllFit(d.regs, mem)
    ensures Sane(Frame(d, mem, tick).regs)
  {
    hide Frame, AnyChanged, Tracked, Reg.Now;
    FrameTable(d, mem, tick);
    var u := Frame(d, mem, tick).regs;
    forall k | 0 <= k < |Tracked(u)|
      ensures u[k].Plain() && u[k].InRange() && u[k].Id() == d.regs[k].Id()
    {
      NowInRange(d.regs[k], mem);
    }
  }

  lemma RegisterReplays(d: Dump, mem: seq<byte>, tick: nat, k: nat)
    requires Sane(d.regs) && AllFit(d.regs, mem) && k < |Tracked(d.regs)| && Shows(d, k, d.regs[k].oldVal)
    ensures var d' := Frame(d, mem, tick);
            && k < |d'.regs| && 0 <= d'.regs[k].i && d'.regs[k].Fits(mem)
            && Shows(d', k, d'.regs[k].Now(mem)) && Shows(d', k, d'.regs[k].oldVal)
  {
    hide Frame, Tracked, Replay;
    var d', r := Frame(d, mem, tick), d.regs[k];
    FrameTable(d, mem, tick);
    FrameReplay(d, mem, tick, k);
    NowInRange(r, mem);
    ChangedIff(r, r.Now(mem));
    assert d'.regs[k].Id() == r.Id() && d'.regs[k].Now(mem) == r.Now(mem);
    assert d'.regs[k].Printed(r.Now(mem)) == r.Printed(r.Now(mem));
    assert d'.regs[k].Printed(r.oldVal) == r.Printed(r.oldVal);
    hide Reg.Now, Reg.Printed, Reg.Id, Sane;
  }

  /** A frame writes a time stamp exactly when the printed value of a tracked variable changes. */
  lemma StampIff(d: Dump, mem: seq<byte>, tick: nat)
    requires Sane(d.regs) && AllFit(d.regs, mem)
    ensures var d' := Frame(d, mem, tick);
            var changes := exists k :: 0 <= k < |Tracked(d.regs)|
                                    && d.regs[k].Printed(d.regs[k].Now(mem)) != d.regs[k].Printed(d.regs[k].oldVal);
            if changes then |d'.log| > |d.log| && d'.log[..|d.log|] == d.log && d'.log[|d.log|] == Stamp(tick)
            else d'.log == d.log
  {
    forall k | 0 <= k < |Tracked(d.regs)|
      ensures d.regs[k].Changed(d.regs[k].Now(mem)) <==>
              d.regs[k].Printed(d.regs[k].Now(mem)) != d.regs[k].Printed(d.regs[k].oldVal)
    {
      NowInRange(d.regs[k], mem);
      ChangedIff(d.regs[k], d.regs[k].Now(mem));
    }
    hide Reg.Changed, Reg.Printed, Reg.Now, Lines, Tracked, Sane;
  }

  /** With a log that agrees, a time stamp is written exactly when the log is out of date. */
  lemma StampWhenStale(d: Dump, mem: seq<byte>, tick: nat)
    requires Sane(d.regs) && AllFit(d.regs, mem) && Agrees(d)
    ensures |Frame(d, mem, tick).log| > |d.log| <==> !Current(d, mem)
  {
    StampIff(d, mem, tick);
    hide Frame, Reg.Printed, Reg.Now, Tracked, Sane, Replay;
  }

  // ---------- runs ----------

  /** Memory at a frame, and its time. */
  datatype Sample = Sample(mem: seq<byte>, tick: nat)

  predicate SamplesFit(regs: seq<Reg>, samples: seq<Sample>) {
    forall k :: 0 <= k < |samples| ==> AllFit(regs, samples[k].mem)
  }

  lemma FitKept(d: Dump, mem: seq<byte>, tick: nat, samples: seq<Sample>)
    requires AllFit(d.regs, mem) && SamplesFit(d.regs, samples)
    ensures SamplesFit(Frame(d, mem, tick).regs, samples)
  {
    hide Frame, AnyChanged, Tracked;
    FrameTable(d, mem, tick);
    var u := Frame(d, mem, tick).regs;
    forall k | 0 <= k < |samples|
      ensures AllFit(u, samples[k].mem)
    {
      assert AllFit(d.regs, samples[k].mem);
    }
  }

  /** The dump after some frames. */
  ghost function Run(d: Dump, samples: seq<Sample>): Dump
    requires SamplesFit(d.regs, samples)
    decreases |samples|
  {
    if samples == [] then d
    else
      FitKept(d, samples[0].mem, samples[0].tick, samples[1..]);
      Run(Frame(d, samples[0].mem, samples[0].tick), samples[1..])
  }

  /** After any number of frames, replaying the log gives every tracked variable its current value. */
  lemma {:induction false} RunReplays(d: Dump, samples: seq<Sample>)
    requires Sane(d.regs) && Agrees(d) && SamplesFit(d.regs, samples) && samples != []
    ensures var e := Run(d, samples); var mem := samples[|samples| - 1].mem;
            Sane(e.regs) && Agrees(e) && AllFit(e.regs, mem) && Current(e, mem)
    decreases |samples|
  {
    var s := samples[0];
    FrameReplays(d, s.mem, s.tick);
    FitKept(d, s.mem, s.tick, samples[1..]);
    hide Frame, Sane, Agrees, Current, AllFit;
    if |samples| > 1 {
      RunReplays(Frame(d, s.mem, s.tick), samples[1..]);
    }
  }

  // ---------- opening ----------

  /** A dump just opened: the initial values are printed, but not kept. */
  function Opened(regs: seq<Reg>, mem: seq<byte>): Dump
    requires AllFit(regs, mem)
  {
    Dump(regs, InitialLines(regs, mem, |Tracked(regs)|))
  }

  lemma {:induction false} InitialReplay(regs: seq<Reg>, mem: seq<byte>, m: nat, k: nat)
    requires Sane(regs) && AllFit(regs, mem) && k < |Tracked(regs)| && m <= |Tracked(regs)|
    ensures Replay(InitialLines(regs, mem, m), regs[k].Id()) ==
      if k < m then Some(regs[k].Printed(regs[k].Now(mem))) else None
    decreases m
  {
    hide Reg.Id, Reg.Printed, Reg.Now, Reg.Plain, Reg.InRange, Tracked;
    if m > 0 {
      InitialReplay(regs, mem, m - 1, k);
      var r := regs[m - 1];
      assert m - 1 != k ==> r.Id() != regs[k].Id();
      ReplayLast(InitialLines(regs, mem, m - 1), Value(r.Printed(r.Now(mem)), r.Id()), regs[k].Id());
      hide Replay, Sane, AllFit;
    }
  }

  /**
    The first frame after opening is right about a variable exactly when it prints it,
    or the variable still prints as it did on opening.
   */
  lemma FirstFrameExact(regs: seq<Reg>, mem0: seq<byte>, mem: seq<byte>, tick: nat, k: nat)
    requires Sane(regs) && AllFit(regs, mem0) && AllFit(regs, mem) && k < |Tracked(regs)|
    ensures var r := regs[k];
            (Replay(Frame(Opened(regs, mem0), mem, tick).log, r.Id()) == Some(r.Printed(r.Now(mem)))) <==>
            ((AnyChanged(regs, mem) && r.Now(mem) != r.oldVal) || r.Printed(r.Now(mem0)) == r.Printed(r.Now(mem)))
  {
    FrameExact(Opened(regs, mem0), mem, tick, k);
    InitialReplay(regs, mem0, |Tracked(regs)|, k);
    hide Frame, Reg.Printed, Reg.Now, Reg.Id, Tracked, Sane, Replay, AnyChanged, InitialLines;
  }

  /** What a register kept last plays no part in what it holds and how that is printed. */
  lemma KeptPrints(r: Reg, w: nat, mem: seq<byte>)
    requires 0 <= r.i && r.Fits(mem)
    ensures var r' := r.(oldVal := w); r'.Now(mem) == r.Now(mem) && forall v :: r'.Printed(v) == r.Printed(v)
  {
  }

  /** A frame that leaves the log right about everything leaves it in agreement, so that it stays right. */
  lemma RightThenAgrees(d: Dump, mem: seq<byte>, tick: nat)
    requires Sane(d.regs) && AllFit(d.regs, mem)
    requires AllFit(Frame(d, mem, tick).regs, mem) && Current(Frame(d, mem, tick), mem)
    ensures Agrees(Frame(d, mem, tick))
  {
    hide Reg.Printed, Reg.Now, Reg.Id, Reg.Changed, Replay;
    var d' := Frame(d, mem, tick);
    FrameTable(d, mem, tick);
    forall k | 0 <= k < |Tracked(d.regs)|
      ensures Shows(d', k, d'.regs[k].oldVal)
    {
      var r := d.regs[k];
      NowInRange(r, mem);
      ChangedIff(r, r.Now(mem));
      KeptPrints(r, d'.regs[k].oldVal, mem);
      assert Shows(d', k, d'.regs[k].Now(mem));
    }
  }

  /**
    A variable that is 5 on opening and 0, the value its record starts with, from then on:
    the log says 5 for good.
   */
  lemma FirstFrameMisses(tick: nat)
    ensures var regs := [Reg(0, -1, -1, 0, "R")];
            && Sane(regs) && AllFit(regs, [5]) && AllFit(regs, [0])
            && Frame(Opened(regs, [5]), [0], tick) == Opened(regs, [5])
            && Replay(Opened(regs, [5]).log, "R") == Some(Bits(5, 8)) && Bits(5, 8) != Bits(0, 8)
  {
    var r := Reg(0, -1, -1, 0, "R");
    var regs := [r];
    assert Tracked(regs) == regs by { assert regs[1..] == []; }
    assert r.Now([0]) == 0 && r.Now([5]) == 5 && r.Id() == "R" && r.Printed(5) == Bits(5, 8);
    FiveIsNotZero();
    hide Bits, Binary, Tracked, Reg.Now, Reg.Printed, Reg.Id;
    InitialReplay(regs, [5], 1, 0);
    hide Replay, InitialLines;
  }

  lemma FiveIsNotZero()
    ensures Bits(5, 8) != Bits(0, 8)
  {
    assert Pow2(8) == 256;
    if Bits(5, 8) == Bits(0, 8) {
      SameNumber(8, 5, 0);
    }
  }
}
