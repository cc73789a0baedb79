/**
  What every pin operation does to an output pin over runs of the timer (src/avr/avr_timer.c,
  `trigger_oc_pin`), and when a compare value takes effect.
 */
module TimerPins {
  import opened Arithmetic
  import opened Basics
  import opened Timer
  import opened TimerRuns
  import opened TimerPwm

  // ---------- operations come in inverted pairs ----------

  /** The operation that sets where this one clears. */
  function Swap(op: ComOp): (r: ComOp)
    ensures r == TgOnCm <==> op == TgOnCm
    ensures r == Disc <==> op == Disc
  {
    match op
    case Disc => Disc
    case TgOnCm => TgOnCm
    case ClOnCm => StOnCm
    case StOnCm => ClOnCm
    case ClOnCmStAtBot => StOnCmClAtBot
    case StOnCmClAtBot => ClOnCmStAtBot
    case ClOnUpStOnDown => StOnUpClOnDown
    case StOnUpClOnDown => ClOnUpStOnDown
  }

  function SwapRow(ops: seq<ComOp>): (r: seq<ComOp>)
    ensures |r| == |ops|
  {
    seq(|ops|, k requires 0 <= k < |ops| => Swap(ops[k]))
  }

  function SwapTable(ops: seq<seq<ComOp>>): (r: seq<seq<ComOp>>)
    ensures |r| == |ops|
  {
    seq(|ops|, k requires 0 <= k < |ops| => SwapRow(ops[k]))
  }

  /** A channel with the other operations and the other level. */
  function InvertComp(c: Comp): Comp {
    c.(pin := !c.pin, comOp := SwapTable(c.comOp))
  }

  function Inverted(s: State, c: nat): State
    requires c < |s.comps|
  {
    s.(comps := s.comps[c := InvertComp(s.comps[c])])
  }

  lemma PinInverts(dir: Dir, op: ComOp, tcnt: nat, top: nat, event: Event, pin: bool)
    ensures PinAfter(dir, Swap(op), tcnt, top, event, !pin) == !PinAfter(dir, op, tcnt, top, event, pin)
  {
  }

  lemma TriggerInverts(c: Comp, wgmi: int, dir: Dir, tcnt: nat, top: nat, event: Event)
    requires c.Known(wgmi)
    ensures InvertComp(c).Known(wgmi)
    ensures Trigger(InvertComp(c), wgmi, dir, tcnt, top, event) == InvertComp(Trigger(c, wgmi, dir, tcnt, top, event))
  {
    PinInverts(dir, c.comOp[wgmi][c.com], tcnt, top, event, c.pin);
    hide PinAfter, Swap;
  }

  lemma CompareInverts(c: Comp, w: Wgm, wgmi: int, dir: Dir, tcnt: nat, top: nat)
    requires c.Known(wgmi)
    ensures InvertComp(c).Known(wgmi)
    ensures Compare(InvertComp(c), w, wgmi, dir, tcnt, top) == InvertComp(Compare(c, w, wgmi, dir, tcnt, top))
  {
    TriggerInverts(c.(pending := true), wgmi, dir, tcnt, top, CompareMatch);
    hide Trigger, Matches, SwapTable;
  }

  lemma LoadInverts(c: Comp)
    ensures InvertComp(c.Load()) == InvertComp(c).Load()
  {
  }

  lemma ClockCompInverts(c: Comp, w: Wgm, wgmi: int, dir: Dir, tcnt: nat)
    requires c.Known(wgmi)
    ensures InvertComp(c).Known(wgmi)
    ensures ClockComp(InvertComp(c), w, wgmi, dir, tcnt) == InvertComp(ClockComp(c, w, wgmi, dir, tcnt))
  {
    hide Compare, Trigger, ReachesTop, ReachesBottom, InvertComp, Wgm.Top, Wgm.DualSlope;
    LoadInverts(c);
    CompareInverts(c, w, wgmi, dir, tcnt, w.Top());
    CompareInverts(c.Load(), w, wgmi, dir, tcnt, w.Top());
    var c1 := if ReachesTop(dir, tcnt, w.Top()) && (w.updocrAt == AtTop || w.updocrAt == AtMax) then c.Load() else c;
    var c2 := Compare(c1, w, wgmi, dir, tcnt, w.Top());
    TriggerInverts(c2, wgmi, dir, tcnt, w.Top(), Bottom);
    TriggerInverts(c2.Load(), wgmi, dir, tcnt, w.Top(), Bottom);
    LoadInverts(c2);
  }

  lemma InvertedValid(u: Setup, s: State, c: nat)
    requires u.Valid(s) && c < |s.comps|
    ensures u.Valid(Inverted(s, c)) && Mode(u, Inverted(s, c)) == Mode(u, s)
  {
    hide Swap;
    if u.wgm.Some? {
      assert s.comps[c].Known(u.wgm.value);
      assert InvertComp(s.comps[c]).Known(u.wgm.value);
    }
  }

  /** The list of channels with one of them inverted. */
  function InvertAt(comps: seq<Comp>, c: nat): (r: seq<Comp>)
    requires c < |comps|
    ensures |r| == |comps|
  {
    comps[c := InvertComp(comps[c])]
  }

  lemma CompsInvert(comps: seq<Comp>, w: Wgm, wgmi: int, dir: Dir, tcnt: nat, c: nat)
    requires c < |comps|
    ensures RaiseComps(InvertAt(comps, c)) == InvertAt(RaiseComps(comps), c)
    ensures ClearPending(LoadComps(InvertAt(comps, c))) == InvertAt(ClearPending(LoadComps(comps)), c)
    ensures AllKnown(comps, wgmi) ==>
      AllKnown(InvertAt(comps, c), wgmi) &&
      ClockComps(InvertAt(comps, c), w, wgmi, dir, tcnt) == InvertAt(ClockComps(comps, w, wgmi, dir, tcnt), c)
  {
    hide ClockComp, SwapTable;
    if AllKnown(comps, wgmi) {
      ClockCompInverts(comps[c], w, wgmi, dir, tcnt);
    }
  }

  /** An update of the inverted timer is the inverted update. */
  lemma StepInverts(u: Setup, s: State, c: nat)
    requires u.Valid(s) && c < |s.comps|
    ensures u.Valid(Inverted(s, c)) && |Step(u, s).comps| == |s.comps|
    ensures Step(u, Inverted(s, c)) == Inverted(Step(u, s), c)
  {
    hide ClockComps, RaiseComps, ClearPending, LoadComps, LoadWgms, Count, Comes, InvertComp, Mode, Wgm.Runs, Pow2;
    InvertedValid(u, s, c);
    var s1 := s.(presc := Pow2(if u.cs < |u.csDiv| then u.csDiv[u.cs] else 0));
    SameWgms(u, s, s1);
    SameWgms(u, Inverted(s, c), Inverted(s1, c));
    var w := Mode(u, s);
    CompsInvert(s.comps, w, u.Index(), s.dir, s.tcnt, c);
    CompsInvert(RaiseComps(s.comps), w, u.Index(), s.dir, s.tcnt, c);
  }

  lemma SameWgms(u: Setup, s: State, s': State)
    requires u.Valid(s) && s' == s.(presc := s'.presc)
    ensures u.Valid(s') && Mode(u, s') == Mode(u, s)
  {
  }
  // ---------- runs of inverted timers ----------

  /** Every state of a run with channel c inverted. */
  function InvertedAll(ss: seq<State>, c: nat): (r: seq<State>)
    requires forall k :: 0 <= k < |ss| ==> c < |ss[k].comps|
    ensures |r| == |ss|
  {
    seq(|ss|, k requires 0 <= k < |ss| => Inverted(ss[k], c))
  }

  lemma FirmwareInverts(s: State, s': State, c: nat)
    requires Firmware(s, s') && c < |s.comps|
    ensures Firmware(Inverted(s, c), Inverted(s', c))
  {
    hide SwapTable;
    assert WritesComp(s.comps[c], s'.comps[c]);
    forall d | 0 <= d < |s.comps|
      ensures WritesComp(Inverted(s, c).comps[d], Inverted(s', c).comps[d])
    {
      assert WritesComp(s.comps[d], s'.comps[d]);
    }
  }

  /** A run stays one when a channel is inverted. */
  lemma RunInverts(us: seq<Setup>, ss: seq<State>, c: nat)
    requires Run(us, ss) && forall k :: 0 <= k < |ss| ==> c < |ss[k].comps|
    ensures Run(us, InvertedAll(ss, c))
  {
    hide Step, Inverted, Firmware;
    forall k | 0 <= k < |ss|
      ensures us[k].Valid(InvertedAll(ss, c)[k])
    {
      InvertedValid(us[k], ss[k], c);
    }
    forall j, k | 0 <= j && k == j + 1 < |ss|
      ensures Firmware(Step(us[j], InvertedAll(ss, c)[j]), InvertedAll(ss, c)[k])
    {
      StepInverts(us[j], ss[j], c);
      FirmwareInverts(Step(us[j], ss[j]), ss[k], c);
    }
  }

  lemma OpInverts(u: Setup, s: State, c: nat, op: ComOp)
    requires Drives(u, s, c, op)
    ensures Drives(u, Inverted(s, c), c, Swap(op))
  {
    InvertedValid(u, s, c);
    assert s.comps[c].Known(u.wgm.value);
    hide Swap;
  }

  lemma PwmInverts(u: Setup, s: State, c: nat, op: ComOp)
    requires PwmChannel(u, s, c, op)
    ensures PwmChannel(u, Inverted(s, c), c, Swap(op))
  {
    OpInverts(u, s, c, op);
    InvertedValid(u, s, c);
    hide Op, Swap, SwapTable;
  }

  /** An inverting fast PWM channel, from update j to update k. */
  ghost predicate InvertingRun(us: seq<Setup>, ss: seq<State>, c: nat, j: nat, k: nat) {
    && Run(us, ss) && j <= k < |ss| && (forall i :: 0 <= i < |ss| ==> c < |ss[i].comps|)
    && forall i :: j <= i <= k ==> PwmChannel(us[i], ss[i], c, StOnCmClAtBot) && us[i].wgm == us[j].wgm
  }

  /** Inverting fast PWM: once a BOTTOM has passed the pin is low exactly where the other one is high. */
  lemma InvertingGlitchFree(us: seq<Setup>, ss: seq<State>, c: nat, j: nat, k: nat)
    requires InvertingRun(us, ss, c, j, k) && AtBottomNow(us[j], ss[j])
    ensures us[k].Valid(ss[k])
    ensures var s' := Step(us[k], ss[k]); c < |s'.comps| && s'.comps[c].pin == !Level(s'.tcnt, s'.comps[c].ocrBuf)
  {
    hide Step, Inverted, Swap, AtBottomNow, PwmChannel;
    RunInverts(us, ss, c);
    var ts := InvertedAll(ss, c);
    forall i | j <= i <= k
      ensures FastPwmChannel(us[i], ts[i], c) && us[i].wgm == us[j].wgm
    {
      PwmInverts(us[i], ss[i], c, StOnCmClAtBot);
      SwapOf();
    }
    BottomInverts(us[j], ss[j], c);
    ValidOf(us[k], ss[k], c);
    GlitchFree(us, ts, c, j, k);
    StepInverts(us[k], ss[k], c);
    PinOfInverted(Step(us[k], ss[k]), c);
  }

  lemma SwapOf()
    ensures Swap(StOnCmClAtBot) == ClOnCmStAtBot && Swap(StOnUpClOnDown) == ClOnUpStOnDown && Swap(StOnCm) == ClOnCm
  {
  }

  lemma ValidOf(u: Setup, s: State, c: nat)
    requires PwmChannel(u, s, c, StOnCmClAtBot)
    ensures u.Valid(s) && c < |s.comps|
  {
  }

  lemma BottomInverts(u: Setup, s: State, c: nat)
    requires AtBottomNow(u, s) && c < |s.comps|
    ensures AtBottomNow(u, Inverted(s, c))
  {
    InvertedValid(u, s, c);
  }

  lemma PinOfInverted(s: State, c: nat)
    requires c < |s.comps|
    ensures var t := Inverted(s, c);
            t.comps[c].pin == !s.comps[c].pin && t.comps[c].ocrBuf == s.comps[c].ocrBuf && t.tcnt == s.tcnt
  {
  }

  // ---------- inverted timers without firmware ----------

  lemma CountingInverts(u: Setup, s: State, top: nat, c: nat)
    requires Counting(u, s, top) && c < |s.comps|
    ensures Counting(u, Inverted(s, c), top)
  {
    InvertedValid(u, s, c);
  }

  lemma {:induction false} AfterInverts(u: Setup, s: State, top: nat, c: nat, n: nat)
    requires Counting(u, s, top) && c < |s.comps|
    ensures Counting(u, Inverted(s, c), top)
    ensures After(u, Inverted(s, c), top, n) == Inverted(After(u, s, top, n), c)
    decreases n
  {
    hide Step, Inverted, Counting;
    CountingInverts(u, s, top, c);
    if n > 0 {
      AfterInverts(u, s, top, c, n - 1);
      ValidAfter(u, After(u, s, top, n - 1), top);
      StepInverts(u, After(u, s, top, n - 1), c);
    }
  }

  lemma ValidAfter(u: Setup, s: State, top: nat)
    requires Counting(u, s, top)
    ensures u.Valid(s)
  {
  }

  lemma PinAtInverts(u: Setup, s: State, top: nat, c: nat, n: nat)
    requires Counting(u, s, top) && c < |s.comps|
    ensures Counting(u, Inverted(s, c), top)
    ensures PinAt(u, Inverted(s, c), top, c, n) == !PinAt(u, s, top, c, n)
  {
    AfterInverts(u, s, top, c, n);
    PinOfInverted(After(u, s, top, n), c);
    hide After, Inverted, Counting;
  }

  /** Inverting dual-slope PWM: high where the other one is low. */
  lemma InvertingDuty(u: Setup, s: State, top: nat, c: nat, ocr: nat, n: nat)
    requires DualChannel(u, s, top, c, ocr, StOnUpClOnDown) && s.scnt == 0 && s.tcnt == 0 && s.dir == Up
    requires 3 <= ocr <= top - 3 && Clocks(n, Prescaler(u)) >= ocr
    ensures PinAt(u, s, top, c, n) == LowPhase(Phase(Clocks(n, Prescaler(u)), top), top, ocr)
  {
    hide Prescaler, Clocks, PinAt, Phase, LowPhase;
    DualInverts(u, s, top, c, ocr);
    PinAtInverts(u, s, top, c, n);
    DualSlopeDuty(u, Inverted(s, c), top, c, ocr, n);
  }

  lemma DualInverts(u: Setup, s: State, top: nat, c: nat, ocr: nat)
    requires DualChannel(u, s, top, c, ocr, StOnUpClOnDown) && s.scnt == 0 && s.tcnt == 0 && s.dir == Up
    ensures DualPwmStart(u, Inverted(s, c), top, c, ocr)
  {
    OpInverts(u, s, c, StOnUpClOnDown);
    CountingInverts(u, s, top, c);
    InvertedValid(u, s, c);
    hide Op, SwapTable, Step;
  }

  // ---------- operations on compare matches ----------

  /** Channel c with an operation and a steady compare value, counting from zero. */
  ghost predicate PinStart(u: Setup, s: State, top: nat, c: nat, ocr: nat, op: ComOp) {
    && CountStart(u, s, top) && PinChannel(u, s, top, c, ocr, op)
  }

  ghost predicate PinChannel(u: Setup, s: State, top: nat, c: nat, ocr: nat, op: ComOp) {
    && Counting(u, s, top) && top >= 1 && Drives(u, s, c, op)
    && SteadyOcr(s.comps[c], Mode(u, s), ocr) && 1 <= ocr <= top
  }

  /** Clock t is a compare match on the way up. */
  predicate UpMatch(dual: bool, t: nat, top: nat, ocr: nat)
    requires top >= 1
  {
    t % Period(dual, top) == ocr && (dual ==> ocr >= 2 || t == 1)
  }

  lemma UpMatchNext(dual: bool, t: nat, top: nat, ocr: nat)
    requires 1 <= ocr <= top < 0x1_0000
    ensures UpMatch(dual, t + 1, top, ocr) <==> var (dir, tcnt) := Wave(dual, t, top); dir == Up && tcnt == ocr - 1
    ensures UpMatch(dual, t, top, ocr) ==> t >= ocr
    ensures UpMatch(dual, ocr, top, ocr)
  {
    var p := Period(dual, top);
    DivModUnique(ocr, p, 0, ocr);
    BelowItself(t, p);
    if dual {
      PhaseNext(t, top);
      DualUpNext(t, Phase(t, top), Phase(t + 1, top), top, ocr);
    } else {
      DivModNext(t, top + 1);
    }
  }

  lemma BelowItself(t: nat, p: nat)
    requires p > 0
    ensures t % p <= t
  {
    var q, r := DivMod(t, p);
    if q < 0 {
      MulAtLeast(p, -q);
    } else if q > 0 {
      MulAtLeast(p, q);
    }
  }

  lemma DualUpNext(t: nat, k: nat, next: nat, top: nat, ocr: nat)
    requires 1 <= ocr <= top && k < 2 * top && next == if k == 2 * top - 1 then 0 else k + 1
    requires t == 0 ==> k == 0
    ensures
      var dir := if t == 0 || 1 <= k <= top then Up else Down;
      dir == Up && Triangle(k, top) == ocr - 1 <==> next == ocr && (ocr >= 2 || t == 0)
  {
  }

  /** Operations that clear on compare match and do nothing else, in this kind of mode. */
  predicate OnlyClears(op: ComOp, dual: bool, top: nat, ocr: nat) {
    || op == ClOnCm
    || (op == ClOnCmStAtBot && dual)
    || (op == ClOnUpStOnDown && !dual && ocr != 2 && ocr != top)
  }

  lemma ClearsAlone(op: ComOp, dual: bool, top: nat, ocr: nat)
    requires OnlyClears(op, dual, top, ocr)
    ensures op != TgOnCm
  {
  }

  /** The pin after a clock with such an operation, or with one that toggles. */
  function Driven(op: ComOp, pin: bool, dir: Dir, tcnt: nat, ocr: nat): bool {
    if dir == Up && tcnt == ocr - 1 then op == TgOnCm && !pin else pin
  }

  lemma DrivenPin(op: ComOp, dual: bool, pin: bool, dir: Dir, tcnt: nat, top: nat, ocr: nat)
    requires 1 <= ocr <= top < 0x1_0000 && tcnt < 0x1_0000
    requires (op == TgOnCm || OnlyClears(op, dual, top, ocr)) && (!dual ==> dir == Up)
    ensures
      var p1 := if Matches(dir, tcnt, ocr) then PinAfter(dir, op, tcnt, top, CompareMatch, pin) else pin;
      var p2 := if ReachesBottom(dual, dir, tcnt, top) then PinAfter(dir, op, tcnt, top, Bottom, p1) else p1;
      p2 == Driven(op, pin, dir, tcnt, ocr)
  {
  }

  lemma DrivenClock(c: Comp, w: Wgm, wgmi: int, dir: Dir, tcnt: nat, ocr: nat, op: ComOp)
    requires c.Known(wgmi) && c.comOp[wgmi][c.com] == op && c.ddp && SteadyOcr(c, w, ocr)
    requires 1 <= ocr <= w.Top() < 0x1_0000 && tcnt < 0x1_0000 && (!w.DualSlope() ==> dir == Up)
    requires op == TgOnCm || OnlyClears(op, w.DualSlope(), w.Top(), ocr)
    ensures var c' := ClockComp(c, w, wgmi, dir, tcnt);
            SteadyOcr(c', w, ocr) && c'.pin == Driven(op, c.pin, dir, tcnt, ocr)
  {
    hide PinAfter, Matches, ReachesTop, ReachesBottom, Driven, Wgm.Top, Wgm.DualSlope, OnlyClears;
    DrivenPin(op, w.DualSlope(), c.pin, dir, tcnt, w.Top(), ocr);
  }

  lemma DrivenStep(u: Setup, s: State, top: nat, c: nat, ocr: nat, op: ComOp)
    requires PinChannel(u, s, top, c, ocr, op) && (!Mode(u, s).DualSlope() ==> s.dir == Up)
    requires op == TgOnCm || OnlyClears(op, Mode(u, s).DualSlope(), top, ocr)
    ensures
      var s' := Step(u, s);
      && PinChannel(u, s', top, c, ocr, op) && Mode(u, s').DualSlope() == Mode(u, s).DualSlope()
      && s'.comps[c].pin == if s.scnt == Prescaler(u) - 1 then Driven(op, s.comps[c].pin, s.dir, s.tcnt, ocr)
                            else s.comps[c].pin
  {
    hide Step, LoadWgms, Pow2, Prescaler, ClockComp, Driven, OnlyClears;
    StepCounts(u, s, top);
    PrescalerBound(u, s);
    ChannelStep(u, s, c);
    var c0 := if Raises(u, s) then s.comps[c].Raise() else s.comps[c];
    DrivenClock(c0, Mode(u, s), u.wgm.value, s.dir, s.tcnt, ocr, op);
  }

  lemma {:induction false} ChannelAfter(u: Setup, s: State, top: nat, c: nat, ocr: nat, op: ComOp, n: nat)
    requires PinStart(u, s, top, c, ocr, op) && (op == TgOnCm || OnlyClears(op, Mode(u, s).DualSlope(), top, ocr))
    ensures PinChannel(u, After(u, s, top, n), top, c, ocr, op)
    decreases n
  {
    hide Step, OnlyClears, PinChannel, Wave;
    if n > 0 {
      ChannelAfter(u, s, top, c, ocr, op, n - 1);
      WaveAfter(u, s, top, n - 1);
      UpInSingle(Mode(u, s).DualSlope(), Clocks(n - 1, Prescaler(u)), top);
      SameMode(u, s, top, n - 1);
      DrivenStep(u, After(u, s, top, n - 1), top, c, ocr, op);
    } else {
      assert After(u, s, top, 0) == s;
    }
  }

  lemma UpInSingle(dual: bool, t: nat, top: nat)
    requires top >= 1
    ensures !dual ==> Wave(dual, t, top).0 == Up
  {
  }

  /** Update n + 1 changes the pin only if it is a clock that matches on the way up. */
  lemma PinNextClock(u: Setup, s: State, top: nat, c: nat, ocr: nat, op: ComOp, n: nat)
    requires PinStart(u, s, top, c, ocr, op) && (op == TgOnCm || OnlyClears(op, Mode(u, s).DualSlope(), top, ocr))
    ensures
      var t, t' := Clocks(n, Prescaler(u)), Clocks(n + 1, Prescaler(u));
      && (t' == t || t' == t + 1)
      && PinAt(u, s, top, c, n + 1) ==
         if t' > t && UpMatch(Mode(u, s).DualSlope(), t', top, ocr) then op == TgOnCm && !PinAt(u, s, top, c, n)
         else PinAt(u, s, top, c, n)
  {
    hide Step, OnlyClears, Prescaler, Clocks, Subclocks, Wave, UpMatch;
    var p, dual := Prescaler(u), Mode(u, s).DualSlope();
    var s1 := After(u, s, top, n);
    ChannelAfter(u, s, top, c, ocr, op, n);
    WaveAfter(u, s, top, n);
    UpInSingle(dual, Clocks(n, p), top);
    SameMode(u, s, top, n);
    DrivenStep(u, s1, top, c, ocr, op);
    ClocksNext(n, p);
    UpMatchNext(dual, Clocks(n, p), top, ocr);
  }

  // ---------- the waveforms ----------

  /** The clocks up to t that match on the way up. */
  function Toggles(dual: bool, t: nat, top: nat, ocr: nat): nat
    requires 1 <= ocr <= top
  {
    if dual && ocr == 1 then if t >= 1 then 1 else 0
    else (t + Period(dual, top) - ocr) / Period(dual, top)
  }

  lemma TogglesNext(dual: bool, t: nat, top: nat, ocr: nat)
    requires 1 <= ocr <= top
    ensures Toggles(dual, t + 1, top, ocr) ==
            Toggles(dual, t, top, ocr) + if UpMatch(dual, t + 1, top, ocr) then 1 else 0
    ensures Toggles(dual, 0, top, ocr) == 0
  {
    var p := Period(dual, top);
    DivModUnique(p - ocr, p, 0, p - ocr);
    DivModNext(t + p - ocr, p);
    var q, r := DivMod(t + 1, p);
    if r >= ocr {
      MulDistributes(p, q, 1);
      DivModUnique(t + 1 + p - ocr, p, q + 1, r - ocr);
    } else {
      DivModUnique(t + 1 + p - ocr, p, q, r + p - ocr);
    }
    if dual && ocr == 1 {
      DivModUnique(1, p, 0, 1);
    }
  }

  /**
    Toggling: the pin is inverted by every match on the way up, which makes a square wave of two
    periods, and stays in between.
   */
  lemma {:induction false} ToggleWave(u: Setup, s: State, top: nat, c: nat, ocr: nat, n: nat)
    requires PinStart(u, s, top, c, ocr, TgOnCm)
    ensures
      var toggles := Toggles(Mode(u, s).DualSlope(), Clocks(n, Prescaler(u)), top, ocr);
      PinAt(u, s, top, c, n) == (s.comps[c].pin != (toggles % 2 == 1))
    decreases n
  {
    hide Prescaler, Clocks, Toggles, UpMatch, PinAt;
    var p, dual := Prescaler(u), Mode(u, s).DualSlope();
    if n == 0 {
      FirstPin(u, s, top, c);
      ClocksNext(0, p);
      TogglesNext(dual, 0, top, ocr);
    } else {
      ToggleWave(u, s, top, c, ocr, n - 1);
      PinNextClock(u, s, top, c, ocr, TgOnCm, n - 1);
      TogglesNext(dual, Clocks(n - 1, p), top, ocr);
    }
  }

  lemma FirstPin(u: Setup, s: State, top: nat, c: nat)
    requires Counting(u, s, top) && c < |s.comps|
    ensures PinAt(u, s, top, c, 0) == s.comps[c].pin
  {
    assert After(u, s, top, 0) == s;
  }

  /** Clearing on compare match: the pin is as it was up to the first match, and low from then on. */
  lemma {:induction false} ClearedForGood(u: Setup, s: State, top: nat, c: nat, ocr: nat, op: ComOp, n: nat)
    requires PinStart(u, s, top, c, ocr, op) && OnlyClears(op, Mode(u, s).DualSlope(), top, ocr)
    ensures PinAt(u, s, top, c, n) == (s.comps[c].pin && Clocks(n, Prescaler(u)) < ocr)
    decreases n
  {
    hide Prescaler, Clocks, OnlyClears, UpMatch, PinAt;
    var p, dual := Prescaler(u), Mode(u, s).DualSlope();
    if n == 0 {
      FirstPin(u, s, top, c);
      ClocksNext(0, p);
    } else {
      ClearedForGood(u, s, top, c, ocr, op, n - 1);
      ClearsAlone(op, dual, top, ocr);
      PinNextClock(u, s, top, c, ocr, op, n - 1);
      UpMatchNext(dual, Clocks(n, p), top, ocr);
    }
  }

  /** Setting on compare match: low becomes high at the first match, and stays. */
  lemma SetForGood(u: Setup, s: State, top: nat, c: nat, ocr: nat, n: nat)
    requires PinStart(u, s, top, c, ocr, StOnCm)
    ensures PinAt(u, s, top, c, n) == (s.comps[c].pin || Clocks(n, Prescaler(u)) >= ocr)
  {
    hide Prescaler, Clocks, PinAt;
    StartInverts(u, s, top, c, ocr);
    PinAtInverts(u, s, top, c, n);
    ClearedForGood(u, Inverted(s, c), top, c, ocr, ClOnCm, n);
    PinOfInverted(s, c);
  }

  lemma StartInverts(u: Setup, s: State, top: nat, c: nat, ocr: nat)
    requires PinStart(u, s, top, c, ocr, StOnCm)
    ensures PinStart(u, Inverted(s, c), top, c, ocr, ClOnCm)
  {
    OpInverts(u, s, c, StOnCm);
    CountingInverts(u, s, top, c);
    InvertedValid(u, s, c);
    hide Op, SwapTable, Step;
  }

  /** A channel that is disconnected, or whose pin is no output, never moves its pin. */
  lemma {:induction false} PinUntouched(u: Setup, s: State, top: nat, c: nat, n: nat)
    requires Counting(u, s, top) && u.wgm.Some? && c < |s.comps| && (!s.comps[c].ddp || Op(u, s, c) == Disc)
    ensures
      var s' := After(u, s, top, n);
      && s'.comps[c].pin == s.comps[c].pin && s'.comps[c].ddp == s.comps[c].ddp
      && u.Valid(s') && Op(u, s', c) == Op(u, s, c)
    decreases n
  {
    hide Step, ClockComp, Counting;
    ValidAfter(u, s, top);
    if n > 0 {
      PinUntouched(u, s, top, c, n - 1);
      var s1 := After(u, s, top, n - 1);
      UntouchedStep(u, s1, top, c);
      assert After(u, s, top, n) == Step(u, s1);
    } else {
      assert After(u, s, top, 0) == s;
    }
  }

  lemma UntouchedStep(u: Setup, s: State, top: nat, c: nat)
    requires Counting(u, s, top) && u.wgm.Some? && c < |s.comps| && (!s.comps[c].ddp || Op(u, s, c) == Disc)
    ensures
      var s' := Step(u, s);
      && u.Valid(s') && |s'.comps| == |s.comps| && s'.comps[c].pin == s.comps[c].pin
      && s'.comps[c].ddp == s.comps[c].ddp && Op(u, s', c) == Op(u, s, c)
  {
    hide Step, ClockComp, Prescaler;
    PrescalerBound(u, s);
    ChannelStep(u, s, c);
    var c0 := if Raises(u, s) then s.comps[c].Raise() else s.comps[c];
    UntouchedClock(c0, Mode(u, s), u.wgm.value, s.dir, s.tcnt);
  }

  lemma UntouchedClock(c: Comp, w: Wgm, wgmi: int, dir: Dir, tcnt: nat)
    requires c.Known(wgmi) && (!c.ddp || c.comOp[wgmi][c.com] == Disc)
    ensures ClockComp(c, w, wgmi, dir, tcnt).pin == c.pin
  {
    hide Matches, ReachesTop, ReachesBottom, Wgm.Top, Wgm.DualSlope;
  }
  // ---------- when a compare value takes effect ----------

  lemma BufferClock(c: Comp, w: Wgm, wgmi: int, dir: Dir, tcnt: nat)
    requires c.Known(wgmi)
    ensures var c' := ClockComp(c, w, wgmi, dir, tcnt);
            c'.ocr == c.ocr && c'.ocrBuf == if Comes(w.updocrAt, w, dir, tcnt) then c.ocr else c.ocrBuf
  {
    hide PinAfter, Matches, ReachesTop, ReachesBottom, Wgm.Top, Wgm.DualSlope;
  }

  /** What is compared at a clock: a value that is loaded one count before TOP at once, one loaded at BOTTOM later. */
  lemma ComparedValue(c: Comp, w: Wgm, wgmi: int, dir: Dir, tcnt: nat)
    requires c.Known(wgmi)
    ensures
      var early := ReachesTop(dir, tcnt, w.Top()) && (w.updocrAt == AtTop || w.updocrAt == AtMax);
      ClockComp(c, w, wgmi, dir, tcnt).pending == (c.pending || Matches(dir, tcnt, if early then c.ocr else c.Value(w)))
  {
    hide PinAfter, Matches, ReachesTop, ReachesBottom, Wgm.Top, Wgm.DualSlope;
  }

  lemma SameUpdocr(u: Setup, s: State, top: nat, n: nat)
    requires Counting(u, s, top)
    ensures Mode(u, After(u, s, top, n)).updocrAt == Mode(u, s).updocrAt
  {
    hide Step;
  }

  /** The buffer of a channel over one update. */
  lemma BufferStep(u: Setup, s: State, top: nat, c: nat)
    requires Counting(u, s, top) && u.wgm.Some? && c < |s.comps|
    ensures
      var s', w := Step(u, s), Mode(u, s);
      && |s'.comps| == |s.comps| && s'.comps[c].ocr == s.comps[c].ocr
      && s'.comps[c].ocrBuf ==
         if s.scnt == Prescaler(u) - 1 && Comes(w.updocrAt, w, s.dir, s.tcnt) then s.comps[c].ocr else s.comps[c].ocrBuf
  {
    hide Step, ClockComp, Prescaler, Comes;
    PrescalerBound(u, s);
    ChannelStep(u, s, c);
    var c0 := if Raises(u, s) then s.comps[c].Raise() else s.comps[c];
    BufferClock(c0, Mode(u, s), u.wgm.value, s.dir, s.tcnt);
  }

  /**
    A compare value that was written takes effect at the first TOP, one count early, or at the first
    BOTTOM, as the mode says; not at all in a mode that loads at neither.
   */
  lemma {:induction false} ValueTaken(u: Setup, s: State, top: nat, c: nat, n: nat)
    requires CountStart(u, s, top) && u.wgm.Some? && c < |s.comps| && !(Mode(u, s).DualSlope() && top == 1)
    ensures
      var s', w := After(u, s, top, n), Mode(u, s);
      var phase := OverflowPhase(w.updocrAt, w.DualSlope(), top);
      && s'.comps[c].ocr == s.comps[c].ocr
      && s'.comps[c].ocrBuf ==
         if phase.Some? && Clocks(n, Prescaler(u)) > phase.value then s.comps[c].ocr else s.comps[c].ocrBuf
    decreases n
  {
    hide Step, Comes, Prescaler, Clocks, Subclocks, Wave;
    var p := Prescaler(u);
    if n == 0 {
      assert After(u, s, top, 0) == s;
      ClocksNext(0, p);
    } else {
      ValueTaken(u, s, top, c, n - 1);
      var s1, t := After(u, s, top, n - 1), Clocks(n - 1, p);
      assert After(u, s, top, n) == Step(u, s1);
      WaveAfter(u, s, top, n - 1);
      SameMode(u, s, top, n - 1);
      SameUpdocr(u, s, top, n - 1);
      ClocksNext(n - 1, p);
      BufferStep(u, s1, top, c);
      var w := Mode(u, s1);
      ComesAt(w.updocrAt, w, t);
      BelowItself(t, Period(w.DualSlope(), top));
      FirstPhase(t, Period(w.DualSlope(), top));
    }
  }

  lemma FirstPhase(t: nat, p: nat)
    requires p > 0
    ensures t < p ==> t % p == t
  {
    if t < p {
      DivModUnique(t, p, 0, t);
    }
  }

  /** A timer without mode bits counts through all its values. */
  lemma FreeRunning(u: Setup, s: State, n: nat)
    requires Clocked(u, s) && u.wgm.None? && u.modulus == (if u.size == 16 then 0x1_0000 else 0x100)
    requires s.scnt == 0 && s.tcnt == 0 && s.dir == Up
    ensures Counting(u, s, u.modulus - 1)
    ensures After(u, s, u.modulus - 1, n).tcnt == Clocks(n, Prescaler(u)) % u.modulus
  {
    SingleSlopeCounter(u, s, u.modulus - 1, n);
  }
  // ---------- clocks that come and go ----------

  /** No clock: it is not defined or not selected, or the timer is disabled. */
  predicate Paused(u: Setup) {
    !u.clockDefined || u.disabled || u.cs == 0 || u.cs >= |u.csDiv|
  }

  lemma {:induction false} FirstSubclocks(u: Setup, s: State, top: nat, n: nat)
    requires Counting(u, s, top) && s.scnt == 0 && n < Prescaler(u)
    ensures After(u, s, top, n).scnt == n && After(u, s, top, n).tcnt == s.tcnt
    decreases n
  {
    hide Step, Prescaler;
    if n > 0 {
      FirstSubclocks(u, s, top, n - 1);
      PrescalerBound(u, After(u, s, top, n - 1));
      CounterNext(u, After(u, s, top, n - 1));
    }
  }

  /** A pause starts the prescaler anew: the counter stays for a whole prescaler period after it. */
  lemma PauseRestarts(pause: Setup, u: Setup, s: State, top: nat, n: nat)
    requires pause.Valid(s) && Paused(pause) && Counting(u, Step(pause, s), top) && n < Prescaler(u)
    ensures
      var s' := After(u, Step(pause, s), top, n);
      s'.tcnt == s.tcnt && s'.scnt == n
  {
    hide LoadWgms, LoadComps, ClearPending;
    assert Step(pause, s).scnt == 0 && Step(pause, s).tcnt == s.tcnt;
    hide Step, After, Prescaler;
    FirstSubclocks(u, Step(pause, s), top, n);
  }
}
