/**
  Output waveforms and compare interrupts of the timer over whole runs
  (src/avr/avr_timer.c).
 */
module TimerPwm {
  import opened Arithmetic
  import opened Basics
  import opened Timer
  import opened TimerRuns
  import opened TimerRange

  /** The pin operation that channel c performs in the selected mode. */
  ghost function Op(u: Setup, s: State, c: nat): ComOp
    requires u.Valid(s) && u.wgm.Some? && c < |s.comps|
  {
    assert s.comps[c].Known(u.wgm.value);
    s.comps[c].comOp[u.wgm.value][s.comps[c].com]
  }

  /** One step of a clocked timer, seen by channel c. */
  lemma ChannelStep(u: Setup, s: State, c: nat)
    requires Clocked(u, s) && s.scnt < 0x8000_0000 && c < |s.comps| && u.wgm.Some?
    ensures
      var s', w := Step(u, s), Mode(u, s);
      var c0 := if Raises(u, s) then s.comps[c].Raise() else s.comps[c];
      && u.Valid(s') && |s'.comps| == |s.comps| && c0.Known(u.wgm.value)
      && s'.comps[c] == (if Ticks(u, s) then ClockComp(c0, w, u.wgm.value, s.dir, s.tcnt) else c0)
  {
    ClockedStep(u, s);
    assert s.comps[c].Known(u.wgm.value);
  }

  // ---------- fast PWM without glitches ----------

  /** Channel c drives its pin in this way. */
  ghost predicate Drives(u: Setup, s: State, c: nat, op: ComOp) {
    u.Valid(s) && u.wgm.Some? && c < |s.comps| && Op(u, s, c) == op && s.comps[c].ddp
  }

  /**
    Channel c drives its pin in a single-slope mode buffered at BOTTOM, cleared on
    compare match and set at BOTTOM, with a counter that counts up.  Registers hold
    values of the counter's width.
   */
  ghost predicate FastPwmChannel(u: Setup, s: State, c: nat) {
    PwmChannel(u, s, c, ClOnCmStAtBot)
  }

  ghost predicate PwmChannel(u: Setup, s: State, c: nat, op: ComOp) {
    && Clocked(u, s) && s.scnt < 0x8000_0000 && s.dir == Up && Drives(u, s, c, op)
    && s.comps[c].ocr < u.modulus && s.comps[c].ocrBuf < u.modulus
    && var w := Mode(u, s);
      && !w.DualSlope() && w.updocrAt == AtBottom
      && w.top < u.modulus && w.rtopBuf < u.modulus && (w.rtop.Some? ==> w.rtop.value < u.modulus)
  }

  /** The level of a fast PWM pin: high below the compare value, and always if that is zero. */
  predicate Level(tcnt: nat, ocr: nat) {
    ocr == 0 || tcnt < ocr
  }

  /** A fast PWM channel whose pin follows the buffered compare value. */
  ghost predicate PinFollows(u: Setup, s: State, c: nat) {
    && FastPwmChannel(u, s, c) && InRange(u, s)
    && s.comps[c].pin == Level(s.tcnt, s.comps[c].ocrBuf)
  }

  ghost predicate AtBottomNow(u: Setup, s: State) {
    Clocked(u, s) && Ticks(u, s) && s.tcnt == Mode(u, s).Top()
  }

  lemma FastPwmKeeps(u: Setup, s: State, c: nat)
    requires FastPwmChannel(u, s, c)
    ensures FastPwmChannel(u, Step(u, s), c)
  {
    ModeNext(u, s);
    CounterNext(u, s);
    ChannelStep(u, s, c);
    var c0 := if Raises(u, s) then s.comps[c].Raise() else s.comps[c];
    hide Step, Prescaler, ClockComp;
  }

  /** What a clock of the timer does to a fast PWM pin. */
  lemma FastPwmClock(c: Comp, w: Wgm, wgmi: int, tcnt: nat)
    requires c.Known(wgmi) && c.comOp[wgmi][c.com] == ClOnCmStAtBot && c.ddp
    requires c.ocrBuf < 0x1_0000 && tcnt < 0x1_0000 && w.Top() < 0x1_0000
    requires !w.DualSlope() && w.updocrAt == AtBottom
    ensures
      var c' := ClockComp(c, w, wgmi, Up, tcnt);
      if tcnt == w.Top() then c'.pin && c'.ocrBuf == c.ocr
      else c'.ocrBuf == c.ocrBuf && c'.pin == (c.pin && tcnt + 1 != c.ocrBuf)
  {
  }

  /** BOTTOM starts a correct period, and every update continues it. */
  lemma UpdateFollows(u: Setup, s: State, c: nat)
    requires FastPwmChannel(u, s, c)
    requires PinFollows(u, s, c) || AtBottomNow(u, s)
    ensures PinFollows(u, Step(u, s), c)
  {
    FastPwmKeeps(u, s, c);
    ModeNext(u, s);
    CounterNext(u, s);
    ChannelStep(u, s, c);
    var c0 := if Raises(u, s) then s.comps[c].Raise() else s.comps[c];
    FastPwmClock(c0, Mode(u, s), u.wgm.value, s.tcnt);
    SawtoothNext(s.tcnt, Mode(u, s).Top(), u.modulus);
    hide Step, Prescaler, ClockComp, Count, Mode, Setup.Valid;
  }

  /** Register writes between updates do not disturb the period. */
  lemma FirmwareFollows(u: Setup, s: State, u': Setup, s': State, c: nat)
    requires FastPwmChannel(u', s', c) && PinFollows(u, s, c)
    requires Firmware(s, s') && u'.wgm == u.wgm
    ensures PinFollows(u', s', c)
  {
    assert WritesComp(s.comps[c], s'.comps[c]);
    assert WritesTop(s.wgms[u.wgm.value], s'.wgms[u.wgm.value]);
  }

  /**
    A run in which channel c is a fast PWM channel of one mode from update j to update k;
    the timer may stop before and after.
   */
  ghost predicate FastPwmRun(us: seq<Setup>, ss: seq<State>, c: nat, j: nat, k: nat) {
    && Run(us, ss) && j <= k < |ss|
    && forall i :: j <= i <= k ==> FastPwmChannel(us[i], ss[i], c) && us[i].wgm == us[j].wgm
  }

  lemma FastPwmRunAt(us: seq<Setup>, ss: seq<State>, c: nat, j: nat, k: nat)
    requires FastPwmRun(us, ss, c, j, k)
    ensures j <= k < |us| == |ss| && us[k].Valid(ss[k]) && FastPwmChannel(us[k], ss[k], c)
    ensures k > j ==>
      && FastPwmRun(us, ss, c, j, k - 1)
      && us[k - 1].Valid(ss[k - 1]) && us[k - 1].wgm == us[k].wgm
      && Firmware(Step(us[k - 1], ss[k - 1]), ss[k])
  {
  }

  /**
    Fast PWM is free of glitches: once a BOTTOM has passed, at update j, the pin
    after every later update k is high exactly while the counter is below the
    buffered compare value (and throughout, if that value is zero).  Firmware may
    write the compare and TOP registers between any two updates from j to k.
   */
  lemma {:induction false} GlitchFree(us: seq<Setup>, ss: seq<State>, c: nat, j: nat, k: nat)
    requires FastPwmRun(us, ss, c, j, k)
    requires AtBottomNow(us[j], ss[j])
    ensures us[k].Valid(ss[k]) && PinFollows(us[k], Step(us[k], ss[k]), c)
    decreases k
  {
    hide PinFollows, FastPwmRun, FastPwmChannel, Step, AtBottomNow;
    FastPwmRunAt(us, ss, c, j, k);
    if j < k {
      GlitchFree(us, ss, c, j, k - 1);
      FollowsNext(us, ss, c, j, k);
    } else {
      UpdateFollows(us[k], ss[k], c);
    }
  }

  lemma FollowsNext(us: seq<Setup>, ss: seq<State>, c: nat, j: nat, k: nat)
    requires FastPwmRun(us, ss, c, j, k) && j < k
    requires us[k - 1].Valid(ss[k - 1]) && PinFollows(us[k - 1], Step(us[k - 1], ss[k - 1]), c)
    ensures us[k].Valid(ss[k]) && PinFollows(us[k], Step(us[k], ss[k]), c)
  {
    hide FastPwmRun, FastPwmChannel, PinFollows, Firmware, Step;
    FastPwmRunAt(us, ss, c, j, k);
    FirmwareFollows(us[k - 1], Step(us[k - 1], ss[k - 1]), us[k], ss[k], c);
    UpdateFollows(us[k], ss[k], c);
  }

  /** A halted timer loads the compare value and leaves counter and pin as they are. */
  lemma HaltedPin(u: Setup, s: State, c: nat)
    requires u.Valid(s) && Halted(u) && c < |s.comps|
    ensures var s' := Step(u, s);
            && s'.tcnt == s.tcnt && |s'.comps| == |s.comps|
            && s'.comps[c] == s.comps[c].Load().(pending := false)
  {
    hide LoadWgms;
  }

  /**
    A stop in the middle of a period: after it the pin follows the compare value that was
    loaded if and only if that asks for the level the pin has, and the counter is still
    within TOP.  Otherwise it follows from the next BOTTOM on.
   */
  lemma StopFollowsIff(u: Setup, s: State, halt: Setup, u': Setup, c: nat)
    requires PinFollows(u, s, c) && halt.Valid(s) && Halted(halt) && halt.wgm == u.wgm == u'.wgm
    requires FastPwmChannel(u', Step(halt, s), c)
    ensures
      PinFollows(u', Step(halt, s), c) <==>
      UpdateFits(halt, s) && Level(s.tcnt, s.comps[c].ocrBuf) == Level(s.tcnt, s.comps[c].ocr)
  {
    hide Step;
    HaltedPin(halt, s, c);
    UpdateInRangeIff(halt, s);
  }

  /**
    With compare values of at least one the pin is high exactly while the counter is
    below the buffered value; with zero it is high at every moment of the period,
    where the ideal waveform would be low.
   */
  lemma PinExactIff(u: Setup, s: State, c: nat)
    requires PinFollows(u, s, c)
    ensures (s.comps[c].pin <==> s.tcnt < s.comps[c].ocrBuf) <==> s.comps[c].ocrBuf >= 1
  {
  }

  // ---------- dual-slope PWM ----------

  /** Channel c clears its pin on the way up and sets it on the way down, with a compare value that cannot change. */
  ghost predicate DualPwmChannel(u: Setup, s: State, top: nat, c: nat, ocr: nat) {
    DualChannel(u, s, top, c, ocr, ClOnUpStOnDown)
  }

  ghost predicate DualChannel(u: Setup, s: State, top: nat, c: nat, ocr: nat, op: ComOp) {
    && Counting(u, s, top) && top >= 1 && Drives(u, s, c, op) && Mode(u, s).DualSlope()
    && ocr < u.modulus && SteadyOcr(s.comps[c], Mode(u, s), ocr)
  }

  ghost predicate SteadyOcr(c: Comp, w: Wgm, ocr: nat) {
    c.Value(w) == ocr && (w.updocrAt == AtImmediate || c.ocr == c.ocrBuf)
  }

  /** The pin after a clock at counter value tcnt: matches next to 0 or TOP have no effect. */
  function DualPin(pin: bool, dir: Dir, tcnt: nat, top: nat, ocr: nat): bool {
    if tcnt == 1 || tcnt + 1 == top then pin
    else if dir == Up && tcnt + 1 == ocr then false
    else if dir == Down && tcnt == ocr + 1 then true
    else pin
  }

  lemma DualPinAfter(dir: Dir, tcnt: nat, top: nat, ocr: nat, pin: bool)
    requires 1 <= top < 0x1_0000 && tcnt < 0x1_0000 && ocr < 0x1_0000
    ensures (if Matches(dir, tcnt, ocr) then PinAfter(dir, ClOnUpStOnDown, tcnt, top, CompareMatch, pin) else pin) ==
            DualPin(pin, dir, tcnt, top, ocr)
    ensures PinAfter(dir, ClOnUpStOnDown, tcnt, top, Bottom, pin) == pin
  {
  }

  lemma DualPwmClock(c: Comp, w: Wgm, wgmi: int, dir: Dir, tcnt: nat, ocr: nat)
    requires c.Known(wgmi) && c.comOp[wgmi][c.com] == ClOnUpStOnDown && c.ddp
    requires SteadyOcr(c, w, ocr) && w.DualSlope() && 1 <= w.Top() < 0x1_0000 && tcnt < 0x1_0000 && ocr < 0x1_0000
    ensures
      var c' := ClockComp(c, w, wgmi, dir, tcnt);
      && SteadyOcr(c', w, ocr)
      && c'.pin == DualPin(c.pin, dir, tcnt, w.Top(), ocr)
  {
    DualPinAfter(dir, tcnt, w.Top(), ocr, c.pin);
    var pin := DualPin(c.pin, dir, tcnt, w.Top(), ocr);
    DualPinAfter(dir, tcnt, w.Top(), ocr, pin);
    hide PinAfter, Matches, ReachesTop, ReachesBottom, DualPin;
  }

  lemma DualPwmStep(u: Setup, s: State, top: nat, c: nat, ocr: nat)
    requires DualPwmChannel(u, s, top, c, ocr)
    ensures
      var s' := Step(u, s);
      && DualPwmChannel(u, s', top, c, ocr)
      && s'.comps[c].pin == if s.scnt == Prescaler(u) - 1 then DualPin(s.comps[c].pin, s.dir, s.tcnt, top, ocr)
                            else s.comps[c].pin
  {
    var s' := Step(u, s);
    StepCounts(u, s, top);
    PrescalerBound(u, s);
    ChannelStep(u, s, c);
    var c0 := if Raises(u, s) then s.comps[c].Raise() else s.comps[c];
    DualPwmClock(c0, Mode(u, s), u.wgm.value, s.dir, s.tcnt, ocr);
    hide Step, LoadWgms, Pow2, Prescaler, ClockComp;
  }

  /** n updates: the channel stays as it is, apart from its pin. */
  lemma {:induction false} DualPwmStays(u: Setup, s: State, top: nat, c: nat, ocr: nat, n: nat)
    requires DualPwmChannel(u, s, top, c, ocr)
    ensures DualPwmChannel(u, After(u, s, top, n), top, c, ocr)
    decreases n
  {
    if n > 0 {
      DualPwmStays(u, s, top, c, ocr, n - 1);
      DualPwmStep(u, After(u, s, top, n - 1), top, c, ocr);
    }
  }

  /** The level of pin c after n updates. */
  ghost function PinAt(u: Setup, s: State, top: nat, c: nat, n: nat): bool
    requires Counting(u, s, top) && c < |s.comps|
  {
    After(u, s, top, n).comps[c].pin
  }

  /** A dual-slope counter that starts upwards from zero with channel c. */
  ghost predicate DualPwmStart(u: Setup, s: State, top: nat, c: nat, ocr: nat) {
    DualPwmChannel(u, s, top, c, ocr) && s.scnt == 0 && s.tcnt == 0 && s.dir == Up
  }

  /** The duty pattern: low from compare value to compare value around TOP. */
  predicate LowPhase(k: nat, top: nat, ocr: nat) {
    ocr <= k < 2 * top - ocr
  }

  /** Pin and phase: update n + 1 changes the pin only if it is a clock, and then as DualPin says. */
  lemma PinNext(u: Setup, s: State, top: nat, c: nat, ocr: nat, n: nat)
    requires DualPwmStart(u, s, top, c, ocr)
    ensures
      var p := Prescaler(u);
      var t := Clocks(n, p);
      PinAt(u, s, top, c, n + 1) ==
        if Subclocks(n, p) == p - 1 then
          DualPin(PinAt(u, s, top, c, n), Slope(t, top), Triangle(Phase(t, top), top), top, ocr)
        else PinAt(u, s, top, c, n)
  {
    DualPwmStays(u, s, top, c, ocr, n);
    DualSlopeCounter(u, s, top, n);
    DualPwmStep(u, After(u, s, top, n), top, c, ocr);
    hide Step, Slope, Triangle, Phase, Clocks, Subclocks, Prescaler, DualPin, DualPwmChannel, Counting;
  }

  /** The effect of clock t on the pin, by phase. */
  lemma DualPinByPhase(pin: bool, t: nat, top: nat, ocr: nat)
    requires top >= 1 && 3 <= ocr <= top - 3
    ensures DualPin(pin, Slope(t, top), Triangle(Phase(t, top), top), top, ocr) ==
            if Phase(t, top) == ocr - 1 then false else if Phase(t, top) == 2 * top - ocr - 1 then true else pin
  {
    PhaseNext(0, top);
    hide Phase;
  }

  /**
    Dual-slope PWM: for 3 <= OCR <= TOP - 3, from the first match on, the pin is low
    exactly in the phases OCR <= k < 2 * TOP - OCR of every period of 2 * TOP clocks.
   */
  lemma {:induction false} DualSlopeDuty(u: Setup, s: State, top: nat, c: nat, ocr: nat, n: nat)
    requires DualPwmStart(u, s, top, c, ocr) && 3 <= ocr <= top - 3
    requires Clocks(n, Prescaler(u)) >= ocr
    ensures PinAt(u, s, top, c, n) == !LowPhase(Phase(Clocks(n, Prescaler(u)), top), top, ocr)
    decreases n
  {
    hide Prescaler, Clocks, Subclocks, DualPin, PinAt, Slope, Triangle, Phase;
    var p := Prescaler(u);
    ClocksNext(0, p);
    if n > 0 {
      ClocksNext(n - 1, p);
      var t := Clocks(n - 1, p);
      if t >= ocr {
        DualSlopeDuty(u, s, top, c, ocr, n - 1);
      } else {
        EarlyPhase(t, top);
      }
      PinNext(u, s, top, c, ocr, n - 1);
      PhaseNext(t, top);
      DualPinByPhase(PinAt(u, s, top, c, n - 1), t, top, ocr);
    }
  }

  lemma EarlyPhase(t: nat, top: nat)
    requires t < 2 * top
    ensures Phase(t, top) == t
  {
    DivModUnique(t, 2 * top, 0, t);
  }

  /** Clock t of the timer takes place at update t * p. */
  lemma ClockAt(t: nat, p: nat)
    requires p > 0
    ensures p * t >= 0 && Clocks(p * t, p) == t
  {
    if p * t < 0 {
      MulAtLeast(p, t);
    }
    DivModUnique(p * t, p, t, 0);
  }

  /** With OCR <= 2 the pin is never cleared after the first clock, with OCR >= TOP - 2 it is never set. */
  lemma {:induction false} DualPinOneWay(u: Setup, s: State, top: nat, c: nat, ocr: nat, m: nat, n: nat)
    requires DualPwmStart(u, s, top, c, ocr) && 1 <= ocr <= top - 1
    requires m <= n && Clocks(m, Prescaler(u)) >= 1
    ensures Clocks(n, Prescaler(u)) >= 1
    ensures ocr <= 2 ==> (PinAt(u, s, top, c, m) ==> PinAt(u, s, top, c, n))
    ensures ocr >= top - 2 ==> (PinAt(u, s, top, c, n) ==> PinAt(u, s, top, c, m))
    decreases n
  {
    hide PinAt, Prescaler, Clocks, Subclocks, Phase;
    if m < n {
      DualPinOneWay(u, s, top, c, ocr, m, n - 1);
      PinNext(u, s, top, c, ocr, n - 1);
      ClocksNext(n - 1, Prescaler(u));
    }
  }

  /** Compare values that the counter never matches with an effect. */
  predicate Unmatched(top: nat, ocr: nat) {
    ocr == 0 || ocr == top || ocr >= top + 2 || (top == 1 && ocr == 2)
  }

  /** With such a value the pin never changes. */
  lemma {:induction false} UnmatchedPin(u: Setup, s: State, top: nat, c: nat, ocr: nat, n: nat)
    requires DualPwmStart(u, s, top, c, ocr) && Unmatched(top, ocr)
    ensures PinAt(u, s, top, c, n) == s.comps[c].pin
    decreases n
  {
    if n > 0 {
      hide PinAt, Clocks, Subclocks, Phase, Prescaler;
      UnmatchedPin(u, s, top, c, ocr, n - 1);
      PinNext(u, s, top, c, ocr, n - 1);
      var k := Phase(Clocks(n - 1, Prescaler(u)), top);
      TriangleBelow(k, top);
    } else {
      assert After(u, s, top, 0) == s;
    }
  }

  lemma TriangleBelow(k: nat, top: nat)
    requires k < 2 * top
    ensures Triangle(k, top) <= top
  {
  }

  /** The last update before clock t + 1. */
  lemma LastUpdate(t: nat, p: nat)
    requires p > 0
    ensures p * (t + 1) >= 1 && Clocks(p * (t + 1), p) == t + 1
    ensures Clocks(p * (t + 1) - 1, p) == t && Subclocks(p * (t + 1) - 1, p) == p - 1
  {
    MulAtLeast(p, t + 1);
    MulDistributes(p, t, 1);
    DivModUnique(p * (t + 1), p, t + 1, 0);
    DivModUnique(p * (t + 1) - 1, p, t, p - 1);
  }

  /** With OCR = TOP + 1 every peak clears the pin. */
  lemma PeakClears(u: Setup, s: State, top: nat, c: nat, n: nat)
    requires top >= 2 && DualPwmStart(u, s, top, c, top + 1)
    requires n == Prescaler(u) * (top + 1)
    ensures !PinAt(u, s, top, c, n) && Clocks(n, Prescaler(u)) == top + 1
  {
    hide PinAt, Phase, Prescaler, Clocks, Subclocks;
    LastUpdate(top, Prescaler(u));
    EarlyPhase(top, top);
    PinNext(u, s, top, c, top + 1, n - 1);
  }

  /** The pin is low exactly in the duty phases, from the first match on. */
  ghost predicate DutyPattern(u: Setup, s: State, top: nat, c: nat, ocr: nat)
    requires Counting(u, s, top) && c < |s.comps| && top >= 1
  {
    forall n: nat :: Clocks(n, Prescaler(u)) >= ocr ==>
      PinAt(u, s, top, c, n) == !LowPhase(Phase(Clocks(n, Prescaler(u)), top), top, ocr)
  }

  /** Within 1 <= OCR < TOP but next to the ends the pattern breaks within a period. */
  lemma NoDutyNearEnds(u: Setup, s: State, top: nat, c: nat, ocr: nat)
    requires DualPwmStart(u, s, top, c, ocr) && 1 <= ocr <= top - 1 && !(3 <= ocr <= top - 3)
    ensures !DutyPattern(u, s, top, c, ocr)
  {
    hide PinAt, Prescaler, Clocks;
    var p := Prescaler(u);
    var n0, n1, n2 := p * ocr, p * (2 * top), p * (2 * top + ocr);
    ClockAt(ocr, p);
    ClockAt(2 * top, p);
    ClockAt(2 * top + ocr, p);
    MulDistributes(p, 2 * top, ocr);
    MulDistributes(p, ocr, 2 * top - ocr);
    MulAtLeast(p, 2 * top - ocr);
    EarlyPhase(ocr, top);
    DivModUnique(2 * top, 2 * top, 1, 0);
    DivModUnique(2 * top + ocr, 2 * top, 1, ocr);
    DualPinOneWay(u, s, top, c, ocr, n0, n1);
    DualPinOneWay(u, s, top, c, ocr, n1, n2);
    assert Clocks(n0, p) >= ocr && Clocks(n1, p) >= ocr && Clocks(n2, p) >= ocr;
    assert Phase(ocr, top) == ocr && Phase(2 * top, top) == 0 && Phase(2 * top + ocr, top) == ocr;
  }

  /**
    The duty pattern appears exactly for 3 <= OCR <= TOP - 3, and where the counter never
    matches, if the pin happened to be at the level of 0% (OCR = 0) or 100% (OCR >= TOP).
   */
  lemma DualSlopeDutyIff(u: Setup, s: State, top: nat, c: nat, ocr: nat)
    requires DualPwmStart(u, s, top, c, ocr)
    ensures DutyPattern(u, s, top, c, ocr) <==>
      3 <= ocr <= top - 3 || (Unmatched(top, ocr) && s.comps[c].pin == (ocr > 0))
  {
    hide PinAt, Prescaler, Clocks, Phase;
    var p := Prescaler(u);
    if 3 <= ocr <= top - 3 {
      forall n: nat | Clocks(n, p) >= ocr
        ensures PinAt(u, s, top, c, n) == !LowPhase(Phase(Clocks(n, p), top), top, ocr)
      {
        DualSlopeDuty(u, s, top, c, ocr, n);
      }
    } else if Unmatched(top, ocr) {
      ClockAt(ocr, p);
      var m: nat := p * ocr;
      assert Clocks(m, p) >= ocr;
      forall n: nat
        ensures PinAt(u, s, top, c, n) == s.comps[c].pin
      {
        UnmatchedPin(u, s, top, c, ocr, n);
      }
    } else if ocr == top + 1 {
      ClockAt(ocr, p);
      PeakClears(u, s, top, c, p * ocr);
    } else {
      NoDutyNearEnds(u, s, top, c, ocr);
    }
  }

  // ---------- compare interrupts ----------

  /** Update n raises the flag of channel c. */
  ghost predicate RaisedAt(u: Setup, s: State, top: nat, c: nat, n: nat)
    requires Counting(u, s, top) && c < |s.comps|
  {
    var s' := After(u, s, top, n);
    Raises(u, s') && s'.comps[c].pending
  }

  /** That update sets the flag and leaves nothing pending. */
  lemma RaisingSetsFlag(u: Setup, s: State, top: nat, c: nat, n: nat)
    requires Counting(u, s, top) && c < |s.comps| && u.wgm.Some? && RaisedAt(u, s, top, c, n)
    ensures var comp := After(u, s, top, n + 1).comps[c]; comp.raised && !comp.pending
  {
    var s' := After(u, s, top, n);
    PrescalerBound(u, s');
    ChannelStep(u, s', c);
    assert After(u, s, top, n + 1) == Step(u, s');
  }

  /** In every mode: with a prescaler of at least 2, a match is reported before the counter moves again. */
  lemma {:induction false} MatchNotLost(u: Setup, s: State, top: nat, c: nat, j: nat)
    requires Counting(u, s, top) && c < |s.comps| && u.wgm.Some?
    requires s.scnt == 0 && s.comps[c].pending && j < Prescaler(u) && Prescaler(u) >= 2
    ensures
      var s' := After(u, s, top, j);
      && s'.scnt == j && s'.tcnt == s.tcnt
      && if j == Prescaler(u) - 1 then s'.comps[c].raised && !s'.comps[c].pending else s'.comps[c].pending
    decreases j
  {
    if j > 0 {
      MatchNotLost(u, s, top, c, j - 1);
      var s1 := After(u, s, top, j - 1);
      PrescalerBound(u, s1);
      ChannelStep(u, s1, c);
      CounterNext(u, s1);
      assert After(u, s, top, j) == Step(u, s1);
      hide Step, Prescaler, Mode, Counting;
    }
  }

  /** A timer that counts from zero. */
  ghost predicate CountStart(u: Setup, s: State, top: nat) {
    Counting(u, s, top) && top >= 1 && s.scnt == 0 && s.tcnt == 0 && s.dir == Up
  }

  /** A channel with a compare value that cannot change, counting from zero with nothing pending. */
  ghost predicate CompareStart(u: Setup, s: State, top: nat, c: nat, ocr: nat) {
    && CountStart(u, s, top) && u.wgm.Some? && c < |s.comps|
    && SteadyOcr(s.comps[c], Mode(u, s), ocr) && 1 <= ocr <= top
    && !s.comps[c].pending
  }

  lemma CompareClock(c: Comp, w: Wgm, wgmi: int, dir: Dir, tcnt: nat, ocr: nat)
    requires c.Known(wgmi) && SteadyOcr(c, w, ocr)
    ensures
      var c' := ClockComp(c, w, wgmi, dir, tcnt);
      SteadyOcr(c', w, ocr) && c'.pending == (c.pending || Matches(dir, tcnt, ocr))
  {
    hide PinAfter, ReachesTop, ReachesBottom, Wgm.Top, Wgm.DualSlope, Matches;
  }

  /** The clocks in a period. */
  function Period(dual: bool, top: nat): nat {
    if dual then 2 * top else top + 1
  }

  /**
    Clock t is a compare match.  In dual slope the way up is not matched right behind 0, except
    at the start, and the way down not right behind TOP: there the counter has not turned yet.
   */
  predicate MatchClock(dual: bool, t: nat, top: nat, ocr: nat)
    requires top >= 1
  {
    var k := t % Period(dual, top);
    if dual then (k == ocr && (ocr >= 2 || t == 1)) || (k == 2 * top - ocr && ocr <= top - 2)
    else k == ocr
  }

  /** The waveform: counting direction and counter at clock t. */
  ghost function Wave(dual: bool, t: nat, top: nat): (Dir, nat)
    requires top >= 1
  {
    if dual then (Slope(t, top), Triangle(Phase(t, top), top)) else (Up, t % (top + 1))
  }

  lemma MatchClockNext(dual: bool, t: nat, top: nat, ocr: nat)
    requires 1 <= ocr <= top < 0x1_0000
    ensures MatchClock(dual, t + 1, top, ocr) <==> var (dir, tcnt) := Wave(dual, t, top); Matches(dir, tcnt, ocr)
    ensures !MatchClock(dual, 0, top, ocr)
  {
    DivModUnique(0, Period(dual, top), 0, 0);
    if dual {
      PhaseNext(t, top);
      DualMatchNext(t, Phase(t, top), Phase(t + 1, top), top, ocr);
    } else {
      DivModNext(t, top + 1);
      hide MatchClock;
      SingleMatch(t, top, ocr);
    }
  }

  lemma SingleMatch(t: nat, top: nat, ocr: nat)
    requires 1 <= ocr <= top < 0x1_0000
    ensures MatchClock(false, t, top, ocr) <==> t % (top + 1) == ocr
  {
  }

  /** The phases next to a match on the triangle wave. */
  lemma DualMatchNext(t: nat, k: nat, next: nat, top: nat, ocr: nat)
    requires 1 <= ocr <= top < 0x1_0000 && k < 2 * top && next == if k == 2 * top - 1 then 0 else k + 1
    requires t == 0 ==> k == 0
    ensures
      var dir := if t == 0 || 1 <= k <= top then Up else Down;
      Matches(dir, Triangle(k, top), ocr) <==>
      (next == ocr && (ocr >= 2 || t == 0)) || (next == 2 * top - ocr && ocr <= top - 2)
  {
  }

  lemma SameMode(u: Setup, s: State, top: nat, n: nat)
    requires Counting(u, s, top)
    ensures var w, w' := Mode(u, After(u, s, top, n)), Mode(u, s);
            w.DualSlope() == w'.DualSlope() && w.settovAt == w'.settovAt
  {
    hide Step;
  }

  /** The counter along its waveform. */
  lemma WaveAfter(u: Setup, s: State, top: nat, n: nat)
    requires CountStart(u, s, top)
    ensures
      var s', p := After(u, s, top, n), Prescaler(u);
      s'.scnt == Subclocks(n, p) && (s'.dir, s'.tcnt) == Wave(Mode(u, s).DualSlope(), Clocks(n, p), top)
  {
    hide After, Clocks, Subclocks, Prescaler;
    if Mode(u, s).DualSlope() {
      DualSlopeCounter(u, s, top, n);
    } else {
      SingleSlopeCounter(u, s, top, n);
    }
  }

  /** What one update leaves pending on a channel. */
  lemma PendingStep(u: Setup, s: State, top: nat, c: nat, ocr: nat)
    requires Counting(u, s, top) && u.wgm.Some? && c < |s.comps| && SteadyOcr(s.comps[c], Mode(u, s), ocr)
    ensures
      var s' := Step(u, s);
      && Counting(u, s', top) && |s'.comps| == |s.comps| && SteadyOcr(s'.comps[c], Mode(u, s'), ocr)
      && var kept := s.comps[c].pending && s.scnt != Prescaler(u) - 2;
         s'.comps[c].pending == (kept || (s.scnt == Prescaler(u) - 1 && Matches(s.dir, s.tcnt, ocr)))
  {
    hide Step, Prescaler, ClockComp, Matches;
    StepCounts(u, s, top);
    PrescalerBound(u, s);
    ChannelStep(u, s, c);
    var c0 := if Raises(u, s) then s.comps[c].Raise() else s.comps[c];
    CompareClock(c0, Mode(u, s), u.wgm.value, s.dir, s.tcnt, ocr);
  }

  /** What is pending after n updates: the match of the last clock, until the update before the next one. */
  lemma {:induction false} PendingAfter(u: Setup, s: State, top: nat, c: nat, ocr: nat, n: nat)
    requires CompareStart(u, s, top, c, ocr) && Prescaler(u) >= 2
    ensures
      var s', p := After(u, s, top, n), Prescaler(u);
      && SteadyOcr(s'.comps[c], Mode(u, s'), ocr)
      && s'.scnt == Subclocks(n, p)
      && (s'.comps[c].pending <==>
          MatchClock(Mode(u, s).DualSlope(), Clocks(n, p), top, ocr) && Subclocks(n, p) <= p - 2)
    decreases n
  {
    hide Step, Prescaler, Clocks, Subclocks, ClockComp, SteadyOcr, Mode, Wgm.DualSlope, MatchClock, Wave, Matches;
    var dual, p := Mode(u, s).DualSlope(), Prescaler(u);
    MatchClockNext(dual, 0, top, ocr);
    ClocksNext(0, p);
    WaveAfter(u, s, top, n);
    if n > 0 {
      PendingAfter(u, s, top, c, ocr, n - 1);
      WaveAfter(u, s, top, n - 1);
      ClocksNext(n - 1, p);
      MatchClockNext(dual, Clocks(n - 1, p), top, ocr);
      PendingStep(u, After(u, s, top, n - 1), top, c, ocr);
    }
  }

  /** The update with r system clocks behind clock `phase` of period j. */
  function Instant(j: nat, p: nat, period: nat, phase: nat, r: int): int {
    p * (period * j + phase) + r
  }

  /** Update n is that of some period. */
  ghost predicate OncePerPeriod(n: int, p: nat, period: nat, phase: nat, r: int) {
    exists j: nat :: n == Instant(j, p, period, phase, r)
  }

  lemma InstantIff(n: nat, p: nat, period: nat, phase: nat, r: nat)
    requires r < p && phase < period
    ensures Clocks(n, p) % period == phase && Subclocks(n, p) == r <==> OncePerPeriod(n, p, period, phase, r)
  {
    if Clocks(n, p) % period == phase && Subclocks(n, p) == r {
      var t := Clocks(n, p);
      var j, k := DivMod(t, period);
      assert n == p * t + r;
      assert n == Instant(j, p, period, phase, r);
    }
    forall j: nat | n == Instant(j, p, period, phase, r)
      ensures Clocks(n, p) == period * j + phase && Clocks(n, p) % period == phase && Subclocks(n, p) == r
    {
      ClockOfInstant(j, n, p, period, phase, r);
    }
  }

  lemma ClockOfInstant(j: nat, n: nat, p: nat, period: nat, phase: nat, r: nat)
    requires r < p && phase < period && n == Instant(j, p, period, phase, r)
    ensures Clocks(n, p) == period * j + phase && Clocks(n, p) % period == phase && Subclocks(n, p) == r
  {
    var t := period * j + phase;
    DivModUnique(n, p, t, r);
    DivModUnique(t, period, j, phase);
  }

  /** The updates that raise a flag: the last but one behind a clock that matches. */
  lemma RaisedIff(u: Setup, s: State, top: nat, c: nat, ocr: nat, n: nat)
    requires CompareStart(u, s, top, c, ocr) && Prescaler(u) >= 2
    ensures var p := Prescaler(u);
            RaisedAt(u, s, top, c, n) <==>
            MatchClock(Mode(u, s).DualSlope(), Clocks(n, p), top, ocr) && Subclocks(n, p) == p - 2
  {
    PendingAfter(u, s, top, c, ocr, n);
    PrescalerBound(u, After(u, s, top, n));
    hide CompareStart, Prescaler, MatchClock, Clocks, Subclocks;
  }

  /**
    Compare interrupts in single slope: with a prescaler p of at least 2 and
    1 <= OCR <= TOP, the flag is raised exactly once in each period of TOP + 1
    clocks, at the instants above and at no other update.
   */
  lemma InterruptInstants(u: Setup, s: State, top: nat, c: nat, ocr: nat, n: nat)
    requires CompareStart(u, s, top, c, ocr) && Prescaler(u) >= 2 && !Mode(u, s).DualSlope()
    ensures var p := Prescaler(u);
            RaisedAt(u, s, top, c, n) <==> OncePerPeriod(n, p, top + 1, ocr, p - 2)
  {
    hide Prescaler, OncePerPeriod, Clocks, Subclocks, RaisedAt;
    RaisedIff(u, s, top, c, ocr, n);
    InstantIff(n, Prescaler(u), top + 1, ocr, Prescaler(u) - 2);
  }

  /**
    In dual slope it is raised twice in each period of 2 * TOP clocks, on the way up and on the
    way down; but never again on the way up for OCR = 1, and never on the way down for
    OCR >= TOP - 1.
   */
  lemma DualInterruptInstants(u: Setup, s: State, top: nat, c: nat, ocr: nat, n: nat)
    requires CompareStart(u, s, top, c, ocr) && Prescaler(u) >= 2 && Mode(u, s).DualSlope()
    ensures
      var p := Prescaler(u);
      RaisedAt(u, s, top, c, n) <==>
      || (if ocr >= 2 then OncePerPeriod(n, p, 2 * top, ocr, p - 2) else n == Instant(0, p, 2 * top, ocr, p - 2))
      || (ocr <= top - 2 && OncePerPeriod(n, p, 2 * top, 2 * top - ocr, p - 2))
  {
    hide Prescaler, OncePerPeriod, Instant, MatchClock, Clocks, Subclocks, RaisedAt;
    RaisedIff(u, s, top, c, ocr, n);
    DualMatches(n, Prescaler(u), top, ocr, Prescaler(u) - 2);
  }

  lemma DualMatches(n: nat, p: nat, top: nat, ocr: nat, r: nat)
    requires r < p && 1 <= ocr <= top
    ensures
      MatchClock(true, Clocks(n, p), top, ocr) && Subclocks(n, p) == r <==>
      || (if ocr >= 2 then OncePerPeriod(n, p, 2 * top, ocr, r) else n == Instant(0, p, 2 * top, ocr, r))
      || (ocr <= top - 2 && OncePerPeriod(n, p, 2 * top, 2 * top - ocr, r))
  {
    hide OncePerPeriod, Instant, Clocks, Subclocks;
    var t := Clocks(n, p);
    DivModUnique(1, 2 * top, 0, 1);
    InstantIff(n, p, 2 * top, ocr, r);
    InstantIff(n, p, 2 * top, 2 * top - ocr, r);
    FirstInstant(n, p, 2 * top, ocr, r);
  }

  /** The instant in the first period. */
  lemma FirstInstant(n: nat, p: nat, period: nat, phase: nat, r: nat)
    requires r < p && phase < period
    ensures Clocks(n, p) == phase && Subclocks(n, p) == r <==> n == Instant(0, p, period, phase, r)
  {
    if n == Instant(0, p, period, phase, r) {
      ClockOfInstant(0, n, p, period, phase, r);
    }
    assert p * Clocks(n, p) + Subclocks(n, p) == n;
    hide Clocks, Subclocks;
  }

  /** Instants of the same phase are one period apart. */
  lemma InstantsApart(j: nat, p: nat, period: nat, phase: nat, r: int)
    ensures Instant(j + 1, p, period, phase, r) == Instant(j, p, period, phase, r) + p * period
  {
    MulDistributes(period, j, 1);
    MulDistributes(p, period * j + phase, period);
  }

  // ---------- overflow ----------

  /** Update n raises the overflow flag. */
  ghost predicate OverflowAt(u: Setup, s: State, top: nat, n: nat)
    requires Counting(u, s, top)
  {
    var s' := After(u, s, top, n);
    Step(u, s'.(overflow := false)).overflow
  }

  /** The clock of a period at which a mode raises overflow. */
  function OverflowPhase(when: When, dual: bool, top: nat): Option<nat>
    requires top >= 1
  {
    match when
    case AtTop => Some(top - 1)
    case AtMax => Some(top - 1)
    case AtBottom => Some(if dual then 2 * top - 1 else top)
    case _ => None
  }

  lemma ComesAt(when: When, w: Wgm, t: nat)
    requires 1 <= w.Top() < 0x1_0000
    ensures
      var (dir, tcnt) := Wave(w.DualSlope(), t, w.Top());
      Comes(when, w, dir, tcnt) <==>
      if w.DualSlope() && w.Top() == 1 then (when == AtTop || when == AtMax) && t == 0
      else OverflowPhase(when, w.DualSlope(), w.Top()) == Some(t % Period(w.DualSlope(), w.Top()))
  {
    DivModUnique(0, Period(w.DualSlope(), w.Top()), 0, 0);
    hide Wgm.Top, Wgm.DualSlope;
  }

  /**
    The overflow flag is raised at exactly one clock of each period, at TOP or at BOTTOM as the
    mode says; but in dual slope up to 1, where the counter turns too late, at most at the first.
   */
  lemma OverflowInstants(u: Setup, s: State, top: nat, n: nat)
    requires CountStart(u, s, top)
    ensures
      var w, p := Mode(u, s), Prescaler(u);
      OverflowAt(u, s, top, n) <==>
      if w.DualSlope() && top == 1 then (w.settovAt == AtTop || w.settovAt == AtMax) && n == p - 1
      else
      match OverflowPhase(w.settovAt, w.DualSlope(), top)
      case None => false
      case Some(phase) => OncePerPeriod(n, p, Period(w.DualSlope(), top), phase, p - 1)
  {
    hide Step, Prescaler, Clocks, Subclocks, OncePerPeriod, Comes, Wave, ClockComps, RaiseComps, LoadWgms, Count;
    var w, p, s' := Mode(u, s), Prescaler(u), After(u, s, top, n);
    WaveAfter(u, s, top, n);
    SameMode(u, s, top, n);
    ModeOf(u, s', s'.(overflow := false));
    PrescalerBound(u, s');
    ClockedStep(u, s'.(overflow := false));
    ComesAt(w.settovAt, Mode(u, s'), Clocks(n, p));
    var phase := OverflowPhase(w.settovAt, w.DualSlope(), top);
    FirstUpdates(n, p);
    if phase.Some? {
      InstantIff(n, p, Period(w.DualSlope(), top), phase.value, p - 1);
    }
  }

  lemma FirstUpdates(n: nat, p: nat)
    requires p > 0
    ensures Clocks(n, p) == 0 && Subclocks(n, p) == p - 1 <==> n == p - 1
  {
    if n == p - 1 {
      DivModUnique(n, p, 0, n);
    }
  }

  // ---------- no interrupts without a prescaler ----------

  /** Without a prescaler no update raises a flag: that takes a prescaler of at least 2. */
  lemma NoInterruptWithoutPrescaler(u: Setup, s: State, c: nat)
    requires Clocked(u, s) && s.scnt < 0x8000_0000 && c < |s.comps| && u.wgm.Some?
    requires Prescaler(u) == 1 && !s.comps[c].raised
    ensures !Step(u, s).comps[c].raised
  {
    ChannelStep(u, s, c);
  }

  /** So it is after any number of updates. */
  lemma {:induction false} NeverRaised(u: Setup, s: State, top: nat, c: nat, n: nat)
    requires Counting(u, s, top) && c < |s.comps| && u.wgm.Some? && Prescaler(u) == 1 && !s.comps[c].raised
    ensures !After(u, s, top, n).comps[c].raised
    decreases n
  {
    hide Step;
    if n > 0 {
      NeverRaised(u, s, top, c, n - 1);
      PrescalerBound(u, s);
      NoInterruptWithoutPrescaler(u, After(u, s, top, n - 1), c);
    }
  }
}
