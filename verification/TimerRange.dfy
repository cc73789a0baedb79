/**
  When the counter of the timer stays within TOP (src/avr/avr_timer.c): for one update, for
  what firmware does between updates, and over whole runs.
 */
module TimerRange {
  import opened Arithmetic
  import opened Basics
  import opened Timer
  import opened TimerRuns

  /** The counter is within the TOP that is in effect. */
  ghost predicate InRange(u: Setup, s: State)
    requires u.Valid(s)
  {
    s.tcnt <= Mode(u, s).Top()
  }

  /** The timer is stopped or disabled: an update loads all buffers and does not count. */
  predicate Halted(u: Setup) {
    u.clockDefined && (u.disabled || (u.cs == 0 && |u.csDiv| > 0))
  }

  // ---------- loading TOP ----------

  /** A register gives TOP, by way of a buffer that is loaded. */
  ghost predicate Buffered(u: Setup, s: State)
    requires u.Valid(s)
  {
    && u.wgm.Some? && Mode(u, s).rtop.Some? && Mode(u, s).updocrAt != AtImmediate
    && forall k :: 0 <= k <= u.wgm.value ==> !s.wgms[k].Empty()
  }

  /** TOP once the buffers were loaded. */
  lemma LoadedTop(u: Setup, s: State, s': State)
    requires u.Valid(s) && u.Valid(s') && s'.wgms == LoadWgms(s.wgms)
    ensures Mode(u, s').Top() == if Buffered(u, s) then Mode(u, s).rtop.value else Mode(u, s).Top()
  {
    hide LoadWgms;
    if u.wgm.Some? {
      LoadWgmsAt(s.wgms, u.wgm.value);
    }
  }

  // ---------- one update ----------

  /** The counter turns or wraps at the ends of its range. */
  predicate Turns(w: Wgm, dir: Dir, tcnt: nat, modulus: nat) {
    if w.DualSlope() then w.Top() >= 1
    else dir == Up || tcnt > 0 || w.Top() == 0 || w.Top() >= modulus - 1
  }

  /** When the next counter value is within TOP. */
  lemma CountInRangeIff(w: Wgm, dir: Dir, tcnt: nat, modulus: nat)
    requires tcnt <= w.Top() && tcnt < modulus && modulus > 1
    ensures Count(w.DualSlope(), dir, tcnt, w.Top(), modulus).1 <= w.Top() <==> Turns(w, dir, tcnt, modulus)
  {
    if tcnt == 0 {
      DivModUnique(-1, modulus, -1, modulus - 1);
    } else {
      DivModUnique(tcnt - 1, modulus, 0, tcnt - 1);
    }
    if tcnt < modulus - 1 {
      DivModUnique(tcnt + 1, modulus, 0, tcnt + 1);
    } else {
      DivModUnique(tcnt + 1, modulus, 1, 0);
    }
    hide Wgm.Top, Wgm.DualSlope;
  }

  /** Buffers are loaded one count before TOP, counting up. */
  predicate LoadsEarly(w: Wgm, dir: Dir, tcnt: nat) {
    (w.updocrAt == AtTop || w.updocrAt == AtMax) && ReachesTop(dir, tcnt, w.Top())
  }

  lemma EarlyComes(w: Wgm, dir: Dir, tcnt: nat)
    ensures LoadsEarly(w, dir, tcnt) ==> Comes(w.updocrAt, w, dir, tcnt)
  {
  }

  /** At a clock that loads buffers the counter goes up by one or to zero. */
  lemma CountAtLoad(w: Wgm, dir: Dir, tcnt: nat, modulus: nat)
    requires Comes(w.updocrAt, w, dir, tcnt) && tcnt <= w.Top()
    requires tcnt < modulus && (modulus == 0x100 || modulus == 0x1_0000)
    ensures Turns(w, dir, tcnt, modulus)
    ensures Count(w.DualSlope(), dir, tcnt, w.Top(), modulus).1 ==
            if LoadsEarly(w, dir, tcnt) then (tcnt + 1) % modulus else 0
  {
    hide Wgm.Top, Wgm.DualSlope;
  }

  /**
    What keeps the counter within TOP over an update.  A timer that is halted loads TOP at
    once: the register must not be below the counter.  A clock must let the counter turn or
    wrap, and if it loads TOP early the register must not be below the next count.
   */
  ghost predicate UpdateFits(u: Setup, s: State)
    requires u.Valid(s)
  {
    var w := Mode(u, s);
    if Halted(u) then Buffered(u, s) ==> s.tcnt <= w.rtop.value
    else if Clocked(u, s) && Ticks(u, s) then
      && Turns(w, s.dir, s.tcnt, u.modulus)
      && (Buffered(u, s) && LoadsEarly(w, s.dir, s.tcnt) ==> (s.tcnt + 1) % u.modulus <= w.rtop.value)
    else true
  }

  /** Updates that are not clocks of a clocked timer. */
  lemma IdleStep(u: Setup, s: State)
    requires u.Valid(s) && s.scnt < 0x8000_0000 && !Clocked(u, s)
    ensures
      var s' := Step(u, s);
      && u.Valid(s') && s'.scnt < 0x8000_0000 && s'.tcnt == s.tcnt && s'.dir == s.dir
      && s'.wgms == if Halted(u) then LoadWgms(s.wgms) else s.wgms
  {
    hide LoadWgms, Pow2;
    assert u.wgm.Some? ==> AllKnown(LoadComps(s.comps), u.wgm.value);
  }

  /** An update leaves the counter within TOP if and only if it fits. */
  lemma UpdateInRangeIff(u: Setup, s: State)
    requires u.Valid(s) && s.scnt < 0x8000_0000 && InRange(u, s)
    ensures u.Valid(Step(u, s)) && Step(u, s).scnt < 0x8000_0000
    ensures InRange(u, Step(u, s)) <==> UpdateFits(u, s)
  {
    hide Step, LoadWgms, Count, Turns, LoadsEarly, Comes, Prescaler, ClockComps, Buffered, Mode;
    var s', w := Step(u, s), Mode(u, s);
    if !Clocked(u, s) {
      IdleStep(u, s);
      if Halted(u) {
        LoadedTop(u, s, s');
      } else {
        ModeOf(u, s, s');
      }
    } else {
      ClockedStep(u, s);
      PrescalerBound(u, s);
      CountInRangeIff(w, s.dir, s.tcnt, u.modulus);
      if Ticks(u, s) && Comes(w.updocrAt, w, s.dir, s.tcnt) {
        CountAtLoad(w, s.dir, s.tcnt, u.modulus);
        LoadedTop(u, s, s');
      } else {
        EarlyComes(w, s.dir, s.tcnt);
        ModeOf(u, s, s');
      }
    }
  }
  // ---------- updates that do not fit ----------

  /** Timer 1 with a wide counter, no channels and one mode; cs 0 stops it, cs 1 is clock/1. */
  function Wide(cs: nat): Setup {
    Setup(true, false, cs, [0, 0], Some(0), 16, 0x1_0000)
  }

  function At(dir: Dir, tcnt: nat, w: Wgm): State {
    State(0, 1, dir, tcnt, false, [], [w])
  }

  function ByBuffer(kind: Kind, updocrAt: When, register: nat, buffer: nat): Wgm {
    Wgm(kind, 0, 0, 0, updocrAt, AtBottom, Some(register), buffer)
  }

  /** An update takes the counter out of its range. */
  ghost predicate Escapes(u: Setup, s: State) {
    && u.Valid(s) && s.scnt < 0x8000_0000 && InRange(u, s)
    && u.Valid(Step(u, s)) && !InRange(u, Step(u, s))
  }

  lemma EscapesIff(cs: nat, dir: Dir, tcnt: nat, w: Wgm)
    requires cs <= 1 && tcnt < 0x1_0000
    ensures Wide(cs).Valid(At(dir, tcnt, w))
    ensures Escapes(Wide(cs), At(dir, tcnt, w)) <==> tcnt <= w.Top() && !UpdateFits(Wide(cs), At(dir, tcnt, w))
  {
    hide Step, UpdateFits, Wgm.Top;
    if tcnt <= w.Top() {
      UpdateInRangeIff(Wide(cs), At(dir, tcnt, w));
    }
  }

  /** Stopping the timer loads a TOP of 10 under a counter at 500. */
  lemma StopEscapes()
    ensures Escapes(Wide(0), At(Up, 500, ByBuffer(PfcPwm, AtBottom, 10, 1000)))
  {
    hide Escapes;
    EscapesIff(0, Up, 500, ByBuffer(PfcPwm, AtBottom, 10, 1000));
  }

  /** The clock from 999 to 1000, the old TOP, loads a TOP of 10. */
  lemma EarlyLoadEscapes()
    ensures Escapes(Wide(1), At(Up, 999, ByBuffer(PcPwm, AtTop, 10, 1000)))
  {
    hide Escapes;
    EscapesIff(1, Up, 999, ByBuffer(PcPwm, AtTop, 10, 1000));
    assert Prescaler(Wide(1)) == 1;
  }

  /** A single-slope counter that counts down runs from zero to the last counter value. */
  lemma DownwardEscapes()
    ensures Escapes(Wide(1), At(Down, 0, ByBuffer(FastPwm, AtBottom, 10, 1000)))
  {
    hide Escapes;
    EscapesIff(1, Down, 0, ByBuffer(FastPwm, AtBottom, 10, 1000));
    assert Prescaler(Wide(1)) == 1;
  }

  /** A TOP of zero lets a dual-slope counter escape: from 0 it runs to the last counter value. */
  lemma DualSlopeTopZeroEscapes(u: Setup, s: State)
    requires Clocked(u, s) && s.scnt < 0x8000_0000 && Ticks(u, s)
    requires Mode(u, s).DualSlope() && Mode(u, s).Top() == 0 && s.tcnt == 0
    ensures Step(u, s).tcnt == u.modulus - 1 > 0
  {
    ClockedStep(u, s);
  }

  // ---------- firmware between updates ----------

  /** What keeps the counter within TOP while firmware takes setting and state to u' and s'. */
  ghost predicate WriteFits(u: Setup, u': Setup, s': State)
    requires u'.Valid(s')
  {
    var w := Mode(u', s');
    if u'.wgm == u.wgm then w.rtop.Some? && w.updocrAt == AtImmediate ==> s'.tcnt <= w.rtop.value
    else s'.tcnt <= w.Top()
  }

  /**
    Firmware leaves the counter within TOP if and only if its writes fit: writing a buffered
    TOP register always does, one that is in effect at once must not go below the counter,
    and neither must the TOP of a mode that is selected.
   */
  lemma WriteInRangeIff(u: Setup, s: State, u': Setup, s': State)
    requires u.Valid(s) && u'.Valid(s') && Firmware(s, s') && InRange(u, s) && u'.size == u.size
    ensures InRange(u', s') <==> WriteFits(u, u', s')
  {
    if u'.wgm == u.wgm && u.wgm.Some? {
      assert WritesTop(s.wgms[u.wgm.value], s'.wgms[u.wgm.value]);
    }
  }

  // ---------- runs ----------

  ghost predicate RunStart(us: seq<Setup>, ss: seq<State>) {
    Run(us, ss) && ss != [] && ss[0].scnt < 0x8000_0000 && InRange(us[0], ss[0])
  }

  /** The counter is within TOP before and after every update. */
  ghost predicate AlwaysInRange(us: seq<Setup>, ss: seq<State>)
    requires RunStart(us, ss)
  {
    forall k :: 0 <= k < |ss| ==> InRangeAt(us, ss, k)
  }

  ghost predicate InRangeAt(us: seq<Setup>, ss: seq<State>, k: nat)
    requires RunStart(us, ss) && k < |ss|
  {
    && InRange(us[k], ss[k])
    && us[k].Valid(Step(us[k], ss[k])) && InRange(us[k], Step(us[k], ss[k]))
  }

  /** Update k fits, and so does what firmware did before it. */
  ghost predicate FitsAt(us: seq<Setup>, ss: seq<State>, k: nat)
    requires RunStart(us, ss) && k < |ss|
  {
    UpdateFits(us[k], ss[k]) && (k > 0 ==> WriteFits(us[k - 1], us[k], ss[k]))
  }

  lemma RunStep(us: seq<Setup>, ss: seq<State>, k: nat)
    requires Run(us, ss) && 0 < k < |ss|
    ensures us[k - 1].Valid(ss[k - 1]) && us[k].Valid(ss[k]) && us[k].size == us[k - 1].size
    ensures Firmware(Step(us[k - 1], ss[k - 1]), ss[k])
  {
  }

  /** From one update to the next the counter stays within TOP if and only if what happens fits. */
  lemma NextInRange(us: seq<Setup>, ss: seq<State>, k: nat)
    requires RunStart(us, ss) && 0 < k < |ss| && InRangeAt(us, ss, k - 1) && ss[k - 1].scnt < 0x8000_0000
    ensures ss[k].scnt < 0x8000_0000
    ensures InRangeAt(us, ss, k) <==> FitsAt(us, ss, k)
  {
    hide Step, UpdateFits, WriteFits, InRange;
    RunStep(us, ss, k);
    var s := Step(us[k - 1], ss[k - 1]);
    UpdateInRangeIff(us[k - 1], ss[k - 1]);
    WriteInRangeIff(us[k - 1], s, us[k], ss[k]);
    if InRange(us[k], ss[k]) {
      UpdateInRangeIff(us[k], ss[k]);
    }
  }

  /** As long as everything fits, the counter is within TOP, and the other way round. */
  lemma {:induction false} RangeSoFar(us: seq<Setup>, ss: seq<State>, k: nat)
    requires RunStart(us, ss) && k < |ss|
    ensures (forall j :: 0 <= j <= k ==> InRangeAt(us, ss, j)) <==> (forall j :: 0 <= j <= k ==> FitsAt(us, ss, j))
    ensures (forall j :: 0 <= j <= k ==> FitsAt(us, ss, j)) ==> ss[k].scnt < 0x8000_0000
    decreases k
  {
    hide InRangeAt, FitsAt, Run;
    if k == 0 {
      FirstInRange(us, ss);
    } else {
      RangeSoFar(us, ss, k - 1);
      if forall j :: 0 <= j <= k - 1 ==> InRangeAt(us, ss, j) {
        NextInRange(us, ss, k);
      }
    }
  }

  lemma FirstInRange(us: seq<Setup>, ss: seq<State>)
    requires RunStart(us, ss)
    ensures InRangeAt(us, ss, 0) <==> FitsAt(us, ss, 0)
  {
    hide Step, UpdateFits, InRange;
    UpdateInRangeIff(us[0], ss[0]);
  }

  /**
    Over every run, in which firmware writes registers, changes modes, and stops, starts and
    disables the timer: the counter is always within TOP if and only if every update and
    everything firmware does in between fits.
   */
  lemma CounterInRangeIff(us: seq<Setup>, ss: seq<State>)
    requires RunStart(us, ss)
    ensures AlwaysInRange(us, ss) <==> forall k :: 0 <= k < |ss| ==> FitsAt(us, ss, k)
  {
    hide InRangeAt, FitsAt;
    RangeSoFar(us, ss, |ss| - 1);
  }

  // ---------- modes that load TOP at BOTTOM ----------

  /** TOP is loaded from a register at BOTTOM; it is not zero in dual slope, where the counter may count down. */
  ghost predicate BottomMode(u: Setup, s: State) {
    && u.Valid(s) && s.scnt < 0x8000_0000
    && var w := Mode(u, s);
      && w.updocrAt == AtBottom && w.rtop.Some?
      && if w.DualSlope() then 1 <= w.Top() && 1 <= w.rtop.value else s.dir == Up
  }

  /** Single-slope counters keep their direction. */
  lemma DirectionKept(u: Setup, s: State)
    requires u.Valid(s) && s.scnt < 0x8000_0000 && !Mode(u, s).DualSlope()
    ensures Step(u, s).dir == s.dir
  {
    hide LoadWgms, Pow2, ClockComps, RaiseComps, LoadComps, ClearPending;
  }

  /** An update keeps such a mode. */
  lemma UpdateKeepsMode(u: Setup, s: State)
    requires BottomMode(u, s)
    ensures BottomMode(u, Step(u, s)) && Mode(u, Step(u, s)).DualSlope() == Mode(u, s).DualSlope()
  {
    hide Step, LoadWgms, Pow2, Prescaler, ClockComps, RaiseComps, Count;
    var s' := Step(u, s);
    if Clocked(u, s) {
      ClockedStep(u, s);
      PrescalerBound(u, s);
    } else {
      IdleStep(u, s);
    }
    if !Mode(u, s).DualSlope() {
      DirectionKept(u, s);
    }
    ModeAfter(u, s, s'.wgms);
    ModeOf(u, s.(wgms := s'.wgms), s');
  }

  /**
    In a mode that loads TOP at BOTTOM the counter stays within TOP over every run in which the
    register is at least 1 in dual slope, and is not below the counter when the timer is
    stopped or disabled: it may be written at any other time.
   */
  lemma {:induction false} CounterStaysInRange(us: seq<Setup>, ss: seq<State>, k: nat)
    requires RunStart(us, ss) && ModeRun(us, ss) && BottomMode(us[0], ss[0]) && k < |ss|
    requires forall j :: 0 <= j < |ss| ==> RegisterFits(us[j], ss[j])
    ensures BottomMode(us[k], ss[k]) && InRangeAt(us, ss, k)
    decreases k
  {
    hide Step, Turns, InRange, Firmware;
    if k == 0 {
      BottomFits(us[0], ss[0]);
      UpdateInRangeIff(us[0], ss[0]);
    } else {
      CounterStaysInRange(us, ss, k - 1);
      BottomNext(us, ss, k);
      BottomFits(us[k], ss[k]);
      NextInRange(us, ss, k);
    }
  }

  ghost predicate RegisterFits(u: Setup, s: State) {
    u.Valid(s) && Mode(u, s).rtop.Some? ==>
      && (Mode(u, s).DualSlope() ==> 1 <= Mode(u, s).rtop.value)
      && (Halted(u) ==> s.tcnt <= Mode(u, s).rtop.value)
  }

  /** In such a mode an update fits when the register does. */
  lemma BottomFits(u: Setup, s: State)
    requires BottomMode(u, s) && RegisterFits(u, s)
    ensures UpdateFits(u, s)
  {
  }

  lemma BottomNext(us: seq<Setup>, ss: seq<State>, k: nat)
    requires ModeRun(us, ss) && 0 < k < |ss| && us[k - 1].Valid(ss[k - 1]) && us[k].Valid(ss[k])
    requires BottomMode(us[k - 1], ss[k - 1]) && RegisterFits(us[k], ss[k])
    ensures BottomMode(us[k], ss[k]) && WriteFits(us[k - 1], us[k], ss[k])
  {
    hide Step;
    RunStep(us, ss, k);
    UpdateKeepsMode(us[k - 1], ss[k - 1]);
    var s, m := Step(us[k - 1], ss[k - 1]), us[k].wgm;
    if m.Some? {
      assert WritesTop(s.wgms[m.value], ss[k].wgms[m.value]);
    }
  }
}
