/**
  Runs of the timer: the counter over any number of updates, and what firmware may
  do in between (src/avr/avr_timer.c).
 */
module TimerRuns {
  import opened Arithmetic
  import opened Basics
  import opened Timer

  // ---------- one step of a clocked timer ----------

  /** A clock source is selected and the mode is one that counts. */
  ghost predicate Clocked(u: Setup, s: State) {
    && u.Valid(s)
    && u.clockDefined && !u.disabled && 0 < u.cs < |u.csDiv|
    && Mode(u, s).Runs()
  }

  function Prescaler(u: Setup): (p: nat)
    requires u.cs < |u.csDiv|
    ensures p > 0
  {
    Pow2(u.csDiv[u.cs])
  }

  lemma {:induction false} Pow2Grows(j: nat, k: nat)
    requires j <= k
    ensures Pow2(j) <= Pow2(k)
  {
    if j < k {
      Pow2Grows(j, k - 1);
    }
  }

  lemma Pow2Of31()
    ensures Pow2(31) == 0x8000_0000
  {
    assert Pow2(8) == 0x100;
    assert Pow2(16) == 0x1_0000;
    assert Pow2(24) == 0x100_0000;
  }

  lemma PrescalerBound(u: Setup, s: State)
    requires u.Valid(s) && u.cs < |u.csDiv|
    ensures 1 <= Prescaler(u) <= 0x8000_0000
    ensures Minus(Prescaler(u), 1) == Prescaler(u) - 1
    ensures Minus(Prescaler(u), 2) == if Prescaler(u) == 1 then WORD - 1 else Prescaler(u) - 2
  {
    Pow2Grows(u.csDiv[u.cs], 31);
    Pow2Of31();
  }

  /** This update is a clock of the timer, not only of the prescaler. */
  ghost predicate Ticks(u: Setup, s: State)
    requires u.cs < |u.csDiv|
  {
    s.scnt >= Prescaler(u) - 1
  }

  /** Pending compare flags are raised by this update. */
  ghost predicate Raises(u: Setup, s: State)
    requires u.cs < |u.csDiv|
  {
    Prescaler(u) >= 2 && s.scnt == Prescaler(u) - 2
  }

  lemma {:induction false} LoadWgmsAt(wgms: seq<Wgm>, m: nat)
    requires m < |wgms|
    ensures LoadWgms(wgms)[m] == if forall k :: 0 <= k <= m ==> !wgms[k].Empty() then wgms[m].Load() else wgms[m]
    decreases m
  {
    hide Wgm.Empty, Wgm.Load;
    if !wgms[0].Empty() && m > 0 {
      var rest := wgms[1..];
      LoadWgmsAt(rest, m - 1);
      assert LoadWgms(wgms)[m] == LoadWgms(rest)[m - 1];
      assert forall k :: 0 <= k < m ==> rest[k] == wgms[k + 1];
      if forall k :: 0 <= k < m ==> !rest[k].Empty() {
        forall k | 0 <= k <= m
          ensures !wgms[k].Empty()
        {
          assert k > 0 ==> wgms[k] == rest[k - 1];
        }
      }
    }
  }

  /** A step of a clocked timer, component by component. */
  lemma ClockedStep(u: Setup, s: State)
    requires Clocked(u, s) && s.scnt < 0x8000_0000
    ensures
      var s', w, cs := Step(u, s), Mode(u, s), if Raises(u, s) then RaiseComps(s.comps) else s.comps;
      && u.Valid(s') && s'.presc == Prescaler(u) && |s'.comps| == |s.comps| && |s'.wgms| == |s.wgms|
      && (!Ticks(u, s) ==> s' == s.(presc := Prescaler(u), scnt := s.scnt + 1, comps := cs))
      && (Ticks(u, s) ==>
          && AllKnown(cs, u.Index())
          && s'.scnt == 0
          && (s'.dir, s'.tcnt) == Count(w.DualSlope(), s.dir, s.tcnt, w.Top(), u.modulus)
          && s'.comps == ClockComps(cs, w, u.Index(), s.dir, s.tcnt)
          && s'.wgms == (if Comes(w.updocrAt, w, s.dir, s.tcnt) then LoadWgms(s.wgms) else s.wgms)
          && s'.overflow == (s.overflow || Comes(w.settovAt, w, s.dir, s.tcnt)))
  {
    PrescalerBound(u, s);
    var s1 := s.(presc := Prescaler(u));
    var s2 := if Raises(u, s) then s1.(comps := RaiseComps(s1.comps)) else s1;
    assert AllKnown(s2.comps, u.Index()) by {
      assert u.wgm.Some? ==> AllKnown(s1.comps, u.wgm.value);
    }
    assert Mode(u, s1) == Mode(u, s);
    hide LoadWgms, RaiseComps, Pow2;
    if Ticks(u, s) {
      var c := ClockComps(s2.comps, Mode(u, s), u.Index(), s.dir, s.tcnt);
      assert AllKnown(c, u.Index());
    }
  }

  /** The prescaler count stays below the prescaler, whatever prescaler was selected before. */
  lemma PrescalerCountBelow(u: Setup, s: State)
    requires Clocked(u, s) && s.scnt < 0x8000_0000
    ensures Step(u, s).scnt < Step(u, s).presc == Prescaler(u)
  {
    ClockedStep(u, s);
  }

  // ---------- firmware between updates ----------

  /**
    What firmware may change between two updates: compare registers, pin
    configuration and raised flags of the channels, and the registers used as TOP.
   */
  ghost predicate Firmware(s: State, s': State) {
    && s' == s.(comps := s'.comps, wgms := s'.wgms)
    && |s'.comps| == |s.comps| && |s'.wgms| == |s.wgms|
    && (forall c :: 0 <= c < |s.comps| ==> WritesComp(s.comps[c], s'.comps[c]))
    && (forall m :: 0 <= m < |s.wgms| ==> WritesTop(s.wgms[m], s'.wgms[m]))
  }

  ghost predicate WritesComp(c: Comp, c': Comp) {
    c' == c.(ocr := c'.ocr, ddp := c'.ddp, com := c'.com, raised := c'.raised)
  }

  ghost predicate WritesTop(w: Wgm, w': Wgm) {
    w' == w.(rtop := w'.rtop) && (w.rtop == None <==> w'.rtop == None)
  }

  // ---------- mode and counter over an update ----------

  lemma ModeAfter(u: Setup, s: State, wgms: seq<Wgm>)
    requires u.Valid(s) && (wgms == s.wgms || wgms == LoadWgms(s.wgms))
    ensures u.Valid(s.(wgms := wgms))
    ensures Mode(u, s.(wgms := wgms)) == Mode(u, s) ||
            (u.wgm.Some? && Mode(u, s.(wgms := wgms)) == Mode(u, s).Load())
  {
    if u.wgm.Some? {
      LoadWgmsAt(s.wgms, u.wgm.value);
    }
  }

  /** Mode depends on the mode table only. */
  lemma ModeOf(u: Setup, s: State, s': State)
    requires u.Valid(s) && u.Valid(s') && s.wgms == s'.wgms
    ensures Mode(u, s) == Mode(u, s')
  {
  }

  /** An update leaves the mode as it is, or loads its TOP buffer. */
  lemma ModeNext(u: Setup, s: State)
    requires Clocked(u, s) && s.scnt < 0x8000_0000
    ensures
      var s' := Step(u, s);
      && u.Valid(s') && Clocked(u, s') && s'.scnt < 0x8000_0000
      && (Mode(u, s') == Mode(u, s) || (u.wgm.Some? && Mode(u, s') == Mode(u, s).Load()))
  {
    ClockedStep(u, s);
    PrescalerBound(u, s);
    var s' := Step(u, s);
    hide Step, LoadWgms, Pow2, Prescaler, ClockComps, RaiseComps, Count;
    ModeAfter(u, s, s'.wgms);
    ModeOf(u, s.(wgms := s'.wgms), s');
  }

  /** The counters of the timer after an update. */
  lemma CounterNext(u: Setup, s: State)
    requires Clocked(u, s) && s.scnt < 0x8000_0000
    ensures
      var s' := Step(u, s);
      if Ticks(u, s) then
        s'.scnt == 0 && (s'.dir, s'.tcnt) == Count(Mode(u, s).DualSlope(), s.dir, s.tcnt, Mode(u, s).Top(), u.modulus)
      else
        s'.scnt == s.scnt + 1 && s'.dir == s.dir && s'.tcnt == s.tcnt && Mode(u, s') == Mode(u, s)
  {
    ClockedStep(u, s);
    hide Step, LoadWgms, Pow2, Prescaler, ClockComps, RaiseComps, Count;
  }

  /**
    A run: ss[k] is the state before update k, us[k] the setting of the timer then.  Between
    updates firmware may write registers, change the mode, and stop, start or disable the timer.
   */
  ghost predicate Run(us: seq<Setup>, ss: seq<State>) {
    && |us| == |ss| && (forall k :: 0 <= k < |ss| ==> us[k].Valid(ss[k]))
    && forall j, k :: 0 <= j && k == j + 1 < |ss| ==>
      us[j].size == us[k].size && us[j].modulus == us[k].modulus && Firmware(Step(us[j], ss[j]), ss[k])
  }

  /** A run in one mode. */
  ghost predicate ModeRun(us: seq<Setup>, ss: seq<State>) {
    Run(us, ss) && forall k :: 0 <= k < |us| ==> us[k].wgm == us[0].wgm
  }

  /**
    The TOP buffer of a mode is loaded if and only if no entry up to the mode is
    empty: behind an empty entry a register used as TOP never takes effect.
   */
  lemma TopLoadedIff(wgms: seq<Wgm>, m: nat)
    requires m < |wgms| && wgms[m].rtop.Some? && wgms[m].rtopBuf != wgms[m].rtop.value
    ensures LoadWgms(wgms)[m].rtopBuf == wgms[m].rtop.value <==> forall k :: 0 <= k <= m ==> !wgms[k].Empty()
  {
    LoadWgmsAt(wgms, m);
  }

  // ---------- the counter in closed form ----------

  /** TOP cannot change without a register write. */
  ghost predicate SteadyTop(w: Wgm, top: nat) {
    w.Top() == top && (w.rtop == None || w.updocrAt == AtImmediate || w.rtopBuf == w.rtop.value)
  }

  /** The mode, without its buffer. */
  function Unbuffered(w: Wgm): Wgm {
    w.(rtopBuf := 0)
  }

  /** A clocked timer that counts to a steady TOP. */
  ghost predicate Counting(u: Setup, s: State, top: nat) {
    && Clocked(u, s) && s.scnt < Prescaler(u)
    && SteadyTop(Mode(u, s), top) && top < u.modulus
  }

  /** n updates without firmware writes. */
  ghost function After(u: Setup, s: State, top: nat, n: nat): (s': State)
    requires Counting(u, s, top)
    ensures Counting(u, s', top)
    ensures Unbuffered(Mode(u, s')) == Unbuffered(Mode(u, s)) && |s'.comps| == |s.comps|
    ensures n > 0 ==> s'.presc == Prescaler(u)
    decreases n
  {
    if n == 0 then s
    else
      var s1 := After(u, s, top, n - 1);
      StepCounts(u, s1, top);
      Step(u, s1)
  }

  lemma StepCounts(u: Setup, s: State, top: nat)
    requires Counting(u, s, top)
    ensures var s' := Step(u, s);
      && Counting(u, s', top) && s'.presc == Prescaler(u)
      && Unbuffered(Mode(u, s')) == Unbuffered(Mode(u, s)) && |s'.comps| == |s.comps|
  {
    PrescalerBound(u, s);
    ModeNext(u, s);
    CounterNext(u, s);
    ClockedStep(u, s);
    hide Step, Prescaler, Count, ClockComps, RaiseComps, LoadWgms;
  }

  /** The timer clocks, and the system clocks since the last one, after n updates. */
  function Clocks(n: nat, p: nat): nat
    requires p > 0
  {
    n / p
  }

  function Subclocks(n: nat, p: nat): (r: nat)
    requires p > 0
    ensures r < p
  {
    n % p
  }

  lemma ClocksNext(n: nat, p: nat)
    requires p > 0
    ensures Clocks(0, p) == 0 && Subclocks(0, p) == 0
    ensures
      if Subclocks(n, p) == p - 1 then Clocks(n + 1, p) == Clocks(n, p) + 1 && Subclocks(n + 1, p) == 0
      else Clocks(n + 1, p) == Clocks(n, p) && Subclocks(n + 1, p) == Subclocks(n, p) + 1
  {
    DivModNext(n, p);
    DivModUnique(0, p, 0, 0);
  }

  /** The counter unit counting up in single slope. */
  lemma SawtoothNext(tcnt: nat, top: nat, modulus: nat)
    requires tcnt <= top < modulus
    ensures Count(false, Up, tcnt, top, modulus) == (Up, if tcnt == top then 0 else tcnt + 1)
  {
    if tcnt < top {
      DivModUnique(tcnt + 1, modulus, 0, tcnt + 1);
    }
  }

  /** One update on clock q of the timer and r of the prescaler, in single slope. */
  lemma SingleSlopeStep(u: Setup, s: State, top: nat, q: nat, r: nat)
    requires Counting(u, s, top) && !Mode(u, s).DualSlope()
    requires s.dir == Up && s.scnt == r && s.tcnt == q % (top + 1)
    ensures
      var s', next := Step(u, s), r == Prescaler(u) - 1;
      s'.dir == Up && s'.scnt == (if next then 0 else r + 1) && s'.tcnt == (if next then q + 1 else q) % (top + 1)
  {
    PrescalerBound(u, s);
    CounterNext(u, s);
    SawtoothNext(q % (top + 1), top, u.modulus);
    hide Step, Pow2, Prescaler, Count;
    DivModNext(q, top + 1);
  }

  /** Single slope: the counter is the number of timer clocks modulo TOP + 1. */
  lemma {:induction false} SingleSlopeCounter(u: Setup, s: State, top: nat, n: nat)
    requires Counting(u, s, top) && !Mode(u, s).DualSlope()
    requires s.scnt == 0 && s.tcnt == 0 && s.dir == Up
    ensures
      var s', p := After(u, s, top, n), Prescaler(u);
      s'.dir == Up && s'.scnt == Subclocks(n, p) && s'.tcnt == Clocks(n, p) % (top + 1)
    decreases n
  {
    if n > 0 {
      SingleSlopeCounter(u, s, top, n - 1);
      var s1, p := After(u, s, top, n - 1), Prescaler(u);
      assert After(u, s, top, n) == Step(u, s1);
      assert !Mode(u, s1).DualSlope();
      hide After, Step, Prescaler, Counting, Mode, Clocks, Subclocks;
      SingleSlopeStep(u, s1, top, Clocks(n - 1, p), Subclocks(n - 1, p));
      ClocksNext(n - 1, p);
    } else {
      ClocksNext(0, Prescaler(u));
      DivModUnique(0, top + 1, 0, 0);
    }
  }

  /** The phase of a dual-slope counter after t timer clocks. */
  function Phase(t: nat, top: nat): (k: nat)
    requires top >= 1
    ensures k < 2 * top
  {
    t % (2 * top)
  }

  /** The triangle wave between 0 and top, as a function of the phase. */
  function Triangle(k: nat, top: nat): nat
    requires k <= 2 * top
  {
    if k <= top then k else 2 * top - k
  }

  /** The counting direction at clock t of a dual-slope counter that starts upwards from 0. */
  function Slope(t: nat, top: nat): Dir
    requires top >= 1
  {
    if t == 0 || 1 <= Phase(t, top) <= top then Up else Down
  }

  lemma PhaseNext(t: nat, top: nat)
    requires top >= 1
    ensures Phase(0, top) == 0
    ensures Phase(t + 1, top) == if Phase(t, top) == 2 * top - 1 then 0 else Phase(t, top) + 1
  {
    DivModNext(t, 2 * top);
    DivModUnique(0, 2 * top, 0, 0);
  }

  /** The counter unit in dual slope moves along the triangle wave. */
  lemma TriangleNext(t: nat, top: nat, modulus: nat)
    requires 1 <= top < modulus
    ensures Count(true, Slope(t, top), Triangle(Phase(t, top), top), top, modulus) ==
            (Slope(t + 1, top), Triangle(Phase(t + 1, top), top))
  {
    PhaseNext(t, top);
    hide Phase;
    var k := Triangle(Phase(t, top), top);
    if k + 1 < modulus {
      DivModUnique(k + 1, modulus, 0, k + 1);
    }
    if k > 0 {
      DivModUnique(k - 1, modulus, 0, k - 1);
    }
  }

  /** One update on clock q of the timer and r of the prescaler, in dual slope. */
  lemma DualSlopeStep(u: Setup, s: State, top: nat, q: nat, r: nat)
    requires Counting(u, s, top) && Mode(u, s).DualSlope() && top >= 1
    requires s.scnt == r && s.tcnt == Triangle(Phase(q, top), top) && s.dir == Slope(q, top)
    ensures
      var s', next := Step(u, s), r == Prescaler(u) - 1;
      var q' := if next then q + 1 else q;
      && s'.scnt == (if next then 0 else r + 1)
      && s'.tcnt == Triangle(Phase(q', top), top) && s'.dir == Slope(q', top)
  {
    PrescalerBound(u, s);
    CounterNext(u, s);
    TriangleNext(q, top, u.modulus);
    hide Step, Pow2, Prescaler, Phase, Slope, Triangle, Count;
  }

  /** Dual slope: the counter is the triangle wave of period 2 * TOP in the number of timer clocks. */
  lemma {:induction false} DualSlopeCounter(u: Setup, s: State, top: nat, n: nat)
    requires Counting(u, s, top) && Mode(u, s).DualSlope() && top >= 1
    requires s.scnt == 0 && s.tcnt == 0 && s.dir == Up
    ensures
      var s', p := After(u, s, top, n), Prescaler(u);
      && s'.scnt == Subclocks(n, p)
      && s'.tcnt == Triangle(Phase(Clocks(n, p), top), top)
      && s'.dir == Slope(Clocks(n, p), top)
    decreases n
  {
    if n > 0 {
      DualSlopeCounter(u, s, top, n - 1);
      var s1, p := After(u, s, top, n - 1), Prescaler(u);
      assert After(u, s, top, n) == Step(u, s1);
      assert Mode(u, s1).DualSlope();
      hide After, Step, Prescaler, Counting, Mode, Phase, Slope, Clocks, Subclocks;
      DualSlopeStep(u, s1, top, Clocks(n - 1, p), Subclocks(n - 1, p));
      ClocksNext(n - 1, p);
    } else {
      ClocksNext(0, Prescaler(u));
      PhaseNext(0, top);
    }
  }
}
