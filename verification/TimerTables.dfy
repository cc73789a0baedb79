/**
  The mode table of the 16-bit timer of the ATmega8A and the ATmega328P: its entry 13 is
  empty, so that the TOP registers of modes 14 and 15 never take effect.
 */
module TimerTables {
  import opened Basics
  import opened Timer
  import opened TimerRuns

  // ---------- modes behind an empty entry ----------

  /** An update changes the mode table, if at all, by loading it, and moves the counter as the mode says. */
  lemma StepTable(u: Setup, s: State)
    requires u.Valid(s)
    ensures
      var s', w := Step(u, s), Mode(u, s);
      && (s'.wgms == s.wgms || s'.wgms == LoadWgms(s.wgms))
      && (s'.tcnt == s.tcnt || s'.tcnt == Count(w.DualSlope(), s.dir, s.tcnt, w.Top(), u.modulus).1)
  {
    hide LoadWgms, Pow2, ClockComps, RaiseComps, Count, LoadComps, ClearPending, Wgm.Top, Wgm.DualSlope, Wgm.Runs;
  }

  /** Over any run, an empty entry stays empty and the buffers behind it stay as they were. */
  lemma {:induction false} BuffersKept(us: seq<Setup>, ss: seq<State>, e: nat, m: nat, k: nat)
    requires Run(us, ss) && k < |ss| && e <= m < |ss[0].wgms| && ss[0].wgms[e].Empty()
    ensures |ss[k].wgms| == |ss[0].wgms| && ss[k].wgms[e].Empty()
    ensures ss[k].wgms[m] == ss[0].wgms[m].(rtop := ss[k].wgms[m].rtop)
    ensures ss[k].wgms[m].rtop == None <==> ss[0].wgms[m].rtop == None
    decreases k
  {
    hide Step, LoadWgms;
    if k > 0 {
      BuffersKept(us, ss, e, m, k - 1);
      var s := ss[k - 1];
      StepTable(us[k - 1], s);
      LoadWgmsAt(s.wgms, e);
      LoadWgmsAt(s.wgms, m);
      assert Firmware(Step(us[k - 1], s), ss[k]);
      assert WritesTop(Step(us[k - 1], s).wgms[e], ss[k].wgms[e])
        && WritesTop(Step(us[k - 1], s).wgms[m], ss[k].wgms[m]);
    }
  }

  /**
    A single-slope mode behind an empty entry whose buffer is zero at first: its counter, from
    zero, stays there over every run, whatever firmware writes to the register used as TOP.
   */
  lemma {:induction false} CounterStuck(us: seq<Setup>, ss: seq<State>, e: nat, m: nat, k: nat)
    requires ModeRun(us, ss) && k < |ss| && e <= m < |ss[0].wgms| && ss[0].wgms[e].Empty() && us[0].wgm == Some(m)
    requires var w := ss[0].wgms[m]; !w.DualSlope() && w.updocrAt != AtImmediate && w.rtop.Some? && w.rtopBuf == 0
    requires ss[0].tcnt == 0
    ensures ss[k].tcnt == 0 && Mode(us[k], ss[k]).Top() == 0
    decreases k
  {
    hide Step;
    BuffersKept(us, ss, e, m, k);
    if k > 0 {
      CounterStuck(us, ss, e, m, k - 1);
      BuffersKept(us, ss, e, m, k - 1);
      StepTable(us[k - 1], ss[k - 1]);
      assert Firmware(Step(us[k - 1], ss[k - 1]), ss[k]);
    }
  }

  // ---------- the table ----------

  function Fixed(kind: Kind, size: nat, top: nat, updocrAt: When, settovAt: When): Wgm {
    Wgm(kind, size, top, 0, updocrAt, settovAt, None, 0)
  }

  function ByRegister(kind: Kind, register: nat, updocrAt: When, settovAt: When): Wgm {
    Wgm(kind, 0, 0, 0, updocrAt, settovAt, Some(register), 0)
  }

  /** The modes of timer 1 at reset; `top7` is the TOP of mode 7, in which the two devices differ. */
  function Timer1(icr1: nat, ocr1a: nat, top7: nat): (wgms: seq<Wgm>)
    ensures |wgms| == 16
  {
    [ Fixed(Normal, 16, 0xFFFF, AtImmediate, AtMax),
      Fixed(PcPwm, 8, 0xFF, AtTop, AtBottom),
      Fixed(PcPwm, 9, 0x1FF, AtTop, AtBottom),
      Fixed(PcPwm, 10, 0x3FF, AtTop, AtBottom),
      ByRegister(Ctc, ocr1a, AtImmediate, AtMax),
      Fixed(FastPwm, 8, 0xFF, AtBottom, AtTop),
      Fixed(FastPwm, 9, 0x1FF, AtBottom, AtTop),
      Fixed(FastPwm, 10, top7, AtBottom, AtTop),
      ByRegister(PfcPwm, icr1, AtBottom, AtBottom),
      ByRegister(PfcPwm, ocr1a, AtBottom, AtBottom),
      ByRegister(PcPwm, icr1, AtTop, AtBottom),
      ByRegister(PcPwm, ocr1a, AtTop, AtBottom),
      ByRegister(Ctc, icr1, AtImmediate, AtMax),
      Wgm(NoKind, 0, 0, 0, AtNone, AtNone, None, 0),
      ByRegister(FastPwm, icr1, AtBottom, AtTop),
      ByRegister(FastPwm, ocr1a, AtBottom, AtTop) ]
  }

  lemma OnlyThirteenEmpty(icr1: nat, ocr1a: nat, top7: nat, m: nat)
    requires m < 16
    ensures Timer1(icr1, ocr1a, top7)[m].Empty() <==> m == 13
  {
    assert m == 0 || m == 1 || m == 2 || m == 3 || m == 4 || m == 5 || m == 6 || m == 7
        || m == 8 || m == 9 || m == 10 || m == 11 || m == 12 || m == 13 || m == 14 || m == 15;
  }

  /** Of the modes of timer 1 exactly those up to 12 are ever loaded. */
  lemma Timer1Loaded(icr1: nat, ocr1a: nat, top7: nat, m: nat)
    requires m < 16
    ensures var wgms := Timer1(icr1, ocr1a, top7);
            LoadWgms(wgms)[m] == if m <= 12 then wgms[m].Load() else wgms[m]
  {
    hide LoadWgms, Timer1;
    var wgms := Timer1(icr1, ocr1a, top7);
    LoadWgmsAt(wgms, m);
    forall k: nat | k <= m
      ensures wgms[k].Empty() <==> k == 13
    {
      OnlyThirteenEmpty(icr1, ocr1a, top7, k);
    }
    if m >= 13 {
      assert wgms[13].Empty();
      assert !forall k :: 0 <= k <= m ==> !wgms[k].Empty();
    }
  }

  /** In modes 14 and 15 the counter of timer 1 stays at zero for good. */
  lemma Timer1Stuck(us: seq<Setup>, ss: seq<State>, icr1: nat, ocr1a: nat, top7: nat, k: nat)
    requires ModeRun(us, ss) && k < |ss| && ss[0].wgms == Timer1(icr1, ocr1a, top7) && ss[0].tcnt == 0
    requires us[0].wgm == Some(14) || us[0].wgm == Some(15)
    ensures ss[k].tcnt == 0
  {
    CounterStuck(us, ss, 13, us[0].wgm.value, k);
  }
}
