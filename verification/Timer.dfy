/**
  The model-independent AVR timer (src/avr/avr_timer.c): one call of
  `update_timer` per system clock.  First the timer as a function of its state,
  then the program, which updates its fields step by step.
 */
module Timer {
  import opened Basics

  /** uint32_t arithmetic. */
  function Minus(x: nat, y: nat): nat {
    (x - y) % WORD
  }

  function Plus(x: nat, y: nat): nat {
    (x + y) % WORD
  }

  // ---------- state ----------

  datatype When = AtNone | AtMax | AtTop | AtBottom | AtImmediate
  datatype Kind = NoKind | Normal | Ctc | Pwm | FastPwm | PcPwm | PfcPwm
  datatype Dir = Up | Down
  datatype ComOp = Disc | TgOnCm | ClOnCm | StOnCm | ClOnCmStAtBot | StOnCmClAtBot | ClOnUpStOnDown | StOnUpClOnDown
  datatype Event = CompareMatch | Bottom

  /** A waveform generation mode; rtop is the value of the register used as TOP, if there is one. */
  datatype Wgm = Wgm(kind: Kind, size: nat, top: nat, bottom: nat, updocrAt: When, settovAt: When,
                     rtop: Option<nat>, rtopBuf: nat)
  {
    /** IS_NOWGM: the entry that ends the table. */
    predicate Empty() {
      top == 0 && bottom == 0 && size == 0 && kind == NoKind
    }

    predicate DualSlope() {
      kind == PcPwm || kind == PfcPwm
    }

    predicate Runs() {
      kind == Normal || kind == Ctc || kind == FastPwm || kind == PcPwm || kind == PfcPwm
    }

    /** The value at which the counter turns or wraps. */
    function Top(): nat {
      if rtop == None then top else if updocrAt == AtImmediate then rtop.value else rtopBuf
    }

    function Load(): Wgm {
      this.(rtopBuf := if rtop == None then 0 else rtop.value)
    }
  }

  /** An output compare channel; comOp gives the pin operation for each mode and setting of com. */
  datatype Comp = Comp(ocr: nat, ocrBuf: nat, pin: bool, ddp: bool, com: nat, comOp: seq<seq<ComOp>>,
                       pending: bool, raised: bool)
  {
    function Load(): (c: Comp)
      ensures c.com == com && c.comOp == comOp
    {
      this.(ocrBuf := ocr)
    }

    function Raise(): Comp {
      if pending then this.(raised := true, pending := false) else this
    }

    function Value(w: Wgm): nat {
      if w.updocrAt == AtImmediate then ocr else ocrBuf
    }

    predicate Known(wgmi: int) {
      0 <= wgmi < |comOp| && com < |comOp[wgmi]|
    }
  }

  predicate AllKnown(comps: seq<Comp>, wgmi: int) {
    forall c :: 0 <= c < |comps| ==> comps[c].Known(wgmi)
  }

  datatype State = State(scnt: nat, presc: nat, dir: Dir, tcnt: nat, overflow: bool, comps: seq<Comp>, wgms: seq<Wgm>)

  /**
    The registers that select what the timer does, and its size: csDiv gives the
    power of two for each clock source, modulus is the number of counter values.
   */
  datatype Setup = Setup(clockDefined: bool, disabled: bool, cs: nat, csDiv: seq<nat>,
                         wgm: Option<nat>, size: nat, modulus: nat)
  {
    predicate Valid(s: State) {
      && (modulus == 0x100 || modulus == 0x1_0000)
      && s.tcnt < modulus
      && (forall k :: 0 <= k < |csDiv| ==> csDiv[k] < 32)
      && (wgm.Some? ==> wgm.value < |s.wgms|)
      && (wgm.None? ==> s.comps == [])
      && (wgm.Some? ==> AllKnown(s.comps, wgm.value))
    }

    function Index(): int {
      if wgm.None? then -1 else wgm.value
    }
  }

  // ---------- the timer as a function ----------

  function LoadComps(comps: seq<Comp>): (cs: seq<Comp>)
    ensures |cs| == |comps|
    ensures forall wgmi :: AllKnown(comps, wgmi) ==> AllKnown(cs, wgmi)
  {
    seq(|comps|, c requires 0 <= c < |comps| => comps[c].Load())
  }

  /** The TOP buffers of the modes listed before the first empty entry are loaded. */
  function LoadWgms(wgms: seq<Wgm>): (ws: seq<Wgm>)
    ensures |ws| == |wgms|
  {
    if wgms == [] || wgms[0].Empty() then wgms else [wgms[0].Load()] + LoadWgms(wgms[1..])
  }

  lemma LoadWgmsNext(wgms: seq<Wgm>, i: nat)
    requires i < |wgms|
    ensures
      if wgms[i].Empty() then LoadWgms(wgms[i..]) == wgms[i..]
      else
        var ws := wgms[i := wgms[i].Load()];
        wgms[..i] + LoadWgms(wgms[i..]) == ws[..i + 1] + LoadWgms(ws[i + 1..])
  {
    if !wgms[i].Empty() {
      var ws := wgms[i := wgms[i].Load()];
      assert wgms[i..][1..] == ws[i + 1..];
      assert ws[..i + 1] == wgms[..i] + [wgms[i].Load()];
    }
  }

  function RaiseComps(comps: seq<Comp>): (cs: seq<Comp>)
    ensures |cs| == |comps|
    ensures forall wgmi :: AllKnown(comps, wgmi) ==> AllKnown(cs, wgmi)
  {
    seq(|comps|, c requires 0 <= c < |comps| => comps[c].Raise())
  }

  function ClearPending(comps: seq<Comp>): (cs: seq<Comp>)
    ensures |cs| == |comps|
  {
    seq(|comps|, c requires 0 <= c < |comps| => comps[c].(pending := false))
  }

  /** The output pin of a channel at a compare match or at BOTTOM. */
  function PinAfter(dir: Dir, op: ComOp, tcnt: nat, top: nat, event: Event, pin: bool): bool {
    var extreme := tcnt == Minus(top, 1) || tcnt == 1;
    match (dir, event)
    case (Up, CompareMatch) => (
      match op
      case TgOnCm => !pin
      case ClOnCm => false
      case ClOnCmStAtBot => false
      case ClOnUpStOnDown => if extreme then pin else false
      case StOnCm => true
      case StOnCmClAtBot => true
      case StOnUpClOnDown => if extreme then pin else true
      case Disc => pin)
    case (Up, Bottom) => (
      match op
      case ClOnCmStAtBot => true
      case StOnCmClAtBot => false
      case _ => pin)
    case (Down, CompareMatch) => (
      match op
      case ClOnUpStOnDown => if extreme then pin else true
      case StOnUpClOnDown => if extreme then pin else false
      case _ => pin)
    case (Down, Bottom) => pin
  }

  function Trigger(c: Comp, wgmi: int, dir: Dir, tcnt: nat, top: nat, event: Event): (r: Comp)
    requires c.Known(wgmi)
    ensures r == c.(pin := r.pin)
  {
    if c.ddp then c.(pin := PinAfter(dir, c.comOp[wgmi][c.com], tcnt, top, event, c.pin)) else c
  }

  predicate Matches(dir: Dir, tcnt: nat, ocr: nat) {
    (dir == Up && tcnt == Minus(ocr, 1)) || (dir == Down && tcnt == Plus(ocr, 1))
  }

  /** A channel at a timer clock: compare match. */
  function Compare(c: Comp, w: Wgm, wgmi: int, dir: Dir, tcnt: nat, top: nat): (r: Comp)
    requires c.Known(wgmi)
    ensures r == c.(pin := r.pin, pending := r.pending)
  {
    if Matches(dir, tcnt, c.Value(w)) then Trigger(c.(pending := true), wgmi, dir, tcnt, top, CompareMatch) else c
  }

  function CompareAll(comps: seq<Comp>, w: Wgm, wgmi: int, dir: Dir, tcnt: nat, top: nat): (cs: seq<Comp>)
    requires AllKnown(comps, wgmi)
    ensures |cs| == |comps|
    ensures AllKnown(cs, wgmi)
  {
    seq(|comps|, c requires 0 <= c < |comps| => Compare(comps[c], w, wgmi, dir, tcnt, top))
  }

  function BottomAll(comps: seq<Comp>, wgmi: int, dir: Dir, tcnt: nat, top: nat): (cs: seq<Comp>)
    requires AllKnown(comps, wgmi)
    ensures |cs| == |comps|
  {
    seq(|comps|, c requires 0 <= c < |comps| => Trigger(comps[c], wgmi, dir, tcnt, top, Bottom))
  }

  predicate ReachesTop(dir: Dir, tcnt: nat, top: nat) {
    dir == Up && tcnt == Minus(top, 1)
  }

  predicate ReachesBottom(dual: bool, dir: Dir, tcnt: nat, top: nat) {
    if dual then dir == Down && tcnt == 1 else tcnt == top
  }

  /** The counter unit: the new direction and value. */
  function Count(dual: bool, dir: Dir, tcnt: nat, top: nat, modulus: nat): (Dir, nat)
    requires modulus > 0
  {
    if !dual && tcnt == top then (dir, 0)
    else if dual && tcnt == top then (Down, (tcnt - 1) % modulus)
    else if dual && tcnt == 0 then (Up, (tcnt + 1) % modulus)
    else if dir == Up then (Up, (tcnt + 1) % modulus)
    else (Down, (tcnt - 1) % modulus)
  }

  lemma LowBits(x: nat, modulus: nat)
    requires x < modulus && (modulus == 0x100 || modulus == 0x1_0000)
    ensures Plus(x, 1) % modulus == (x + 1) % modulus && Minus(x, 1) % modulus == (x - 1) % modulus
  {
    if x == 0 {
      assert (WORD - 1) % 0x100 == 0x100 - 1 && (WORD - 1) % 0x1_0000 == 0x1_0000 - 1;
    }
  }

  /** What a timer clock in mode w does to one channel. */
  function ClockComp(c: Comp, w: Wgm, wgmi: int, dir: Dir, tcnt: nat): (r: Comp)
    requires c.Known(wgmi)
    ensures r.ocr == c.ocr && r.ddp == c.ddp && r.com == c.com && r.comOp == c.comOp && r.raised == c.raised
    ensures r.ocrBuf == c.ocrBuf || r.ocrBuf == c.ocr
  {
    var top := w.Top();
    var c1 := if ReachesTop(dir, tcnt, top) && (w.updocrAt == AtTop || w.updocrAt == AtMax) then c.Load() else c;
    var c2 := Compare(c1, w, wgmi, dir, tcnt, top);
    if ReachesBottom(w.DualSlope(), dir, tcnt, top) then
      Trigger(if w.updocrAt == AtBottom then c2.Load() else c2, wgmi, dir, tcnt, top, Bottom)
    else c2
  }

  function ClockComps(comps: seq<Comp>, w: Wgm, wgmi: int, dir: Dir, tcnt: nat): (cs: seq<Comp>)
    requires AllKnown(comps, wgmi)
    ensures |cs| == |comps|
  {
    seq(|comps|, c requires 0 <= c < |comps| => ClockComp(comps[c], w, wgmi, dir, tcnt))
  }

  /** The three passes over the channels - load, compare, BOTTOM - are one pass with ClockComp. */
  lemma ClockCompPasses(comps: seq<Comp>, w: Wgm, wgmi: int, dir: Dir, tcnt: nat)
    requires AllKnown(comps, wgmi)
    ensures
      var top := w.Top();
      var atTop := ReachesTop(dir, tcnt, top) && (w.updocrAt == AtTop || w.updocrAt == AtMax);
      var cs := CompareAll(if atTop then LoadComps(comps) else comps, w, wgmi, dir, tcnt, top);
      (if ReachesBottom(w.DualSlope(), dir, tcnt, top) then
         BottomAll(if w.updocrAt == AtBottom then LoadComps(cs) else cs, wgmi, dir, tcnt, top)
       else cs) == ClockComps(comps, w, wgmi, dir, tcnt)
  {
  }

  /** The clock at which buffers are loaded, or overflow is raised, in a mode that does so at `when`. */
  predicate Comes(when: When, w: Wgm, dir: Dir, tcnt: nat) {
    || (ReachesTop(dir, tcnt, w.Top()) && (when == AtTop || when == AtMax))
    || (ReachesBottom(w.DualSlope(), dir, tcnt, w.Top()) && when == AtBottom)
  }

  /** A clock of the timer in mode w. */
  function Clock(u: Setup, s: State, w: Wgm): State
    requires u.Valid(s)
  {
    var (dir, tcnt) := Count(w.DualSlope(), s.dir, s.tcnt, w.Top(), u.modulus);
    State(0, s.presc, dir, tcnt, s.overflow || Comes(w.settovAt, w, s.dir, s.tcnt),
          ClockComps(s.comps, w, u.Index(), s.dir, s.tcnt),
          if Comes(w.updocrAt, w, s.dir, s.tcnt) then LoadWgms(s.wgms) else s.wgms)
  }

  /** `mode_nonpwm_pwm`: raise what is pending, then count system clocks up to the prescaler. */
  function ModeStep(u: Setup, s: State, w: Wgm): State
    requires u.Valid(s)
  {
    var s1 := if s.scnt == Minus(s.presc, 2) then s.(comps := RaiseComps(s.comps)) else s;
    if s.scnt < Minus(s.presc, 1) then s1.(scnt := s.scnt + 1) else Clock(u, s1, w)
  }

  /** The mode of a timer that has no mode bits. */
  function FakeWgm(size: nat): Wgm {
    Wgm(Normal, if size == 16 then 16 else 8, if size == 16 then 0xFFFF else 0xFF, 0, AtImmediate, AtBottom, None, 0)
  }

  function Mode(u: Setup, s: State): Wgm
    requires u.Valid(s)
  {
    if u.wgm.None? then FakeWgm(u.size) else s.wgms[u.wgm.value]
  }

  /** `update_timer`. */
  function Step(u: Setup, s: State): State
    requires u.Valid(s)
  {
    if !u.clockDefined then s.(scnt := 0, presc := 1)
    else if !u.disabled && u.cs >= |u.csDiv| then s.(scnt := 0)
    else if u.disabled || u.cs == 0 then
      s.(scnt := 0, presc := 1, comps := ClearPending(LoadComps(s.comps)), wgms := LoadWgms(s.wgms))
    else
      var s1 := s.(presc := Pow2(u.csDiv[u.cs]));
      var w := Mode(u, s1);
      if w.Runs() then ModeStep(u, s1, w) else s1
  }

  // ---------- the program ----------

  class AvrTimer {
    var setup: Setup
    var scnt: nat
    var presc: nat
    var cntDir: Dir
    var tcnt: nat
    var overflow: bool
    var comp: seq<Comp>
    var wgmOp: seq<Wgm>
    var wgmval: Wgm
    var wgmi: int

    function Now(): State
      reads this
    {
      State(scnt, presc, cntDir, tcnt, overflow, comp, wgmOp)
    }

    predicate Valid()
      reads this
    {
      setup.Valid(Now())
    }

    /** `update_ocr_buffers`. */
    method UpdateOcrBuffers()
      modifies this`comp
      ensures comp == LoadComps(old(comp))
    {
      var i := 0;
      while i < |comp|
        invariant 0 <= i <= |comp| == |old(comp)|
        invariant forall c :: 0 <= c < |comp| ==> comp[c] == if c < i then old(comp)[c].Load() else old(comp)[c]
      {
        comp := comp[i := comp[i].(ocrBuf := comp[i].ocr)];
        i := i + 1;
      }
    }

    /** `update_wgm_buffers`: the table is left at its first empty entry. */
    method UpdateWgmBuffers()
      modifies this`wgmOp
      ensures wgmOp == LoadWgms(old(wgmOp))
    {
      hide LoadWgms;
      var i := 0;
      while i < |wgmOp|
        invariant 0 <= i <= |wgmOp| == |old(wgmOp)|
        invariant wgmOp[i..] == old(wgmOp)[i..]
        invariant LoadWgms(old(wgmOp)) == wgmOp[..i] + LoadWgms(wgmOp[i..])
      {
        LoadWgmsNext(wgmOp, i);
        if wgmOp[i].Empty() {
          break;
        }
        var value := if wgmOp[i].rtop == None then 0 else wgmOp[i].rtop.value;
        wgmOp := wgmOp[i := wgmOp[i].(rtopBuf := value)];
        i := i + 1;
      }
    }

    /** `int_reset_pending`. */
    method IntResetPending()
      modifies this`comp
      ensures comp == ClearPending(old(comp))
    {
      var i := 0;
      while i < |comp|
        invariant 0 <= i <= |comp| == |old(comp)|
        invariant forall c :: 0 <= c < |comp| ==>
          comp[c] == if c < i then old(comp)[c].(pending := false) else old(comp)[c]
      {
        comp := comp[i := comp[i].(pending := false)];
        i := i + 1;
      }
    }

    /** `int_raise_pending`. */
    method IntRaisePending()
      modifies this`comp
      ensures comp == if scnt == Minus(presc, 2) then RaiseComps(old(comp)) else old(comp)
    {
      if scnt == Minus(presc, 2) {
        var i := 0;
        while i < |comp|
          invariant 0 <= i <= |comp| == |old(comp)|
          invariant forall c :: 0 <= c < |comp| ==> comp[c] == if c < i then old(comp)[c].Raise() else old(comp)[c]
        {
          if comp[i].pending {
            comp := comp[i := comp[i].(raised := true, pending := false)];
          }
          i := i + 1;
        }
      }
    }

    /** `trigger_oc_pin` for channel i. */
    method TriggerOcPin(i: nat, tcnt: nat, top: nat, event: Event)
      requires i < |comp| && comp[i].Known(wgmi)
      modifies this`comp
      ensures comp == old(comp)[i := Trigger(old(comp)[i], wgmi, cntDir, tcnt, top, event)]
    {
      var op := comp[i].comOp[wgmi][comp[i].com];
      if !comp[i].ddp {
        return;
      }
      var pin := comp[i].pin;
      if cntDir == Up {
        if event == CompareMatch {
          match op {
            case TgOnCm => pin := !pin;
            case ClOnCm => pin := false;
            case ClOnCmStAtBot => pin := false;
            case ClOnUpStOnDown =>
              if tcnt != Minus(top, 1) && tcnt != 1 {
                pin := false;
              }
            case StOnCm => pin := true;
            case StOnCmClAtBot => pin := true;
            case StOnUpClOnDown =>
              if tcnt != Minus(top, 1) && tcnt != 1 {
                pin := true;
              }
            case Disc =>
          }
        } else {
          match op {
            case ClOnCmStAtBot => pin := true;
            case StOnCmClAtBot => pin := false;
            case _ =>
          }
        }
      } else if event == CompareMatch {
        match op {
          case ClOnUpStOnDown =>
            if tcnt != Minus(top, 1) && tcnt != 1 {
              pin := true;
            }
          case StOnUpClOnDown =>
            if tcnt != Minus(top, 1) && tcnt != 1 {
              pin := false;
            }
          case _ =>
        }
      }
      comp := comp[i := comp[i].(pin := pin)];
    }

    /** The compare units: every channel is compared with the counter. */
    method CompareChannels(tcnt: nat, top: nat)
      requires AllKnown(comp, wgmi)
      modifies this`comp
      ensures comp == CompareAll(old(comp), wgmval, wgmi, cntDir, tcnt, top)
    {
      var i := 0;
      while i < |comp|
        invariant 0 <= i <= |comp| == |old(comp)|
        invariant AllKnown(comp, wgmi)
        invariant forall c :: 0 <= c < |comp| ==>
          comp[c] == if c < i then Compare(old(comp)[c], wgmval, wgmi, cntDir, tcnt, top) else old(comp)[c]
      {
        var ocr := if wgmval.updocrAt == AtImmediate then comp[i].ocr else comp[i].ocrBuf;
        if (cntDir == Up && tcnt == Minus(ocr, 1)) || (cntDir == Down && tcnt == Plus(ocr, 1)) {
          comp := comp[i := comp[i].(pending := true)];
          TriggerOcPin(i, tcnt, top, CompareMatch);
        }
        i := i + 1;
      }
    }

    method TriggerAtBottom(tcnt: nat, top: nat)
      requires AllKnown(comp, wgmi)
      modifies this`comp
      ensures comp == BottomAll(old(comp), wgmi, cntDir, tcnt, top)
    {
      var i := 0;
      while i < |comp|
        invariant 0 <= i <= |comp| == |old(comp)|
        invariant AllKnown(comp, wgmi)
        invariant forall c :: 0 <= c < |comp| ==>
          comp[c] == if c < i then Trigger(old(comp)[c], wgmi, cntDir, tcnt, top, Bottom) else old(comp)[c]
      {
        TriggerOcPin(i, tcnt, top, Bottom);
        i := i + 1;
      }
    }

    /** The part of `mode_nonpwm_pwm` for TOP. */
    method HandleTop(cnt: nat, top: nat, cd: Dir)
      modifies this`overflow, this`comp, this`wgmOp
      ensures
        var atTop, w := ReachesTop(cd, cnt, top), wgmval;
        var loads := atTop && (w.updocrAt == AtTop || w.updocrAt == AtMax);
        && comp == (if loads then LoadComps(old(comp)) else old(comp))
        && wgmOp == (if loads then LoadWgms(old(wgmOp)) else old(wgmOp))
        && overflow == (old(overflow) || (atTop && (w.settovAt == AtTop || w.settovAt == AtMax)))
    {
      hide LoadComps, LoadWgms;
      if cd == Up && cnt == Minus(top, 1) {
        if wgmval.updocrAt == AtTop || wgmval.updocrAt == AtMax {
          UpdateOcrBuffers();
          UpdateWgmBuffers();
        }
        if wgmval.settovAt == AtTop || wgmval.settovAt == AtMax {
          overflow := true;
        }
      }
    }

    /** The part of `mode_nonpwm_pwm` for BOTTOM. */
    method HandleBottom(cnt: nat, top: nat, cd: Dir, dual: bool)
      requires cd == cntDir && AllKnown(comp, wgmi)
      modifies this`overflow, this`comp, this`wgmOp
      ensures
        var atBottom, w := ReachesBottom(dual, cd, cnt, top), wgmval;
        var loads := atBottom && w.updocrAt == AtBottom;
        && comp == (if atBottom then BottomAll(if loads then LoadComps(old(comp)) else old(comp), wgmi,
            cd, cnt, top) else old(comp))
        && wgmOp == (if loads then LoadWgms(old(wgmOp)) else old(wgmOp))
        && overflow == (old(overflow) || (atBottom && w.settovAt == AtBottom))
    {
      hide LoadComps, LoadWgms, BottomAll, AllKnown;
      if (!dual && cnt == top) || (dual && cd == Down && cnt == 1) {
        if wgmval.settovAt == AtBottom {
          overflow := true;
        }
        if wgmval.updocrAt == AtBottom {
          UpdateOcrBuffers();
          UpdateWgmBuffers();
        }
        TriggerAtBottom(cnt, top);
      }
    }

    /** The part of `mode_nonpwm_pwm` that handles TOP, the compare units and BOTTOM. */
    method ClockUnits(cnt: nat, top: nat, cd: Dir, dual: bool)
      requires cd == cntDir && cnt == tcnt && top == wgmval.Top() && dual == wgmval.DualSlope()
      requires AllKnown(comp, wgmi)
      modifies this`overflow, this`comp, this`wgmOp
      ensures comp == ClockComps(old(comp), wgmval, wgmi, cd, cnt)
      ensures
        var atTop, atBottom := ReachesTop(cd, cnt, top), ReachesBottom(dual, cd, cnt, top);
        var w := wgmval;
        && overflow == (old(overflow) || (atTop && (w.settovAt == AtTop || w.settovAt == AtMax)) ||
                        (atBottom && w.settovAt == AtBottom))
        && wgmOp == if (atTop && (w.updocrAt == AtTop || w.updocrAt == AtMax)) || (atBottom && w.updocrAt == AtBottom)
                    then LoadWgms(old(wgmOp)) else old(wgmOp)
    {
      hide ClockComps, CompareAll, BottomAll, LoadComps, LoadWgms, AllKnown, ReachesTop, ReachesBottom;
      ClockCompPasses(comp, wgmval, wgmi, cd, cnt);
      HandleTop(cnt, top, cd);
      CompareChannels(cnt, top);
      HandleBottom(cnt, top, cd, dual);
    }

    /** The counter unit: the counter register takes the low bits of the new value. */
    method CounterUnit(tcnt0: nat, top: nat, dual: bool)
      requires tcnt0 < setup.modulus && (setup.modulus == 0x100 || setup.modulus == 0x1_0000)
      modifies this`cntDir, this`tcnt
      ensures (cntDir, tcnt) == Count(dual, old(cntDir), tcnt0, top, setup.modulus)
    {
      var cnt := tcnt0;
      LowBits(cnt, setup.modulus);
      if !dual && cnt == top {
        cnt := 0;
      } else if dual && cnt == top {
        cntDir := Down;
        cnt := Minus(cnt, 1);
      } else if dual && cnt == 0 {
        cntDir := Up;
        cnt := Plus(cnt, 1);
      } else if cntDir == Up {
        cnt := Plus(cnt, 1);
      } else {
        cnt := Minus(cnt, 1);
      }
      tcnt := cnt % setup.modulus;
    }

    /** A clock of the timer: the part of `mode_nonpwm_pwm` behind the prescaler. */
    method ClockTimer(cnt: nat, top: nat, cd: Dir, dual: bool)
      requires Valid() && wgmi == setup.Index()
      requires cd == cntDir && cnt == tcnt && top == wgmval.Top() && dual == wgmval.DualSlope()
      modifies this`scnt, this`cntDir, this`tcnt, this`overflow, this`comp, this`wgmOp
      ensures Now() == Clock(setup, old(Now()), wgmval)
    {
      hide ClockComps, LoadWgms, Count, ReachesTop, ReachesBottom, Wgm.Top, Wgm.DualSlope;
      ClockUnits(cnt, top, cd, dual);
      CounterUnit(cnt, top, dual);
      scnt := 0;
    }

    /** `mode_nonpwm_pwm`. */
    method ModeNonPwmPwm()
      requires Valid() && wgmi == setup.Index() && wgmval == Mode(setup, Now())
      modifies this`scnt, this`cntDir, this`tcnt, this`overflow, this`comp, this`wgmOp
      ensures Now() == ModeStep(setup, old(Now()), old(wgmval))
    {
      hide RaiseComps, Clock;
      var cnt := tcnt;
      var cd := cntDir;
      var dual := wgmval.kind == PcPwm || wgmval.kind == PfcPwm;
      IntRaisePending();
      var top := wgmval.top;
      if wgmval.rtop != None {
        top := if wgmval.updocrAt == AtImmediate then wgmval.rtop.value else wgmval.rtopBuf;
      }
      if scnt < Minus(presc, 1) {
        scnt := scnt + 1;
      } else {
        ClockTimer(cnt, top, cd, dual);
      }
    }

    /** `update_timer`. */
    method UpdateTimer()
      requires Valid()
      modifies this`scnt, this`presc, this`cntDir, this`tcnt, this`overflow, this`comp,
          this`wgmOp, this`wgmval, this`wgmi
      ensures Now() == Step(setup, old(Now()))
    {
      if !setup.clockDefined {
        scnt := 0;
        presc := 1;
        return;
      }
      if setup.disabled {
        scnt := 0;
        presc := 1;
        UpdateOcrBuffers();
        UpdateWgmBuffers();
        IntResetPending();
        return;
      }
      if setup.cs >= |setup.csDiv| {
        scnt := 0;
        return;
      }
      if setup.cs == 0 {
        scnt := 0;
        presc := 1;
        UpdateOcrBuffers();
        UpdateWgmBuffers();
        IntResetPending();
        return;
      }
      presc := Pow2(setup.csDiv[setup.cs]);
      if setup.wgm.None? {
        wgmval := FakeWgm(setup.size);
        wgmi := -1;
      } else {
        wgmval := wgmOp[setup.wgm.value];
        wgmi := setup.wgm.value;
      }
      match wgmval.kind {
        case Normal => ModeNonPwmPwm();
        case Ctc => ModeNonPwmPwm();
        case FastPwm => ModeNonPwmPwm();
        case PcPwm => ModeNonPwmPwm();
        case PfcPwm => ModeNonPwmPwm();
        case _ =>
      }
    }
  }
}
