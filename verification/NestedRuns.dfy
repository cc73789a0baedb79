/**
  Runs of the simulation cycle whose calls, interrupts and saved registers nest: what
  the bracketed traces of `Brackets` say holds of the simulator itself.
 */
module NestedRuns {
  import opened Basics
  import opened Core
  import opened SimCore
  import opened CoreRuns
  import opened Brackets

  /** What happens to memory and program counter, without the nesting. */
  datatype Event =
    | Wrote(writes: Writes, next: nat)
    | Pushed(reg: nat)
    | Popped(reg: nat)
    | Entered(entry: Entry)
    | Left(exit: Exit)

  function Act(cfg: Config, e: Event, c: Cpu): Cpu
    requires cfg.Valid()
  {
    match e
    case Wrote(writes, next) => c.(dm := WriteAll(c.dm, writes), pc := next)
    case Pushed(reg) => Save(cfg, reg, c)
    case Popped(reg) => Restore(cfg, reg, c)
    case Entered(entry) => EnterBy(cfg, entry, c)
    case Left(exit) => ExitBy(cfg, exit, c)
  }

  function After(cfg: Config, events: seq<Event>, c: Cpu): Cpu
    requires cfg.Valid()
    decreases |events|
  {
    if events == [] then c else After(cfg, events[1..], Act(cfg, events[0], c))
  }

  lemma {:induction false} AfterAppend(cfg: Config, x: seq<Event>, y: seq<Event>, c: Cpu)
    requires cfg.Valid()
    ensures After(cfg, x + y, c) == After(cfg, y, After(cfg, x, c))
    decreases |x|
  {
    hide Act;
    if x == [] {
      assert x + y == y;
    } else {
      AfterAppend(cfg, x[1..], y, Act(cfg, x[0], c));
      assert (x + y)[1..] == x[1..] + y;
    }
  }

  // ---------- traces and their events ----------

  function Events(t: Trace): seq<Event> {
    match t
    case End => []
    case Plain(writes, next, rest) => [Wrote(writes, next)] + Events(rest)
    case Saved(reg, body, rest) => [Pushed(reg)] + Events(body) + ([Popped(reg)] + Events(rest))
    case Frame(entry, body, exit, rest) => [Entered(entry)] + Events(body) + ([Left(exit)] + Events(rest))
  }

  lemma AfterFirst(cfg: Config, e: Event, x: seq<Event>, c: Cpu)
    requires cfg.Valid()
    ensures After(cfg, [e] + x, c) == After(cfg, x, Act(cfg, e, c))
  {
    hide Act;
    assert ([e] + x)[1..] == x;
  }

  lemma AfterPair(cfg: Config, e: Event, x: seq<Event>, e': Event, y: seq<Event>, c: Cpu)
    requires cfg.Valid()
    ensures After(cfg, [e] + x + ([e'] + y), c) == After(cfg, y, Act(cfg, e', After(cfg, x, Act(cfg, e, c))))
  {
    AfterAppend(cfg, [e] + x, [e'] + y, c);
    AfterFirst(cfg, e, x, c);
    AfterFirst(cfg, e', y, After(cfg, x, Act(cfg, e, c)));
    hide Act, After;
  }

  /** A trace does what its events do one after the other. */
  lemma {:induction false} DoIsAfter(cfg: Config, t: Trace, c: Cpu)
    requires cfg.Valid()
    ensures Do(cfg, t, c) == After(cfg, Events(t), c)
    decreases t
  {
    hide After, Save, Restore, EnterBy, ExitBy;
    match t
    case End =>
      assert After(cfg, [], c) == c by { NoEvents(cfg, c); }
    case Plain(writes, next, rest) =>
      AfterFirst(cfg, Wrote(writes, next), Events(rest), c);
      DoIsAfter(cfg, rest, c.(dm := WriteAll(c.dm, writes), pc := next));
    case Saved(reg, body, rest) =>
      AfterPair(cfg, Pushed(reg), Events(body), Popped(reg), Events(rest), c);
      DoIsAfter(cfg, body, Save(cfg, reg, c));
      DoIsAfter(cfg, rest, Restore(cfg, reg, Do(cfg, body, Save(cfg, reg, c))));
    case Frame(entry, body, exit, rest) =>
      AfterPair(cfg, Entered(entry), Events(body), Left(exit), Events(rest), c);
      DoIsAfter(cfg, body, EnterBy(cfg, entry, c));
      DoIsAfter(cfg, rest, ExitBy(cfg, exit, Do(cfg, body, EnterBy(cfg, entry, c))));
  }

  lemma NoEvents(cfg: Config, c: Cpu)
    requires cfg.Valid()
    ensures After(cfg, [], c) == c
  {
  }

  // ---------- events that nest ----------

  /** What waits to be closed: a routine that was entered, or a register that was saved. */
  datatype Open = Routine | Kept(reg: nat)

  /** The events close what is open, innermost first, and everything they open themselves. */
  predicate Nests(events: seq<Event>, open: seq<Open>)
    decreases |events|
  {
    if events == [] then open == []
    else
      match events[0]
      case Wrote(_, _) => Nests(events[1..], open)
      case Pushed(reg) => Nests(events[1..], [Kept(reg)] + open)
      case Entered(_) => Nests(events[1..], [Routine] + open)
      case Popped(reg) => open != [] && open[0] == Kept(reg) && Nests(events[1..], open[1..])
      case Left(_) => open != [] && open[0] == Routine && Nests(events[1..], open[1..])
  }

  /** What follows an opening event is a trace and the event that closes it. */
  lemma {:induction false} TraceOf(events: seq<Event>, open: seq<Open>) returns (t: Trace, rest: seq<Event>)
    requires Nests(events, open)
    ensures events == Events(t) + rest && Nests(rest, open)
    ensures rest != [] ==> rest[0].Popped? || rest[0].Left?
    decreases |events|
  {
    if events == [] || events[0].Popped? || events[0].Left? {
      t, rest := End, events;
    } else if events[0].Wrote? {
      var t1;
      t1, rest := TraceOf(events[1..], open);
      t := Plain(events[0].writes, events[0].next, t1);
    } else {
      var o := if events[0].Pushed? then Kept(events[0].reg) else Routine;
      var body, more := TraceOf(events[1..], [o] + open);
      assert ([o] + open)[1..] == open;
      var t1;
      t1, rest := TraceOf(more[1..], open);
      t := if events[0].Pushed? then Saved(events[0].reg, body, t1)
           else Frame(events[0].entry, body, more[0].exit, t1);
      Assembled(events[0], Events(body), more[0], Events(t1), rest);
      assert more == [more[0]] + more[1..] && events == [events[0]] + events[1..];
    }
  }

  lemma Assembled(e: Event, x: seq<Event>, e': Event, y: seq<Event>, rest: seq<Event>)
    ensures [e] + x + ([e'] + y) + rest == [e] + (x + ([e'] + (y + rest)))
  {
  }

  lemma {:induction false} EventsNest(t: Trace, rest: seq<Event>, open: seq<Open>)
    requires Nests(rest, open)
    ensures Nests(Events(t) + rest, open)
    decreases t, 0
  {
    match t
    case End =>
      assert Events(t) + rest == rest;
    case Plain(writes, next, t1) =>
      EventsNest(t1, rest, open);
      assert (Events(t) + rest)[1..] == Events(t1) + rest;
    case Saved(reg, body, t1) =>
      EventsNest(t1, rest, open);
      ClosedNests(Pushed(reg), body, Popped(reg), t1, rest, open);
    case Frame(entry, body, exit, t1) =>
      EventsNest(t1, rest, open);
      ClosedNests(Entered(entry), body, Left(exit), t1, rest, open);
  }

  lemma {:induction false} ClosedNests(e: Event, body: Trace, e': Event, t1: Trace, rest: seq<Event>, open: seq<Open>)
    requires Nests(Events(t1) + rest, open)
    requires (e.Pushed? && e' == Popped(e.reg)) || (e.Entered? && e'.Left?)
    ensures Nests([e] + Events(body) + ([e'] + Events(t1)) + rest, open)
    decreases body, 1
  {
    var o := if e.Pushed? then Kept(e.reg) else Routine;
    var more := [e'] + (Events(t1) + rest);
    assert more[1..] == Events(t1) + rest && ([o] + open)[1..] == open;
    EventsNest(body, more, [o] + open);
    Assembled(e, Events(body), e', Events(t1), rest);
    assert ([e] + (Events(body) + more))[1..] == Events(body) + more;
  }

  /** Events nest exactly when they are those of a trace. */
  lemma NestsIff(events: seq<Event>)
    ensures Nests(events, []) <==> exists t :: Events(t) == events
  {
    hide Events, Nests;
    if Nests(events, []) {
      var t, rest := TraceOf(events, []);
      NothingLeft(rest);
      assert Events(t) == events;
    }
    forall t | Events(t) == events
      ensures Nests(events, [])
    {
      NothingNests();
      EventsNest(t, [], []);
      assert Events(t) + [] == events;
    }
  }

  lemma NothingLeft(rest: seq<Event>)
    requires Nests(rest, []) && (rest != [] ==> rest[0].Popped? || rest[0].Left?)
    ensures rest == []
  {
  }

  lemma NothingNests()
    ensures Nests([], [])
  {
  }

  // ---------- the events of a cycle ----------

  /** Memory and program counter are the same. */
  predicate Alike(c: Cpu, d: Cpu) {
    c.dm == d.dm && c.pc == d.pc
  }

  lemma ActAlike(cfg: Config, e: Event, c: Cpu, d: Cpu)
    requires cfg.Valid() && Alike(c, d)
    ensures Alike(Act(cfg, e, c), Act(cfg, e, d))
  {
    hide Save, Restore, EnterBy, ExitBy, WriteAll;
    match e
    case Wrote(_, _) =>
    case Pushed(reg) => SaveAlike(cfg, reg, c, d);
    case Popped(reg) => RestoreAlike(cfg, reg, c, d);
    case Entered(entry) => EnterAlike(cfg, entry, c, d);
    case Left(exit) => ExitAlike(cfg, exit, c, d);
  }

  lemma SaveAlike(cfg: Config, reg: nat, c: Cpu, d: Cpu)
    requires cfg.Valid() && Alike(c, d)
    ensures Alike(Save(cfg, reg, c), Save(cfg, reg, d))
  {
    hide Push;
  }

  lemma RestoreAlike(cfg: Config, reg: nat, c: Cpu, d: Cpu)
    requires cfg.Valid() && Alike(c, d)
    ensures Alike(Restore(cfg, reg, c), Restore(cfg, reg, d))
  {
    hide Pop, Top, CanPop;
  }

  lemma EnterAlike(cfg: Config, e: Entry, c: Cpu, d: Cpu)
    requires cfg.Valid() && Alike(c, d)
    ensures Alike(EnterBy(cfg, e, c), EnterBy(cfg, e, d))
  {
    hide PushPc, SetEnabled;
  }

  lemma ExitAlike(cfg: Config, e: Exit, c: Cpu, d: Cpu)
    requires cfg.Valid() && Alike(c, d)
    ensures Alike(ExitBy(cfg, e, c), ExitBy(cfg, e, d))
  {
    hide PopPc, SetEnabled, CanPop;
  }

  lemma {:induction false} AfterAlike(cfg: Config, events: seq<Event>, c: Cpu, d: Cpu)
    requires cfg.Valid() && Alike(c, d)
    ensures Alike(After(cfg, events, c), After(cfg, events, d))
    decreases |events|
  {
    hide Act, Alike;
    if events != [] {
      ActAlike(cfg, events[0], c, d);
      AfterAlike(cfg, events[1..], Act(cfg, events[0], c), Act(cfg, events[0], d));
    }
  }

  /** The addresses below n that changed, with their new bytes. */
  function Changes(d: Data, d': Data, n: nat): Writes
    requires n <= DM_SIZE
  {
    if n == 0 then []
    else Changes(d, d', n - 1) + if d[n - 1] == d'[n - 1] then [] else [(n - 1, d'[n - 1])]
  }

  /** Memory d' below n and d from there on. */
  function Spliced(d: Data, d': Data, n: nat): Data
    requires n <= DM_SIZE
  {
    d'[..n] + d[n..]
  }

  lemma SplicedNext(d: Data, d': Data, k: nat)
    requires k < DM_SIZE
    ensures Spliced(d, d', k)[k := d'[k]] == Spliced(d, d', k + 1)
    ensures d[k] == d'[k] ==> Spliced(d, d', k) == Spliced(d, d', k + 1)
  {
  }

  lemma SplicedEnds(d: Data, d': Data)
    ensures Spliced(d, d', 0) == d && Spliced(d, d', DM_SIZE) == d'
  {
  }

  lemma WriteLast(d: Data, w: Writes, a: nat, v: byte)
    requires a < DM_SIZE
    ensures WriteAll(d, w + [(a, v)]) == WriteAll(d, w)[a := v]
  {
    assert (w + [(a, v)])[..|w|] == w;
  }

  lemma {:induction false} ChangesWritten(d: Data, d': Data, n: nat)
    requires n <= DM_SIZE
    ensures WriteAll(d, Changes(d, d', n)) == Spliced(d, d', n)
    decreases n
  {
    hide Spliced;
    if n == 0 {
      SplicedEnds(d, d');
    } else {
      ChangesWritten(d, d', n - 1);
      var w := Changes(d, d', n - 1);
      assert w + [] == w;
      WriteLast(d, w, n - 1, d'[n - 1]);
      SplicedNext(d, d', n - 1);
    }
  }

  /** A change of memory and program counter that is neither of the stack's own. */
  function Noted(c: Cpu, d: Cpu): seq<Event> {
    if Alike(c, d) then [] else [Wrote(Changes(c.dm, d.dm, DM_SIZE), d.pc)]
  }

  lemma NotedActs(cfg: Config, c: Cpu, d: Cpu)
    requires cfg.Valid()
    ensures Alike(After(cfg, Noted(c, d), c), d)
  {
    hide Changes, WriteAll, Spliced;
    ChangesWritten(c.dm, d.dm, DM_SIZE);
    SplicedEnds(c.dm, d.dm);
    if !Alike(c, d) {
      AfterFirst(cfg, Noted(c, d)[0], [], c);
      assert Noted(c, d) == [Noted(c, d)[0]] + [];
    }
  }

  /** The event of an instruction that takes the core from c to d. */
  function Executing(i: Instr, c: Cpu, d: Cpu): seq<Event> {
    match i
    case Call(target) => [Entered(ByCall(target))]
    case Rcall(offset) => [Entered(ByRcall(offset))]
    case Icall => [Entered(ByIcall)]
    case Ret => [Left(ByRet)]
    case Reti => [Left(ByReti)]
    case PushReg(reg) => [Pushed(reg)]
    case PopReg(reg) => [Popped(reg)]
    case _ => Noted(c, d)
  }

  lemma OneEvent(cfg: Config, e: Event, c: Cpu)
    requires cfg.Valid()
    ensures After(cfg, [e], c) == Act(cfg, e, c)
  {
    hide Act;
  }

  lemma ExecutingActs(cfg: Config, i: Instr, c: Cpu)
    requires cfg.Valid() && Runs(cfg, i, c.dm)
    ensures Alike(After(cfg, Executing(i, c, Complete(cfg, i, c)), c), Complete(cfg, i, c))
  {
    var d := Complete(cfg, i, c);
    var events := Executing(i, c, d);
    if i.Other? || i.Unknown? {
      NotedActs(cfg, c, d);
    } else {
      OneEvent(cfg, events[0], c);
      hide PushPc, PopPc, Push, Pop, Top, WriteAll, SetEnabled, CanPop, After;
    }
  }

  /** The core after the instruction's cycle, if there is one. */
  function Stepped(cfg: Config, env: Env, b: Cpu): Cpu
    requires cfg.Valid() && Ready(cfg, env.instr, b)
  {
    if Executes(b) then Exec(cfg, env.instr, b) else b
  }

  function InstrEvents(cfg: Config, env: Env, b: Cpu): seq<Event>
    requires cfg.Valid() && Ready(cfg, env.instr, b)
  {
    if Executes(b) && SkipFor(cfg, env.instr, b).0 then Executing(env.instr, b, Stepped(cfg, env, b)) else []
  }

  lemma InstrActs(cfg: Config, env: Env, b: Cpu)
    requires cfg.Valid() && Ready(cfg, env.instr, b)
    ensures Alike(After(cfg, InstrEvents(cfg, env, b), b), Stepped(cfg, env, b))
  {
    if Executes(b) && SkipFor(cfg, env.instr, b).0 {
      var d := SkipFor(cfg, env.instr, b).1;
      SkipAlike(cfg, env.instr, b);
      ExecutingActs(cfg, env.instr, d);
      ExecutingAlike(cfg, env.instr, b, d);
      AfterAlike(cfg, InstrEvents(cfg, env, b), b, d);
      hide Complete, Executing, After, SkipFor, Skips;
    } else {
      NoEvents(cfg, b);
      if Executes(b) {
        SkipAlike(cfg, env.instr, b);
      }
      hide SkipFor, Complete, After;
    }
  }

  lemma SkipAlike(cfg: Config, i: Instr, c: Cpu)
    ensures var d := SkipFor(cfg, i, c).1; d == c.(mci := d.mci, icLeft := d.icLeft)
  {
  }

  lemma ExecutingAlike(cfg: Config, i: Instr, c: Cpu, d: Cpu)
    requires cfg.Valid() && Runs(cfg, i, d.dm) && Alike(c, d)
    ensures Executing(i, c, Complete(cfg, i, d)) == Executing(i, d, Complete(cfg, i, d))
  {
    hide Complete, Changes;
  }

  /** What happens in a cycle: the outside world, the instruction, pins and flags, and an interrupt. */
  function CycleEvents(cfg: Config, env: Env, c: Cpu): seq<Event>
    requires cfg.Valid() && Fits(cfg, env, c)
  {
    var b := Begin(cfg, env, c).c;
    if !Whole(cfg, env, c) then Noted(c, b)
    else
      var m := Between(cfg, env, c);
      Noted(c, b) + (InstrEvents(cfg, env, b) + (Noted(Stepped(cfg, env, b), m) +
        if Enters(cfg, env, c) then [Entered(ByIrq(Vector(cfg, env, c)))] else []))
  }

  /** Going on from a core that is alike. */
  lemma Chain(cfg: Config, x: seq<Event>, y: seq<Event>, c: Cpu, d: Cpu, e: Cpu)
    requires cfg.Valid() && Alike(After(cfg, x, c), d) && Alike(After(cfg, y, d), e)
    ensures Alike(After(cfg, x + y, c), e)
  {
    AfterAppend(cfg, x, y, c);
    AfterAlike(cfg, y, After(cfg, x, c), d);
    hide After;
  }

  /** The end of a cycle enters the routine, or does nothing to memory and program counter. */
  lemma LastActs(cfg: Config, env: Env, c: Cpu)
    requires cfg.Valid() && Fits(cfg, env, c) && Whole(cfg, env, c)
    ensures var last := if Enters(cfg, env, c) then [Entered(ByIrq(Vector(cfg, env, c)))] else [];
            Alike(After(cfg, last, Between(cfg, env, c)), Next(cfg, env, c))
  {
    hide Fits, Whole, Between, Next, Serves, PushPc, SetEnabled, After;
    EntryServesLowest(cfg, env, c);
    var m := Between(cfg, env, c);
    if Enters(cfg, env, c) {
      OneEvent(cfg, Entered(ByIrq(Vector(cfg, env, c))), m);
    } else {
      NoEvents(cfg, m);
    }
  }

  /** A cycle of the simulator does to memory and program counter what its events do. */
  lemma CycleActs(cfg: Config, env: Env, c: Cpu)
    requires cfg.Valid() && Fits(cfg, env, c)
    ensures Alike(After(cfg, CycleEvents(cfg, env, c), c), Next(cfg, env, c))
  {
    var b := Begin(cfg, env, c).c;
    NotedActs(cfg, c, b);
    SimStepIs(cfg, env, c);
    if Whole(cfg, env, c) {
      var m, s := Between(cfg, env, c), Stepped(cfg, env, b);
      var last := if Enters(cfg, env, c) then [Entered(ByIrq(Vector(cfg, env, c)))] else [];
      InstrActs(cfg, env, b);
      NotedActs(cfg, s, m);
      LastActs(cfg, env, c);
      hide Begin, Between, Stepped, InstrEvents, Noted, Enters, Vector, Alike, After, Next, Fits, Whole;
      Chain(cfg, Noted(s, m), last, s, m, Next(cfg, env, c));
      Chain(cfg, InstrEvents(cfg, env, b), Noted(s, m) + last, b, s, Next(cfg, env, c));
      Chain(cfg, Noted(c, b), InstrEvents(cfg, env, b) + (Noted(s, m) + last), c, b, Next(cfg, env, c));
    }
  }

  // ---------- the events of a run ----------

  function RunEvents(cfg: Config, run: seq<Cycle>): seq<Event>
    requires forall k :: 0 <= k < |run| ==> IsCycle(cfg, run[k])
    decreases |run|
  {
    if run == [] then []
    else
      var y := run[|run| - 1];
      assert IsCycle(cfg, y);
      RunEvents(cfg, run[..|run| - 1]) + CycleEvents(cfg, y.env, y.before)
  }

  /** A run of the simulator does to memory and program counter what its events do. */
  lemma {:induction false} RunActs(cfg: Config, run: seq<Cycle>)
    requires IsRun(cfg, run) && run != []
    ensures Alike(After(cfg, RunEvents(cfg, run), run[0].before), run[|run| - 1].after)
    decreases |run|
  {
    hide After, CycleEvents, Alike, Sound, Next, Fits;
    var n := |run| - 1;
    var y := run[n];
    CycleActs(cfg, y.env, y.before);
    if n == 0 {
      assert RunEvents(cfg, run) == [] + CycleEvents(cfg, y.env, y.before) == CycleEvents(cfg, y.env, y.before);
    } else {
      assert forall k :: 0 <= k < n ==> Linked(run[..n], k) by {
        forall k | 0 <= k < n
          ensures Linked(run[..n], k)
        {
          assert Linked(run, k);
        }
      }
      RunActs(cfg, run[..n]);
      assert Linked(run, n);
      Chain(cfg, RunEvents(cfg, run[..n]), CycleEvents(cfg, y.env, y.before), run[0].before, y.before, y.after);
    }
  }

  // ---------- the theorems ----------

  /**
    Every run of the simulator whose events nest is a nested trace; if that respects the
    stack, every exit in it goes home, every saved register is restored, and in the end the
    stack pointer and what lies above it are as they were.
   */
  lemma NestedRunGoesHome(cfg: Config, run: seq<Cycle>, sram: nat, base: nat) returns (t: Trace)
    requires IsRun(cfg, run) && run != [] && Nests(RunEvents(cfg, run), [])
    requires Below(cfg, sram) && sram <= Sp(cfg, run[0].before.dm) <= base < DM_SIZE
    ensures Events(t) == RunEvents(cfg, run)
    ensures Respects(cfg, t, run[0].before, sram, base) ==>
      && AllHome(cfg, t, run[0].before)
      && Keeps(cfg, run[0].before.dm, run[|run| - 1].after.dm, Sp(cfg, run[0].before.dm), base)
  {
    var rest;
    t, rest := TraceOf(RunEvents(cfg, run), []);
    NothingLeft(rest);
    var c := run[0].before;
    DoIsAfter(cfg, t, c);
    RunActs(cfg, run);
    hide IsRun, Events, RunEvents, Nests, After, AllHome, Respects, Keeps, Sp, Do;
    if Respects(cfg, t, c, sram, base) {
      Balanced(cfg, t, c, sram, base);
      EveryExitGoesHome(cfg, t, c, sram, base);
    }
  }

  /**
    A routine anywhere in a run, entered after the events `pre`: its exit goes back to the
    address its entry stacked, and the rest of the run goes on from there.
   */
  lemma RoutineGoesHome(cfg: Config, run: seq<Cycle>, pre: seq<Event>, entry: Entry, body: Trace, exit: Exit,
                        post: seq<Event>, sram: nat, base: nat)
    requires IsRun(cfg, run) && run != []
    requires RunEvents(cfg, run) == pre + Events(Frame(entry, body, exit, End)) + post
    requires var c := After(cfg, pre, run[0].before);
             && Below(cfg, sram) && sram <= Sp(cfg, c.dm) <= base < DM_SIZE
             && Respects(cfg, Frame(entry, body, exit, End), c, sram, base)
    ensures var c := After(cfg, pre, run[0].before);
            var c' := After(cfg, pre + Events(Frame(entry, body, exit, End)), run[0].before);
            && c'.pc == Home(entry, c.pc) % cfg.PcLimit() && Keeps(cfg, c.dm, c'.dm, Sp(cfg, c.dm), base)
            && Alike(After(cfg, post, c'), run[|run| - 1].after)
  {
    hide IsRun, RunEvents, After, Keeps, Sp, EnterBy, ExitBy, Events, Home, Respects;
    var t := Frame(entry, body, exit, End);
    var c := After(cfg, pre, run[0].before);
    RunActs(cfg, run);
    AfterAppend(cfg, pre, Events(t), run[0].before);
    AfterAppend(cfg, pre + Events(t), post, run[0].before);
    DoIsAfter(cfg, t, c);
    var c3 := FrameOnce(cfg, entry, body, exit, End, c, sram, base);
  }
}
