/**
  The incremental, permuting scan of src/msim_getopt.c (`getopt_internal`,
  `parse_long_options`), proved to agree with the one-pass parser of
  GetoptParse.dfy.
 */
module Getopt {
  import opened Basics
  import opened OptionGrammar
  import opened GetoptParse
  import PermuteArgs

  /**
    A scan in progress.  argv, pos (optind), place, nonoptStart and nonoptEnd are
    the program's state; args is the vector as it was when the scan began at index
    start, taken and skipped are the entries dealt with so far, each in order.
   */
  datatype Scan = Scan(argv: seq<string>, pos: nat, place: string, nonoptStart: int, nonoptEnd: int,
                       args: seq<string>, start: nat, taken: seq<string>, skipped: seq<string>)
  {
    /** The entries before pos are the taken ones and, in one block, the skipped ones. */
    ghost predicate Arranged() {
      && start <= pos <= |argv| == |args|
      && start + |taken| + |skipped| == pos
      && argv[pos..] == args[pos..]
      && if nonoptStart == -1 then
           nonoptEnd == -1 && skipped == [] && argv[..pos] == args[..start] + taken
         else if nonoptEnd == -1 then
           && nonoptStart == start + |taken| < pos
           && argv[..nonoptStart] == args[..start] + taken
           && argv[nonoptStart..pos] == skipped
         else
           && start <= nonoptStart < nonoptEnd <= pos
           && argv[nonoptStart..nonoptEnd] == skipped
           && argv[..nonoptStart] + argv[nonoptEnd..pos] == args[..start] + taken
    }

    ghost predicate Valid(mode: Mode) {
      && Arranged()
      && (place != "" ==> pos < |args| && (nonoptStart == -1 <==> nonoptEnd == -1))
      && (place == "" ==> nonoptEnd < pos)
      && (nonoptStart != -1 ==> mode == Permute)
    }

    /** What the whole scan amounts to: what is done so far and what is still to come. */
    ghost function Outcome(syntax: Syntax): Parsed
      requires pos <= |args| && (place != "" ==> pos < |args|)
    {
      var p := Parse(syntax, args, pos, place);
      Parsed(p.reports, taken + p.taken, skipped + p.skipped, p.rest, p.complete)
    }

    /** All non-options moved behind all options. */
    function Gathered(): (argv': seq<string>)
      requires 0 <= nonoptStart <= nonoptEnd <= pos <= |argv|
      ensures |argv'| == |argv|
    {
      PermuteArgs.Exchanged(argv, nonoptStart, nonoptEnd, pos)
    }
  }

  function FreshScan(argv: seq<string>, pos: nat): Scan {
    Scan(argv, pos, "", -1, -1, argv, pos, [], [])
  }

  /** The vector when the scan is over. */
  ghost predicate Partitioned(argv: seq<string>, pos: int, args: seq<string>, start: nat, p: Parsed)
    requires start <= |args|
  {
    && argv == args[..start] + p.taken + p.skipped + p.rest
    && pos == start + |p.taken|
  }

  /** A finished scan that amounts to w. */
  ghost predicate Finished(w: Parsed, s: Scan, optarg: Option<string>) {
    && w.reports == [] && w.complete
    && s.start <= |s.args| && Partitioned(s.argv, s.pos, s.args, s.start, w)
    && s.place == "" && s.nonoptStart == -1 && s.nonoptEnd == -1 && optarg == None
  }

  /** What a call leaves in optarg, optopt, the return value and *idx. */
  datatype Results = Results(optarg: Option<string>, optopt: int, code: int, idx: Option<nat>)

  /**
    What a call does to a scan that amounts to w, and which it leaves as s: it
    reports, ends the scan, or stalls in front of a cluster.
   */
  ghost predicate Advanced(syntax: Syntax, w: Parsed, s: Scan, r: Results, report: Report, optopt0: int) {
    if r.code != -1 then
      && s.Valid(syntax.mode)
      && w == s.Outcome(syntax).(reports := [report] + s.Outcome(syntax).reports)
      && report == Report(r.code, r.optarg, report.optopt, r.idx)
      && r.optopt == (if report.optopt.Some? then report.optopt.value else optopt0)
    else if w.complete then
      Finished(w, s, r.optarg) && r.idx == None && r.optopt == optopt0
    else
      && s.Arranged()
      && w == Parsed([], s.taken, s.skipped, s.args[s.pos..], false)
      && s.place == "" && r == Results(None, optopt0, -1, None)
  }

  // ---------- the steps of a scan ----------

  lemma Slices<T>(s: seq<T>, a: nat, b: nat)
    requires a <= b <= |s|
    ensures s[a..b] == s[a..][..b - a]
    ensures s[b..] == s[a..][b - a..]
    ensures s[..b] == s[..a] + s[a..b]
    ensures b == a + 1 ==> s[a..b] == [s[a]]
  {
  }

  lemma GatheredIs(s: Scan)
    requires s.Arranged() && s.nonoptEnd != -1
    ensures s.Gathered()[..s.pos] == s.args[..s.start] + s.taken + s.skipped
    ensures s.Gathered()[s.pos..] == s.args[s.pos..]
    ensures s.pos - (s.nonoptEnd - s.nonoptStart) == s.start + |s.taken|
  {
    var g := s.Gathered();
    assert g[..s.pos] == (s.argv[..s.nonoptStart] + s.argv[s.nonoptEnd..s.pos]) + s.argv[s.nonoptStart..s.nonoptEnd];
    assert g[s.pos..] == s.argv[s.pos..];
  }

  /** A non-option is skipped; non-options further to the left are first moved next to it. */
  function Skip(s: Scan): Scan
    requires s.Arranged() && s.pos < |s.argv|
  {
    var s' := s.(pos := s.pos + 1, skipped := s.skipped + [s.args[s.pos]]);
    if s.nonoptStart == -1 then s'.(nonoptStart := s.pos)
    else if s.nonoptEnd != -1 then
      s'.(argv := s.Gathered(), nonoptStart := s.pos - (s.nonoptEnd - s.nonoptStart), nonoptEnd := -1)
    else s'
  }

  /** The blocks of the vector after the skipped block was moved next to the entry and joined by it. */
  lemma GatheredSkip(s: Scan)
    requires s.Arranged() && s.nonoptEnd != -1 && s.pos < |s.args|
    ensures
      var g, first := s.Gathered(), s.pos - (s.nonoptEnd - s.nonoptStart);
      && first == s.start + |s.taken| && g[..first] == s.args[..s.start] + s.taken
      && g[first..s.pos + 1] == s.skipped + [s.args[s.pos]] && g[s.pos + 1..] == s.args[s.pos + 1..]
  {
    hide Scan.Gathered, Scan.Arranged;
    GatheredIs(s);
    ValidLengths(s);
    var g, first := s.Gathered(), s.pos - (s.nonoptEnd - s.nonoptStart);
    var front := s.args[..s.start] + s.taken;
    assert g[..first] == g[..s.pos][..first] == front;
    assert g[first..s.pos] == g[..s.pos][first..] == s.skipped;
    Slices(g, s.pos, s.pos + 1);
    Slices(s.args, s.pos, s.pos + 1);
    MiddleSlice(g, first, s.pos, s.pos + 1);
  }

  lemma ValidLengths(s: Scan)
    requires s.Arranged()
    ensures s.start <= s.pos <= |s.argv| == |s.args| && s.start + |s.taken| + |s.skipped| == s.pos
    ensures s.nonoptEnd != -1 ==> 0 <= s.nonoptStart < s.nonoptEnd <= s.pos
  {
  }

  lemma SkipArranged(s: Scan)
    requires s.Arranged() && s.place == "" && s.pos < |s.args| && s.nonoptEnd < s.pos
    ensures Skip(s).Arranged() && Skip(s).nonoptStart != -1 && Skip(s).nonoptEnd == -1
    ensures s.argv[s.pos] == s.args[s.pos]
  {
    hide Scan.Gathered;
    Slices(s.argv, s.pos, s.pos + 1);
    Slices(s.args, s.pos, s.pos + 1);
    if s.nonoptEnd != -1 {
      GatheredSkip(s);
    } else if s.nonoptStart != -1 {
      MiddleSlice(s.argv, s.nonoptStart, s.pos, s.pos + 1);
    }
  }

  lemma SkipKeeps(syntax: Syntax, s: Scan)
    requires s.Valid(syntax.mode) && syntax.mode == Permute
    requires s.place == "" && s.pos < |s.args| && IsNonOption(syntax, s.args[s.pos])
    ensures Skip(s).Valid(Permute) && Skip(s).Outcome(syntax) == s.Outcome(syntax)
    ensures s.argv[s.pos] == s.args[s.pos]
  {
    hide IsNonOption, Scan.Arranged, Scan.Gathered, Scan.Outcome;
    ValidLengths(s);
    SkipArranged(s);
    SkipOutcome(syntax, s);
  }

  lemma SkipOutcome(syntax: Syntax, s: Scan)
    requires s.Arranged() && syntax.mode == Permute && s.place == ""
    requires s.pos < |s.args| && IsNonOption(syntax, s.args[s.pos])
    ensures Skip(s).Outcome(syntax) == s.Outcome(syntax)
  {
    hide IsNonOption, Scan.Gathered, Scan.Arranged;
    ValidLengths(s);
    var p := Parse(syntax, s.args, s.pos + 1, "");
    Associates(s.skipped, [s.args[s.pos]], p.skipped);
  }

  /** An option entry is met: the block of skipped non-options, if any, ends here. */
  function Meet(s: Scan): Scan {
    if s.nonoptStart != -1 && s.nonoptEnd == -1 then s.(nonoptEnd := s.pos) else s
  }

  lemma MeetKeeps(s: Scan)
    requires s.Arranged()
    ensures Meet(s).Arranged()
    ensures Meet(s).nonoptStart == -1 <==> Meet(s).nonoptEnd == -1
  {
    if s.nonoptStart != -1 && s.nonoptEnd == -1 {
      assert s.argv[..s.nonoptStart] + s.argv[s.pos..s.pos] == s.argv[..s.nonoptStart];
    }
  }

  /** `used` entries are consumed and `place` is left of the current one. */
  function Consume(s: Scan, used: nat, place: string): Scan
    requires s.pos + used <= |s.args|
  {
    s.(pos := s.pos + used, place := place, taken := s.taken + s.args[s.pos..s.pos + used])
  }

  lemma ConsumeKeeps(s: Scan, used: nat, place: string)
    requires s.Arranged() && (s.nonoptStart == -1 <==> s.nonoptEnd == -1)
    requires s.pos + used <= |s.args|
    ensures Consume(s, used, place).Arranged()
  {
    var pos := s.pos + used;
    ConsumedFront(s, used);
    assert s.argv[pos..] == s.args[pos..] by {
      Slices(s.argv, s.pos, pos);
      Slices(s.args, s.pos, pos);
    }
  }

  /** What was consumed before, followed by the next entries. */
  lemma ConsumedFront(s: Scan, used: nat)
    requires s.Arranged() && (s.nonoptStart == -1 <==> s.nonoptEnd == -1)
    requires s.pos + used <= |s.args|
    ensures
      var pos := s.pos + used;
      var front := s.args[..s.start] + (s.taken + s.args[s.pos..pos]);
      if s.nonoptStart == -1 then s.argv[..pos] == front
      else s.argv[..s.nonoptStart] + s.argv[s.nonoptEnd..pos] == front
  {
    var pos := s.pos + used;
    var seg := s.args[s.pos..pos];
    assert seg == s.argv[s.pos..pos] by {
      Slices(s.argv, s.pos, pos);
      Slices(s.args, s.pos, pos);
    }
    if s.nonoptStart == -1 {
      MiddleSlice(s.argv, 0, s.pos, pos);
      Associates(s.args[..s.start], s.taken, seg);
    } else {
      MiddleSlice(s.argv, s.nonoptEnd, s.pos, pos);
      BothExtended(s.argv[..s.nonoptStart], s.argv[s.nonoptEnd..s.pos], s.args[..s.start], s.taken, seg);
    }
  }

  lemma MiddleSlice(s: seq<string>, a: nat, b: nat, c: nat)
    requires a <= b <= c <= |s|
    ensures s[a..c] == s[a..b] + s[b..c]
  {
  }

  lemma BothExtended(head: seq<string>, kept: seq<string>, front: seq<string>, taken: seq<string>, seg: seq<string>)
    requires head + kept == front + taken
    ensures head + (kept + seg) == front + (taken + seg)
  {
    Associates(head, kept, seg);
    Associates(front, taken, seg);
  }

  lemma ReportOutcome(syntax: Syntax, s: Scan, s': Scan, t: Token)
    requires s.pos < |s.args| && s.place == "" ==> !IsNonOption(syntax, s.args[s.pos]) && s.args[s.pos] != "--"
    requires s.pos < |s.args| && t == NextToken(syntax, s.args, s.pos, s.place) && t.Token?
    requires s' == Consume(Meet(s), t.used, t.place)
    ensures s.Outcome(syntax) == s'.Outcome(syntax).(reports := [t.report] + s'.Outcome(syntax).reports)
  {
    hide NextToken, IsNonOption;
    var p := Parse(syntax, s.args, s.pos + t.used, t.place);
    var seg := s.args[s.pos..s.pos + t.used];
    assert s.taken + (seg + p.taken) == (s.taken + seg) + p.taken;
  }

  /** An option is reported: what the scan amounts to is that report and what the rest of the scan amounts to. */
  lemma ReportKeeps(syntax: Syntax, s: Scan)
    requires s.Valid(syntax.mode) && s.pos < |s.args|
    requires s.place == "" ==> !IsNonOption(syntax, s.args[s.pos]) && s.args[s.pos] != "--"
    ensures
      var t := NextToken(syntax, s.args, s.pos, s.place);
      if t.Dash? then
        Meet(s).(place := "").Arranged() && s.Outcome(syntax) == Parsed([], s.taken, s.skipped, s.args[s.pos..], false)
      else
        var s' := Consume(Meet(s), t.used, t.place);
        s'.Valid(syntax.mode)
        && s.Outcome(syntax) == s'.Outcome(syntax).(reports := [t.report] + s'.Outcome(syntax).reports)
  {
    hide NextToken, IsNonOption;
    MeetKeeps(s);
    var t := NextToken(syntax, s.args, s.pos, s.place);
    if t.Dash? {
      assert s.taken + [] == s.taken && s.skipped + [] == s.skipped;
    } else {
      var s' := Consume(Meet(s), t.used, t.place);
      ReportOutcome(syntax, s, s', t);
      ConsumeKeeps(Meet(s), t.used, t.place);
      hide Scan.Arranged, Scan.Outcome;
    }
  }

  lemma ReportAdvances(syntax: Syntax, s: Scan, s': Scan, t: Token, r: Results, report: Report, optopt0: int)
    requires syntax.Valid() && s.Valid(syntax.mode) && s.pos < |s.args|
    requires s.place == "" ==> !IsNonOption(syntax, s.args[s.pos]) && s.args[s.pos] != "--"
    requires t == NextToken(syntax, s.args, s.pos, s.place)
    requires
      if t.Dash? then s' == Meet(s).(place := "") && r == Results(None, optopt0, -1, None)
      else
        && s' == Consume(Meet(s), t.used, t.place) && report == t.report
        && r == Results(report.optarg, if report.optopt.Some? then report.optopt.value else optopt0,
                report.code, report.idx)
    ensures Advanced(syntax, s.Outcome(syntax), s', r, report, optopt0)
  {
    ReportKeeps(syntax, s);
    hide NextToken, Scan.Arranged, Scan.Valid, Scan.Outcome, Syntax.Valid;
  }

  /** The end of the vector. */
  lemma EndKeeps(syntax: Syntax, s: Scan)
    requires s.Valid(syntax.mode) && s.place == "" && s.pos == |s.args|
    ensures s.Outcome(syntax) == Parsed([], s.taken, s.skipped, [], true)
    ensures
      if s.nonoptEnd != -1 then
        Partitioned(s.Gathered(), s.pos - (s.nonoptEnd - s.nonoptStart), s.args, s.start, s.Outcome(syntax))
      else
        Partitioned(s.argv, if s.nonoptStart != -1 then s.nonoptStart else s.pos, s.args, s.start, s.Outcome(syntax))
  {
    assert s.taken + [] == s.taken && s.skipped + [] == s.skipped;
    var o := s.Outcome(syntax);
    if s.nonoptEnd != -1 {
      GatheredIs(s);
      assert s.Gathered() == s.Gathered()[..s.pos];
    } else {
      assert s.argv == s.argv[..s.pos];
      if s.nonoptStart != -1 {
        assert s.argv == s.argv[..s.nonoptStart] + s.argv[s.nonoptStart..s.pos];
      }
    }
    assert s.args[..s.start] + o.taken + o.skipped + o.rest == s.args[..s.start] + o.taken + o.skipped;
    assert s.skipped == [] ==> s.args[..s.start] + o.taken + o.skipped == s.args[..s.start] + o.taken;
  }

  /** The whole vector, once the skipped block has been moved behind the options. */
  lemma WholeVector(s: Scan)
    requires s.Arranged() && (s.nonoptStart == -1 <==> s.nonoptEnd == -1)
    ensures s.nonoptEnd != -1 ==>
      && s.Gathered() == s.args[..s.start] + s.taken + s.skipped + s.args[s.pos..]
      && s.pos - (s.nonoptEnd - s.nonoptStart) == s.start + |s.taken|
    ensures s.nonoptEnd == -1 ==>
      && s.argv == s.args[..s.start] + s.taken + s.args[s.pos..]
      && s.skipped == [] && s.pos == s.start + |s.taken|
  {
    hide Scan.Gathered;
    if s.nonoptEnd != -1 {
      GatheredIs(s);
      var g := s.Gathered();
      assert g == g[..s.pos] + g[s.pos..];
    } else {
      assert s.argv == s.argv[..s.pos] + s.argv[s.pos..];
    }
  }

  lemma TerminatorOutcome(syntax: Syntax, s: Scan)
    requires s.pos < |s.args| && s.place == "" && s.args[s.pos] == "--"
    ensures s.Outcome(syntax) == Parsed([], s.taken + ["--"], s.skipped, s.args[s.pos + 1..], true)
    ensures s.args[s.pos..s.pos + 1] == ["--"]
  {
    assert s.skipped + [] == s.skipped;
  }

  /** The entry "--". */
  lemma TerminatorKeeps(syntax: Syntax, s: Scan)
    requires s.Valid(syntax.mode) && s.place == "" && s.pos < |s.args| && s.args[s.pos] == "--"
    ensures
      var s' := Consume(Meet(s), 1, "");
      && s.Outcome(syntax) == Parsed([], s'.taken, s'.skipped, s.args[s.pos + 1..], true)
      && s'.nonoptEnd < s'.pos
      && if s'.nonoptEnd != -1 then
           s'.Arranged() &&
           Partitioned(s'.Gathered(), s'.pos - (s'.nonoptEnd - s'.nonoptStart), s.args, s.start, s.Outcome(syntax))
         else
           Partitioned(s.argv, s'.pos, s.args, s.start, s.Outcome(syntax))
  {
    hide Scan.Arranged, Scan.Gathered, Scan.Outcome;
    ValidFacts(s, syntax.mode);
    TerminatorOutcome(syntax, s);
    MeetKeeps(s);
    ConsumeKeeps(Meet(s), 1, "");
    var s' := Consume(Meet(s), 1, "");
    WholeVector(s');
    ValidLengths(s');
    if s'.skipped == [] {
      AppendNothing(s.args[..s.start] + s'.taken);
    }
    hide Meet, Consume, IsNonOption, Parse;
  }

  /** A non-option at which a scan in POSIX mode stops. */
  lemma PosixStopKeeps(syntax: Syntax, s: Scan)
    requires s.Valid(syntax.mode) && syntax.mode == Posix
    requires s.place == "" && s.pos < |s.args| && IsNonOption(syntax, s.args[s.pos])
    ensures s.Outcome(syntax) == Parsed([], s.taken, [], s.args[s.pos..], true)
    ensures Partitioned(s.argv, s.pos, s.args, s.start, s.Outcome(syntax))
  {
    var o := s.Outcome(syntax);
    assert s.argv == s.argv[..s.pos] + s.argv[s.pos..];
    assert s.taken + [] == s.taken && s.skipped + [] == [];
    assert s.args[..s.start] + o.taken + [] + o.rest == s.args[..s.start] + o.taken + o.rest;
  }

  /** A non-option which is reported as the argument of option 1. */
  lemma InOrderKeeps(syntax: Syntax, s: Scan)
    requires s.Valid(syntax.mode) && syntax.mode == InOrder
    requires s.place == "" && s.pos < |s.args| && IsNonOption(syntax, s.args[s.pos])
    ensures
      var s' := Consume(s, 1, "");
      && s'.Valid(InOrder)
      && s.Outcome(syntax) ==
         s'.Outcome(syntax).(reports := [Report(INORDER, Some(s.args[s.pos]), None, None)] + s'.Outcome(syntax).reports)
  {
    ConsumeKeeps(s, 1, "");
    var p := Parse(syntax, s.args, s.pos + 1, "");
    assert s.args[s.pos..s.pos + 1] == [s.args[s.pos]];
    assert s.taken + ([s.args[s.pos]] + p.taken) == (s.taken + [s.args[s.pos]]) + p.taken;
  }

  lemma LongTokenUsed(syntax: Syntax, text: string, next: seq<string>)
    requires syntax.long.Some?
    ensures LongToken(syntax, text, next, 2) ==
            var t := LongToken(syntax, text, next, 1); Token(t.report, t.used + 1, "")
  {
  }

  lemma ValidFacts(s: Scan, mode: Mode)
    requires s.Valid(mode)
    ensures s.Arranged() && s.start <= s.pos <= |s.args| == |s.argv|
    ensures s.place == "" ==> s.nonoptEnd < s.pos
    ensures s.pos < |s.args| ==> s.argv[s.pos] == s.args[s.pos]
    ensures mode != Permute ==> s.skipped == [] && s.nonoptStart == -1 && s.nonoptEnd == -1
    ensures s.argv[s.pos..] == s.args[s.pos..]
  {
    if s.pos < |s.args| {
      assert s.argv[s.pos] == s.argv[s.pos..][0] == s.args[s.pos..][0];
    }
  }

  lemma GatherBounds(s: Scan)
    requires s.Arranged()
    ensures s.nonoptEnd != -1 ==> 0 <= s.nonoptStart < s.nonoptEnd <= s.pos <= |s.argv|
    ensures s.nonoptStart == -1 || 0 <= s.nonoptStart < s.pos
    ensures s.nonoptEnd == -1 || 0 <= s.nonoptEnd
  {
  }

  lemma DashFirst(syntax: Syntax, arg: string)
    requires !IsNonOption(syntax, arg)
    ensures arg != "" && arg[0] == '-'
    ensures |arg| > 1 && arg[1..] == "-" <==> arg == "--"
    ensures |arg| == 1 ==> arg == "-"
  {
    if |arg| > 1 && arg[1..] == "-" {
      assert arg == [arg[0]] + arg[1..];
    }
  }

  // ---------- the program ----------

  class Scanner {
    const nargv: array<string>
    var optind: nat
    var optreset: bool
    var optarg: Option<string>
    var optopt: int
    var place: string
    var nonoptStart: int
    var nonoptEnd: int

    ghost var args: seq<string>
    ghost var start: nat
    ghost var taken: seq<string>
    ghost var skipped: seq<string>

    ghost function State(): Scan
      reads this, nargv
    {
      Scan(nargv[..], optind, place, nonoptStart, nonoptEnd, args, start, taken, skipped)
    }

    /** The scan which the next call continues; a reset begins a new one at optind. */
    ghost function Current(): Scan
      reads this, nargv
    {
      if optreset || optind == 0 then FreshScan(nargv[..], if optind == 0 then 1 else optind) else State()
    }

    constructor (argv: array<string>)
      requires argv.Length >= 1
      ensures nargv == argv && Current() == FreshScan(argv[..], 1) && fresh(this)
    {
      nargv := argv;
      optind, optreset, optarg, optopt := 1, false, None, '?' as int;
      place, nonoptStart, nonoptEnd := "", -1, -1;
      args, start, taken, skipped := argv[..], 1, [], [];
    }

    /** The results hold token t, with optind and optopt counted from their values before the call. */
    ghost predicate Yields(t: Token, optind0: nat, optopt0: int, code: int, idx: Option<nat>)
      requires t.Token?
      reads this
    {
      && code == t.report.code && idx == t.report.idx && optarg == t.report.optarg
      && optopt == (if t.report.optopt.Some? then t.report.optopt.value else optopt0)
      && optind == optind0 + t.used
    }

    /** The part of `parse_long_options` that deals with the option found at `index`. */
    method TakeLongOption(syntax: Syntax, index: nat, eq: nat, hasEqual: bool) returns (code: int, idx: Option<nat>)
      requires syntax.long.Some? && index < |syntax.long.value| && 0 < optind <= nargv.Length && optarg == None
      requires hasEqual ==> eq < |place|
      modifies this`optind, this`optarg, this`optopt
      ensures
        var value := if hasEqual then Some(place[eq + 1..]) else None;
        Yields(FoundToken(syntax, index, value, nargv[old(optind)..], 1), old(optind) - 1, old(optopt), code, idx)
    {
      var o := syntax.long.value[index];
      idx := None;
      if o.hasArg == NoArgument && hasEqual {
        optopt := if !o.hasFlag then o.val else 0;
        return BadArg(syntax.letters), None;
      }
      if o.hasArg == RequiredArgument || o.hasArg == OptionalArgument {
        if hasEqual {
          optarg := Some(place[eq + 1..]);
        } else if o.hasArg == RequiredArgument {
          optarg := if optind < nargv.Length then Some(nargv[optind]) else None;
          optind := optind + 1;
        }
      }
      if o.hasArg == RequiredArgument && optarg == None {
        optopt := if !o.hasFlag then o.val else 0;
        optind := optind - 1;
        return BadArg(syntax.letters), None;
      }
      idx := Some(index);
      code := if o.hasFlag then 0 else o.val;
    }

    /** `parse_long_options` for the text at place. */
    method ParseLongOptions(syntax: Syntax) returns (code: int, idx: Option<nat>)
      requires syntax.long.Some? && optind < nargv.Length && optarg == None
      modifies this`optind, this`optarg, this`optopt
      ensures Yields(LongToken(syntax, place, nargv[old(optind) + 1..], 1), old(optind), old(optopt), code, idx)
    {
      var long := syntax.long.value;
      idx := None;
      optind := optind + 1;
      var eq := IndexOf(place, '=');
      var hasEqual := eq < |place|;
      var m := MatchLong(place[..eq], long, false);
      hide MatchOf, FoundToken, IndexOf;
      if m.Found? {
        code, idx := TakeLongOption(syntax, m.index, eq, hasEqual);
      } else {
        optopt := 0;
        return BADCH, None;
      }
    }

    /** The letter at `oli`, with what is left of its cluster at place. */
    method TakeLetter(syntax: Syntax, oli: nat, optchar: char) returns (code: int)
      requires optind < nargv.Length && optarg == None
      modifies this`optind, this`optarg, this`optopt, this`place
      ensures
        var t := KnownLetter(syntax, oli, optchar, old(place), nargv[old(optind) + 1..]);
        Yields(t, old(optind), old(optopt), code, None) && place == t.place
    {
      code := optchar as int;
      if CharAt(syntax.letters, oli + 1) != ':' {
        if place == "" {
          optind := optind + 1;
        }
      } else {
        if place != "" {
          optarg := Some(place);
        } else if CharAt(syntax.letters, oli + 2) != ':' {
          optind := optind + 1;
          if optind >= nargv.Length {
            place := "";
            optopt := optchar as int;
            return BadArg(syntax.letters);
          }
          optarg := Some(nargv[optind]);
        }
        place := "";
        optind := optind + 1;
      }
    }

    /** The short option part of `getopt_internal`. */
    method ParseLetter(syntax: Syntax) returns (code: int, idx: Option<nat>)
      requires place != "" && optind < nargv.Length && optarg == None
      modifies this`optind, this`optarg, this`optopt, this`place
      ensures
        var t := LetterToken(syntax, old(place), nargv[old(optind) + 1..]);
        if t.Dash? then
          code == -1 && idx == None && place == "" && optarg == None && optind == old(optind) && optopt == old(optopt)
        else
          Yields(t, old(optind), old(optopt), code, idx) && place == t.place
    {
      hide IndexOf, LongToken, KnownLetter;
      ghost var next := nargv[optind + 1..];
      idx := None;
      var optchar := place[0];
      place := place[1..];
      var oli := IndexOf(syntax.letters, optchar);
      if optchar == ':' || (optchar == '-' && place != "") || oli == |syntax.letters| {
        if optchar == '-' && place == "" {
          return -1, None;
        }
        if place == "" {
          optind := optind + 1;
        }
        optopt := optchar as int;
        return BADCH, None;
      }
      if syntax.long.Some? && optchar == 'W' && CharAt(syntax.letters, oli + 1) == ';' {
        if place == "" {
          optind := optind + 1;
          if optind >= nargv.Length {
            optopt := optchar as int;
            return BadArg(syntax.letters), None;
          }
          place := nargv[optind];
          assert next[1..] == nargv[optind + 1..];
          LongTokenUsed(syntax, place, next[1..]);
        }
        code, idx := ParseLongOptions(syntax);
        place := "";
        return;
      }
      code := TakeLetter(syntax, oli, optchar);
    }

    /** The state when an option entry has been found, or inside one: s, with the block of non-options closed. */
    ghost predicate AtOption(syntax: Syntax, s: Scan, lone: bool)
      reads this, nargv
    {
      && s.Valid(syntax.mode) && s.pos < |s.args|
      && (s.place == "" ==> !IsNonOption(syntax, s.args[s.pos]) && s.args[s.pos] != "--")
      && State() == Meet(s).(place := place)
      && place == (if s.place == "" then ClusterOf(s.args[s.pos]) else s.place)
      && (lone <==> s.place == "" && s.args[s.pos] == "-")
    }

    /** The end of the argument vector is reached. */
    method AtEnd(syntax: Syntax, ghost s: Scan)
      requires s.Valid(syntax.mode) && s.place == "" && s == State().(place := "")
      requires optind >= nargv.Length && optarg == None
      modifies this`optind, this`place, this`nonoptStart, this`nonoptEnd, nargv
      ensures Finished(s.Outcome(syntax), State(), optarg)
    {
      hide Scan.Arranged, Scan.Valid, Scan.Outcome, Partitioned, PermuteArgs.Exchanged;
      ValidFacts(s, syntax.mode);
      ValidLengths(s);
      EndKeeps(syntax, s);
      GatherBounds(s);
      place := "";
      if nonoptEnd != -1 {
        MoveSkipped();
      } else if nonoptStart != -1 {
        optind := nonoptStart;
      }
      nonoptStart, nonoptEnd := -1, -1;
    }

    /** The non-option at optind is skipped. */
    method SkipEntry(syntax: Syntax, ghost s: Scan)
      requires s.Valid(syntax.mode) && s.place == place == "" && s == State() && syntax.mode == Permute
      requires optind < nargv.Length && IsNonOption(syntax, nargv[optind])
      modifies this`optind, this`nonoptStart, this`nonoptEnd, this`skipped, nargv
      ensures State() == Skip(s) && State().Valid(syntax.mode) && State().Outcome(syntax) == s.Outcome(syntax)
    {
      hide IsNonOption, Partitioned, Scan.Arranged, Scan.Valid, Scan.Outcome, PermuteArgs.Exchanged;
      ValidFacts(s, syntax.mode);
      assert s.argv[s.pos] == nargv[optind];
      ValidLengths(s);
      SkipKeeps(syntax, s);
      ghost var s' := Skip(s);
      if nonoptStart == -1 {
        nonoptStart := optind;
      } else if nonoptEnd != -1 {
        PermuteArgs.Permute(nargv, nonoptStart, nonoptEnd, optind);
        nonoptStart := optind - (nonoptEnd - nonoptStart);
        nonoptEnd := -1;
      }
      optind := optind + 1;
      skipped := s'.skipped;
    }

    /** The entry at optind is a non-option: report it, stop at it, or skip it. */
    method AtNonOption(syntax: Syntax, ghost s: Scan) returns (code: Option<int>, ghost s': Scan)
      requires s.Valid(syntax.mode) && s.place == "" && s == State().(place := "")
      requires optind < nargv.Length && place == nargv[optind] && IsNonOption(syntax, place)
      requires optarg == None
      modifies this`optind, this`place, this`nonoptStart, this`nonoptEnd, this`optarg, this`taken, this`skipped, nargv
      ensures code == None ==>
        && s' == State() && s'.place == "" && s'.Valid(syntax.mode) && optarg == None
        && s'.Outcome(syntax) == s.Outcome(syntax)
        && optind == old(optind) + 1
      ensures code == Some(INORDER) ==>
        && s' == State() && s'.Valid(syntax.mode) && optarg.Some? && optind > 0
        && var w := s'.Outcome(syntax);
          s.Outcome(syntax) == w.(reports := [Report(INORDER, optarg, None, None)] + w.reports)
      ensures code.Some? && code.value != INORDER ==> code.value == -1 && Finished(s.Outcome(syntax), State(), optarg)
    {
      hide IsNonOption, Partitioned, Scan.Arranged, Scan.Valid, Scan.Outcome, PermuteArgs.Exchanged;
      ValidFacts(s, syntax.mode);
      assert s.argv[s.pos] == place;
      place := "";
      if syntax.mode == InOrder {
        InOrderKeeps(syntax, s);
        optarg := Some(nargv[optind]);
        optind := optind + 1;
        taken := taken + s.args[s.pos..s.pos + 1];
        return Some(INORDER), Consume(s, 1, "");
      }
      if syntax.mode == Posix {
        PosixStopKeeps(syntax, s);
        return Some(-1), s;
      }
      SkipEntry(syntax, s);
      return None, Skip(s);
    }

    /** The option "--", whose entry is at optind, ends the scan. */
    method AtTerminator(syntax: Syntax, ghost s: Scan)
      requires s.Valid(syntax.mode) && s.place == "" && State() == Meet(s).(place := place)
      requires optind < nargv.Length && s.args[s.pos] == "--" && optarg == None
      modifies this`optind, this`place, this`nonoptStart, this`nonoptEnd, nargv
      ensures Finished(s.Outcome(syntax), State(), optarg)
    {
      hide Partitioned, Scan.Arranged, Scan.Valid, Scan.Outcome, PermuteArgs.Exchanged;
      ValidFacts(s, syntax.mode);
      TerminatorKeeps(syntax, s);
      ghost var s' := Consume(Meet(s), 1, "");
      optind := optind + 1;
      place := "";
      if nonoptEnd != -1 {
        ValidLengths(s');
        MoveSkipped();
      }
      nonoptStart, nonoptEnd := -1, -1;
    }

    /** The skipped block is moved behind the options that follow it. */
    method MoveSkipped()
      requires 0 <= nonoptStart <= nonoptEnd < optind <= nargv.Length
      modifies this`optind, nargv
      ensures nargv[..] == PermuteArgs.Exchanged(old(nargv[..]), nonoptStart, nonoptEnd, old(optind))
      ensures optind == old(optind) - (nonoptEnd - nonoptStart)
    {
      hide *;
      PermuteArgs.Permute(nargv, nonoptStart, nonoptEnd, optind);
      optind := optind - (nonoptEnd - nonoptStart);
    }

    /** The entry at optind is an option: "--" ends the scan, otherwise place points behind its dash. */
    method AtOptionEntry(syntax: Syntax, ghost s: Scan) returns (terminator: bool, lone: bool)
      requires s.Valid(syntax.mode) && s.place == "" && s == State().(place := "")
      requires optind < nargv.Length && place == nargv[optind] && !IsNonOption(syntax, place)
      requires optarg == None && !optreset
      modifies this`optind, this`place, this`nonoptStart, this`nonoptEnd, nargv
      ensures terminator ==> Finished(s.Outcome(syntax), State(), optarg)
      ensures !terminator ==> AtOption(syntax, s, lone) && optind == old(optind)
    {
      hide IsNonOption, Partitioned, Scan.Arranged, Scan.Valid, Scan.Outcome, PermuteArgs.Exchanged;
      ValidFacts(s, syntax.mode);
      assert s.args[s.pos] == place;
      DashFirst(syntax, place);
      if nonoptStart != -1 && nonoptEnd == -1 {
        nonoptEnd := optind;
      }
      if |place| > 1 {
        place := place[1..];
        if place == "-" {
          AtTerminator(syntax, s);
          return true, false;
        }
      }
      return false, |nargv[optind]| == 1;
    }

    /** One entry is looked at from the label `start`. */
    method ScanEntry(syntax: Syntax, ghost s: Scan) returns (code: Option<int>, lone: bool, ghost s': Scan)
      requires s.Valid(syntax.mode) && s == State().(place := "") && (optreset || place == "")
      requires optarg == None && optind > 0
      modifies this`optind, this`place, this`nonoptStart, this`nonoptEnd, this`optarg, this`optreset,
          this`taken, this`skipped, nargv
      ensures !optreset
      ensures code == None ==>
        && optarg == None && s'.Valid(syntax.mode) && s'.Outcome(syntax) == s.Outcome(syntax)
        && if place == "" then s' == State() && optind == old(optind) + 1 <= nargv.Length
           else AtOption(syntax, s', lone) && optind == old(optind) < nargv.Length
      ensures code == Some(INORDER) ==>
        && s' == State() && s'.Valid(syntax.mode) && optarg.Some? && optind > 0
        && var w := s'.Outcome(syntax);
          s.Outcome(syntax) == w.(reports := [Report(INORDER, optarg, None, None)] + w.reports)
      ensures code.Some? && code.value != INORDER ==> code.value == -1 && Finished(s.Outcome(syntax), State(), optarg)
    {
      hide IsNonOption, Partitioned, Scan.Valid, Scan.Outcome, Finished;
      code, lone, s' := None, false, s;
      optreset := false;
      if optind >= nargv.Length {
        AtEnd(syntax, s);
        return Some(-1), false, s;
      }
      place := nargv[optind];
      if IsNonOption(syntax, place) {
        code, s' := AtNonOption(syntax, s);
      } else {
        var terminator: bool;
        terminator, lone := AtOptionEntry(syntax, s);
        if terminator {
          return Some(-1), false, s;
        }
      }
    }

    /**
      The part of `getopt_internal` behind the label `start`, up to the option:
      either the scan is over, or the next option has been found.
     */
    method FindOption(syntax: Syntax, ghost s0: Scan) returns (code: Option<int>, lone: bool, ghost s: Scan)
      requires s0.Valid(syntax.mode) && optind > 0 && optarg == None
      requires if optreset || place == "" then s0 == State().(place := "") else s0 == State()
      modifies this`optind, this`place, this`nonoptStart, this`nonoptEnd, this`optarg, this`optreset,
          this`taken, this`skipped, nargv
      ensures !optreset
      ensures code == None ==>
        AtOption(syntax, s, lone) && s.Outcome(syntax) == s0.Outcome(syntax) && optarg == None && optind > 0
      ensures code == Some(INORDER) ==>
        && s == State() && s.Valid(syntax.mode) && optarg.Some? && optind > 0
        && var w := s.Outcome(syntax);
          s0.Outcome(syntax) == w.(reports := [Report(INORDER, optarg, None, None)] + w.reports)
      ensures code.Some? && code.value != INORDER ==> code.value == -1 && Finished(s0.Outcome(syntax), State(), optarg)
    {
      code, lone, s := None, false, s0;
      if !(optreset || place == "") {
        MidCluster(syntax);
      }
      assert optind <= nargv.Length;
      hide IsNonOption, Partitioned, Scan.Valid, Scan.Outcome, Finished, AtOption;
      while code == None && (optreset || place == "")
        invariant code == None ==>
          && 0 < optind <= nargv.Length && optarg == None
          && s.Valid(syntax.mode) && s.Outcome(syntax) == s0.Outcome(syntax)
          && if optreset || place == "" then s == State().(place := "") else AtOption(syntax, s, lone)
        invariant code == Some(INORDER) ==>
          && s == State() && s.Valid(syntax.mode) && optarg.Some? && optind > 0
          && var w := s.Outcome(syntax);
            s0.Outcome(syntax) == w.(reports := [Report(INORDER, optarg, None, None)] + w.reports)
        invariant code.Some? && code.value != INORDER ==>
          code.value == -1 && Finished(s0.Outcome(syntax), State(), optarg)
        invariant code.Some? ==> !optreset
        decreases if code.Some? then 0 else nargv.Length + 1 - optind, place == "" || optreset
      {
        code, lone, s := ScanEntry(syntax, s);
      }
    }

    /** Inside a cluster there is no lone dash, and the block of non-options is closed. */
    ghost method MidCluster(syntax: Syntax)
      requires State().Valid(syntax.mode)
      ensures place != "" ==> AtOption(syntax, State(), false)
    {
    }

    /** The option at place is read, as a long or as a short option. */
    method ReadToken(syntax: Syntax, lone: bool) returns (code: int, idx: Option<nat>)
      requires place != "" && optind < nargv.Length && optarg == None
      modifies this`optind, this`optarg, this`optopt, this`place
      ensures
        var t := TokenAt(syntax, old(place), lone, nargv[old(optind) + 1..]);
        if t.Dash? then
          code == -1 && idx == None && place == "" && optarg == None && optind == old(optind) && optopt == old(optopt)
        else
          Yields(t, old(optind), old(optopt), code, idx) && place == t.place
    {
      hide LongToken, LetterToken;
      if syntax.long.Some? && !lone && place[0] == '-' {
        place := place[1..];
        code, idx := ParseLongOptions(syntax);
        place := "";
      } else {
        code, idx := ParseLetter(syntax);
      }
    }

    /** The token that the program reads at an option is the next token of the scan. */
    lemma TokenOfScan(syntax: Syntax, s: Scan, lone: bool)
      requires AtOption(syntax, s, lone)
      ensures place != "" && optind == s.pos < |s.args| == nargv.Length && taken == s.taken
      ensures s.place == "" ==> !IsNonOption(syntax, s.args[s.pos]) && s.args[s.pos] != "--"
      ensures TokenAt(syntax, place, lone, nargv[optind + 1..]) == NextToken(syntax, s.args, s.pos, s.place)
    {
      ValidFacts(s, syntax.mode);
      assert nargv[optind + 1..] == s.args[s.pos + 1..] by {
        assert nargv[optind + 1..] == s.argv[s.pos..][1..];
      }
      hide TokenAt;
    }

    /** The option which FindOption has found is read and reported. */
    method ReportOption(syntax: Syntax, ghost s: Scan, lone: bool)
        returns (code: int, idx: Option<nat>, ghost report: Report)
      requires syntax.Valid() && AtOption(syntax, s, lone) && optarg == None
      modifies this`optind, this`optarg, this`optopt, this`place, this`taken
      ensures optind >= old(optind)
      ensures Advanced(syntax, s.Outcome(syntax), State(), Results(optarg, optopt, code, idx), report, old(optopt))
    {
      hide TokenAt, NextToken, IsNonOption, Scan.Valid, Scan.Arranged, Scan.Outcome, Advanced;
      TokenOfScan(syntax, s, lone);
      ghost var t := NextToken(syntax, s.args, s.pos, s.place);
      ghost var optopt0 := optopt;
      code, idx := ReadToken(syntax, lone);
      report := if t.Token? then t.report else Report(code, None, None, None);
      if t.Token? {
        taken := taken + s.args[s.pos..s.pos + t.used];
      }
      ReportAdvances(syntax, s, State(), t, Results(optarg, optopt, code, idx), report, optopt0);
    }

    /** The resets at the head of `getopt_internal`. */
    method Begin(mode: Mode)
      requires Current().Valid(mode)
      modifies this`optind, this`optreset, this`optarg, this`nonoptStart, this`nonoptEnd, this`args, this`start,
          this`taken, this`skipped
      ensures 0 < optind && optarg == None
      ensures if optreset || place == "" then old(Current()) == State().(place := "") else old(Current()) == State()
    {
      ghost var s := Current();
      if optind == 0 {
        optind := 1;
        optreset := true;
      }
      optarg := None;
      if optreset {
        nonoptStart, nonoptEnd := -1, -1;
        args, start, taken, skipped := s.args, s.start, s.taken, s.skipped;
      }
    }

    /**
      `getopt_internal`.  One call yields the next report of the scan, or ends it
      with the vector partitioned.  The ghost result tells what was reported.
     */
    method GetoptInternal(options: string, long: Option<seq<LongOption>>, permute: bool, posixlyCorrect: bool)
        returns (code: int, idx: Option<nat>, ghost report: Report)
      requires SyntaxOf(options, long, permute, posixlyCorrect).Valid()
      requires Current().Valid(SyntaxOf(options, long, permute, posixlyCorrect).mode)
      modifies this, nargv
      ensures args == old(Current()).args && start == old(Current()).start
      ensures code != -1 ==> Current() == State()
      ensures
        var syntax := SyntaxOf(options, long, permute, posixlyCorrect);
        Advanced(syntax, old(Current()).Outcome(syntax), State(),
                 Results(optarg, optopt, code, idx), report, old(optopt))
    {
      hide SyntaxOf, Syntax.Valid, Scan.Valid, Scan.Arranged, Scan.Outcome, IsNonOption, Partitioned, AtOption;
      var syntax := SyntaxOf(options, long, permute, posixlyCorrect);
      ghost var s := Current();
      Begin(syntax.mode);
      var found: Option<int>, lone: bool;
      found, lone, s := FindOption(syntax, s);
      if found.Some? {
        code, idx, report := found.value, None, Report(INORDER, optarg, None, None);
      } else {
        code, idx, report := ReportOption(syntax, s, lone);
      }
    }
  }

  /** What a caller sees after a call: its return value, optarg, *idx and optopt. */
  datatype Answer = Answer(code: int, optarg: Option<string>, idx: Option<nat>, optopt: int)

  /** The answers of a scan with these reports; optopt keeps its value, at first o0, until a report sets it. */
  ghost predicate Sees(answers: seq<Answer>, reports: seq<Report>, o0: int) {
    && |answers| == |reports|
    && forall k :: 0 <= k < |answers| ==>
      && answers[k].code == reports[k].code && answers[k].optarg == reports[k].optarg
      && answers[k].idx == reports[k].idx
      && answers[k].optopt ==
         if reports[k].optopt.Some? then reports[k].optopt.value else OptoptAfter(answers[..k], o0)
  }

  function OptoptAfter(answers: seq<Answer>, o0: int): int {
    if answers == [] then o0 else answers[|answers| - 1].optopt
  }

  /**
    The loop of a program that calls getopt until it answers -1: the answers are the
    reports of the one-pass parser on the vector as it was given, and then the
    vector is partitioned - or, in front of a cluster that stalls, left as it is.
   */
  method ScanAll(scanner: Scanner, options: string, long: Option<seq<LongOption>>, permute: bool, posixlyCorrect: bool)
      returns (results: seq<Answer>)
    requires SyntaxOf(options, long, permute, posixlyCorrect).Valid()
    requires 1 <= scanner.optind <= scanner.nargv.Length
    requires scanner.Current() == FreshScan(scanner.nargv[..], scanner.optind)
    modifies scanner, scanner.nargv
    ensures
      var start, argv := old(scanner.optind), old(scanner.nargv[..]);
      var p := Parse(SyntaxOf(options, long, permute, posixlyCorrect), argv, start, "");
      && Sees(results, p.reports, old(scanner.optopt))
      && (Partitioned(scanner.nargv[..], scanner.optind, argv, start, p) <==> p.complete || p.skipped == [])
      && (!p.complete ==> scanner.optind == |argv| - |p.rest| < |argv| && scanner.nargv[scanner.optind..] == p.rest)
  {
    hide Stalls, SyntaxOf, Scan.Valid, Syntax.Valid, Scan.Outcome, Parse, Advanced, Sees, Partitioned, Collects;
    ghost var syntax := SyntaxOf(options, long, permute, posixlyCorrect);
    ghost var args, start := scanner.nargv[..], scanner.optind;
    ghost var p := Parse(syntax, args, start, "");
    FreshOutcome(syntax, args, start);
    StopsBeforeStall(syntax, args, start);
    ghost var o0, optopt0 := scanner.optopt, scanner.optopt;
    ghost var report;
    var code, idx;
    code, idx, report := scanner.GetoptInternal(options, long, permute, posixlyCorrect);
    results := [];
    CollectsFirst(syntax, p, scanner.State(), Results(scanner.optarg, scanner.optopt, code, idx), report, o0);
    while code != -1
      invariant scanner.args == args && scanner.start == start && (code != -1 ==> scanner.Current() == scanner.State())
      invariant |results| <= |p.reports|
      invariant Collects(syntax, p, results, scanner.State(),
          Results(scanner.optarg, scanner.optopt, code, idx), report, o0, optopt0)
      decreases |p.reports| - |results|, code != -1
    {
      ghost var s, r := scanner.State(), Results(scanner.optarg, scanner.optopt, code, idx);
      ReportCollected(syntax, p, results, s, r, report, o0, optopt0);
      ghost var before := results;
      results := results + [Answer(code, scanner.optarg, idx, scanner.optopt)];
      optopt0 := scanner.optopt;
      code, idx, report := scanner.GetoptInternal(options, long, permute, posixlyCorrect);
      CollectsNext(syntax, p, before, r, s, results, scanner.State(),
          Results(scanner.optarg, scanner.optopt, code, idx), report, o0);
    }
    StateFields(scanner);
    AllCollected(syntax, p, results, scanner.State(), Results(scanner.optarg, scanner.optopt, code, idx),
        report, o0, optopt0);
  }

  /** A scan that is incomplete has stopped in front of an entry that stalls. */
  lemma StopsBeforeStall(syntax: Syntax, args: seq<string>, start: nat)
    requires start <= |args|
    ensures var p := Parse(syntax, args, start, ""); !p.complete ==> p.rest != [] && Stalls(syntax, p.rest[0])
  {
    IncompleteStalls(syntax, args, start, "");
    hide Stalls, Parse;
  }

  lemma StateFields(scanner: Scanner)
    ensures
      var s := scanner.State();
      s.argv == scanner.nargv[..] && s.pos == scanner.optind && s.args == scanner.args && s.start == scanner.start
  {
  }

  /** The results so far are the first reports of p, and the last call is the next step of what is left of p. */
  ghost predicate Collects(syntax: Syntax, p: Parsed, results: seq<Answer>, s: Scan, r: Results, report: Report,
                           o0: int, optopt0: int)
  {
    && |results| <= |p.reports| && Sees(results, p.reports[..|results|], o0) && optopt0 == OptoptAfter(results, o0)
    && Advanced(syntax, p.(reports := p.reports[|results|..]), s, r, report, optopt0)
  }

  lemma CollectsFirst(syntax: Syntax, p: Parsed, s: Scan, r: Results, report: Report, o0: int)
    requires Advanced(syntax, p, s, r, report, o0)
    ensures Collects(syntax, p, [], s, r, report, o0, o0)
  {
    hide Advanced;
    assert p.reports[0..] == p.reports;
  }

  /** A call that reports yields the next report, and the rest of the scan amounts to the later ones. */
  lemma ReportCollected(syntax: Syntax, p: Parsed, results: seq<Answer>, s: Scan, r: Results, report: Report,
                        o0: int, optopt0: int)
    requires Collects(syntax, p, results, s, r, report, o0, optopt0) && r.code != -1
    ensures |results| < |p.reports|
    ensures Sees(results + [Answer(r.code, r.optarg, r.idx, r.optopt)], p.reports[..|results| + 1], o0)
    ensures s.Valid(syntax.mode) && s.Outcome(syntax) == p.(reports := p.reports[|results| + 1..])
  {
    hide Scan.Outcome;
    var k := |results|;
    var later := s.Outcome(syntax).reports;
    assert p.reports[k..] == [report] + later;
    assert |p.reports[k..]| == 1 + |later|;
    assert p.reports[k + 1..] == p.reports[k..][1..] == later;
    assert p.reports[k] == p.reports[k..][0] == report;
    hide Advanced, Scan.Valid;
    SeesNext(results, p.reports[..k], o0, Answer(r.code, r.optarg, r.idx, r.optopt), report);
    assert p.reports[..k + 1] == p.reports[..k] + [report];
  }

  lemma SeesNext(answers: seq<Answer>, reports: seq<Report>, o0: int, a: Answer, report: Report)
    requires Sees(answers, reports, o0)
    requires a.code == report.code && a.optarg == report.optarg && a.idx == report.idx
    requires a.optopt == if report.optopt.Some? then report.optopt.value else OptoptAfter(answers, o0)
    ensures Sees(answers + [a], reports + [report], o0)
  {
    hide OptoptAfter;
    forall k | 0 <= k < |answers|
      ensures (answers + [a])[..k] == answers[..k]
    {
    }
    assert (answers + [a])[..|answers|] == answers;
  }

  lemma CollectsNext(syntax: Syntax, p: Parsed, before: seq<Answer>, r0: Results, s0: Scan, results: seq<Answer>,
                     s: Scan, r: Results, report: Report, o0: int)
    requires |before| < |p.reports| && results == before + [Answer(r0.code, r0.optarg, r0.idx, r0.optopt)]
    requires Sees(results, p.reports[..|before| + 1], o0)
    requires s0.Valid(syntax.mode) && s0.Outcome(syntax) == p.(reports := p.reports[|before| + 1..])
    requires Advanced(syntax, s0.Outcome(syntax), s, r, report, r0.optopt)
    ensures Collects(syntax, p, results, s, r, report, o0, r0.optopt)
  {
    hide Advanced, Sees, Scan.Valid, Scan.Outcome;
  }

  /** When a call answers -1 all reports have been made. */
  lemma AllCollected(syntax: Syntax, p: Parsed, results: seq<Answer>, s: Scan, r: Results, report: Report,
                     o0: int, optopt0: int)
    requires Collects(syntax, p, results, s, r, report, o0, optopt0) && r.code == -1
    requires s.start <= |s.args| && (!p.complete ==> p.rest != [])
    ensures Sees(results, p.reports, o0)
    ensures Partitioned(s.argv, s.pos, s.args, s.start, p) <==> p.complete || p.skipped == []
    ensures !p.complete ==> s.pos == |s.argv| - |p.rest| && s.argv[s.pos..] == p.rest
  {
    assert |results| == |p.reports| && p.reports[..|p.reports|] == p.reports;
    if !p.complete && p.skipped == [] {
      assert s.argv == s.argv[..s.pos] + s.argv[s.pos..];
      assert s.args[..s.start] + p.taken + [] + p.rest == s.args[..s.start] + p.taken + p.rest;
    }
  }

  /** A vector in which no entry is a cluster that stalls is scanned to its end. */
  lemma CompleteWithoutStalls(syntax: Syntax, args: seq<string>, start: nat)
    requires start <= |args| && forall a :: a in args[start..] ==> !Stalls(syntax, a)
    ensures Parse(syntax, args, start, "").complete
  {
    var p := Parse(syntax, args, start, "");
    IncompleteStalls(syntax, args, start, "");
    ParsePartitions(syntax, args, start, "");
    hide Stalls, Parse;
    forall a | a in p.rest
      ensures a in args[start..]
    {
      assert a in Contents(p);
      assert a in multiset(args[start..]);
    }
  }

  lemma FreshOutcome(syntax: Syntax, argv: seq<string>, pos: nat)
    requires 1 <= pos <= |argv|
    ensures FreshScan(argv, pos).Valid(syntax.mode)
    ensures FreshScan(argv, pos).Outcome(syntax) == Parse(syntax, argv, pos, "")
  {
    assert argv[..pos] + [] == argv[..pos];
    var p := Parse(syntax, argv, pos, "");
    assert [] + p.taken == p.taken && [] + p.skipped == p.skipped;
  }

  /** Partitioning rearranges the vector: no entry is lost, and the program name stays in front. */
  lemma PartitionRearranges(syntax: Syntax, argv: seq<string>, pos: int, args: seq<string>, start: nat)
    requires start <= |args|
    requires Partitioned(argv, pos, args, start, Parse(syntax, args, start, ""))
    ensures multiset(argv) == multiset(args) && argv[..start] == args[..start]
    ensures forall k :: pos <= k < pos + |Parse(syntax, args, start, "").skipped| ==> IsNonOption(syntax, argv[k])
  {
    var p := Parse(syntax, args, start, "");
    ParsePartitions(syntax, args, start, "");
    SkippedAreNonOptions(syntax, args, start, "");
    hide Parse, IsNonOption;
    Rearranged(args, start, p);
    forall k | pos <= k < pos + |p.skipped|
      ensures IsNonOption(syntax, argv[k])
    {
      assert argv[k] == p.skipped[k - pos];
    }
  }

  /** It does so without changing the order of the entries that were taken, nor of those that were skipped. */
  lemma PartitionIsStable(syntax: Syntax, argv: seq<string>, pos: int, args: seq<string>, start: nat)
      returns (ts: seq<nat>, ss: seq<nat>)
    requires start <= |args|
    requires Partitioned(argv, pos, args, start, Parse(syntax, args, start, ""))
    ensures
      var p := Parse(syntax, args, start, "");
      var behind := pos + |p.skipped|;
      && start <= pos <= behind <= |argv| == |args| && argv[..start] == args[..start]
      && Picks(args, ts, argv[start..pos]) && Picks(args, ss, argv[pos..behind])
      && Divides(ts, ss, start, behind) && argv[behind..] == args[behind..]
  {
    hide Parse, Picks, Divides;
    ts, ss := ParseIsStable(syntax, args, start, "");
    Blocks(argv, pos, args, start, Parse(syntax, args, start, ""));
  }

  lemma Blocks(argv: seq<string>, pos: int, args: seq<string>, start: nat, p: Parsed)
    requires start <= |args| && Partitioned(argv, pos, args, start, p)
    ensures pos >= start && argv[..start] == args[..start] && argv[start..pos] == p.taken
    ensures argv[pos..pos + |p.skipped|] == p.skipped && argv[pos + |p.skipped|..] == p.rest
  {
  }

  lemma Rearranged(args: seq<string>, start: nat, p: Parsed)
    requires start <= |args| && Contents(p) == multiset(args[start..])
    ensures multiset(args[..start] + p.taken + p.skipped + p.rest) == multiset(args)
  {
    SplitCount(args, 0, start);
    assert args[0..] == args && args[0..start] == args[..start];
  }

  lemma TrailingDashTokens(syntax: Syntax, args: seq<string>)
    requires syntax == SyntaxOf("a", None, true, false) && |args| == 5
      && args[1] == "-a" && args[2] == "file" && args[3] == "-a-"
    ensures syntax.mode == Permute && IsNonOption(syntax, args[2])
      && !IsNonOption(syntax, args[1]) && !IsNonOption(syntax, args[3])
    ensures
      var letter := Token(Report('a' as int, None, None, None), 1, "");
      && NextToken(syntax, args, 1, "") == letter
      && NextToken(syntax, args, 3, "") == Token(letter.report, 0, "-") && NextToken(syntax, args, 3, "-").Dash?
  {
  }

  /**
    Without long options and without the letter '-', a cluster such as "-a-" ends
    the scan early: the non-option "file" stays in front of the options.
   */
  lemma TrailingDashStops()
    ensures
      var syntax := SyntaxOf("a", None, true, false);
      var p := Parse(syntax, ["mcusim", "-a", "file", "-a-", "-a"], 1, "");
      !p.complete && p.taken == ["-a"] && p.skipped == ["file"] && p.rest == ["-a-", "-a"]
  {
    hide NextToken, SyntaxOf, IsNonOption;
    var syntax := SyntaxOf("a", None, true, false);
    var args := ["mcusim", "-a", "file", "-a-", "-a"];
    var letter := Token(Report('a' as int, None, None, None), 1, "");
    TrailingDashTokens(syntax, args);
    var p := Parse(syntax, args, 3, "");
    assert !p.complete && p.taken == [] && p.skipped == [] && p.rest == args[3..] by {
      var q := Parse(syntax, args, 3, "-");
      assert q == Parsed([], [], [], args[3..], false);
      assert args[3..3] + [] == [];
    }
    assert Parse(syntax, args, 2, "") == p.(skipped := ["file"]);
    assert args[3..] == ["-a-", "-a"];
    assert args[1..2] == ["-a"];
  }
}
