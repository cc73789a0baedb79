/**
  Command lines as a user means them - operands, letters with and without arguments, long
  options - their text, and what a scan is to report of them (the manual page of getopt).
 */
module CommandLines {
  import opened Basics
  import opened OptionGrammar
  import opened GetoptParse

  // ---------- what options there are ----------

  /** What the option letters say of a character: no colon behind it, one, or two. */
  datatype Arity = NoLetter | Plain | Takes | MayTake

  function ArityOf(letters: string, c: char): Arity {
    var at := IndexOf(letters, c);
    if c == ':' || at == |letters| then NoLetter
    else if !ColonAt(letters, at + 1) then Plain
    else if !ColonAt(letters, at + 2) then Takes
    else MayTake
  }

  predicate ColonAt(s: string, k: nat) {
    k < |s| && s[k] == ':'
  }

  /** "W;" in the letters makes -W name another way to write --name. */
  predicate IsW(syntax: Syntax, c: char) {
    syntax.long.Some? && c == 'W' && var at := IndexOf(syntax.letters, 'W') + 1;
      at < |syntax.letters| && syntax.letters[at] == ';'
  }

  /** The code of an error about an argument: a colon, if the letters begin with one. */
  function ArgumentError(syntax: Syntax, optopt: int): Report {
    Report(if ColonAt(syntax.letters, 0) then ':' as int else '?' as int, None, Some(optopt), None)
  }

  // ---------- items ----------

  datatype LongValue = NoValue | Equals(text: string) | Next(arg: string)

  /** A long option by a name or the beginning of one. */
  datatype LongUse = LongUse(key: string, value: LongValue)
  {
    function Text(): string {
      if value.Equals? then key + "=" + value.text else key
    }

    function Args(): seq<string> {
      if value.Next? then [value.arg] else []
    }
  }

  /** A letter that has no argument, in a cluster. */
  datatype Single = Flag(c: char) | Unknown(c: char)

  /** How a cluster ends: after its last single letter, or with a letter or long option that may have an argument. */
  datatype Ending =
    | Nothing
    | Attached(c: char, text: string)
    | Separate(c: char, arg: string)
    | Bare(c: char)
    | Lacking(c: char)
    | LongHere(u: LongUse)
    | WAttached(u: LongUse)
    | WSeparate(u: LongUse)
    | WLacking

  /** Option entries begin with a dash, except for a lone dash that is an option letter. */
  datatype Item = Operand(text: string) | Options(lone: bool, singles: seq<Single>, ending: Ending)

  /** Where the scan ends: with the vector, at "--", or in POSIX mode at an operand. */
  datatype Tail = NoMore | AfterDashes(rest: seq<string>) | FromOperand(first: string, others: seq<string>)

  // ---------- their text ----------

  function Chars(singles: seq<Single>): string {
    if singles == [] then "" else [singles[0].c] + Chars(singles[1..])
  }

  function EndText(e: Ending): string {
    match e
    case Nothing => ""
    case Attached(c, text) => [c] + text
    case Separate(c, _) => [c]
    case Bare(c) => [c]
    case Lacking(c) => [c]
    case LongHere(u) => "-" + u.Text()
    case WAttached(u) => "W" + u.Text()
    case WSeparate(_) => "W"
    case WLacking => "W"
  }

  function EndArgs(e: Ending): seq<string> {
    match e
    case Separate(_, arg) => [arg]
    case LongHere(u) => u.Args()
    case WAttached(u) => u.Args()
    case WSeparate(u) => [u.Text()] + u.Args()
    case _ => []
  }

  function Entries(it: Item): seq<string> {
    match it
    case Operand(text) => [text]
    case Options(lone, singles, ending) =>
      [(if lone then "" else "-") + (Chars(singles) + EndText(ending))] + EndArgs(ending)
  }

  function Render(items: seq<Item>, tail: Tail): seq<string> {
    if items != [] then Entries(items[0]) + Render(items[1..], tail)
    else
      match tail
      case NoMore => []
      case AfterDashes(rest) => ["--"] + rest
      case FromOperand(first, others) => [first] + others
  }

  // ---------- their meaning ----------

  function SingleReport(s: Single): Report {
    match s
    case Flag(c) => Report(c as int, None, None, None)
    case Unknown(c) => Report('?' as int, None, Some(c as int), None)
  }

  function LongReport(syntax: Syntax, u: LongUse): Report
    requires syntax.long.Some?
  {
    match MatchOf(u.key, syntax.long.value, false)
    case Found(i) =>
      var o := syntax.long.value[i];
      if (o.hasArg == NoArgument && u.value.Equals?) || (o.hasArg == RequiredArgument && u.value.NoValue?) then
        ArgumentError(syntax, if o.hasFlag then 0 else o.val)
      else
        var arg := if u.value.NoValue? then None else Some(if u.value.Equals? then u.value.text else u.value.arg);
        Report(if o.hasFlag then 0 else o.val, arg, None, Some(i))
    case _ => Report('?' as int, None, Some(0), None)
  }

  function EndReports(syntax: Syntax, e: Ending): seq<Report>
    requires e.LongHere? || e.WAttached? || e.WSeparate? ==> syntax.long.Some?
  {
    match e
    case Nothing => []
    case Attached(c, text) => [Report(c as int, Some(text), None, None)]
    case Separate(c, arg) => [Report(c as int, Some(arg), None, None)]
    case Bare(c) => [Report(c as int, None, None, None)]
    case Lacking(c) => [ArgumentError(syntax, c as int)]
    case LongHere(u) => [LongReport(syntax, u)]
    case WAttached(u) => [LongReport(syntax, u)]
    case WSeparate(u) => [LongReport(syntax, u)]
    case WLacking => [ArgumentError(syntax, 'W' as int)]
  }

  function SingleReports(singles: seq<Single>): seq<Report> {
    if singles == [] then [] else [SingleReport(singles[0])] + SingleReports(singles[1..])
  }

  function Meaning(syntax: Syntax, items: seq<Item>, tail: Tail): Parsed
    requires forall k :: 0 <= k < |items| ==> Fits(syntax, items[k])
  {
    if items == [] then
      match tail
      case NoMore => Parsed([], [], [], [], true)
      case AfterDashes(rest) => Parsed([], ["--"], [], rest, true)
      case FromOperand(first, others) => Parsed([], [], [], [first] + others, true)
    else
      Prepend(syntax, items[0], Meaning(syntax, items[1..], tail))
  }

  /** An item in front of what p stands for. */
  function Prepend(syntax: Syntax, it: Item, p: Parsed): Parsed
    requires Fits(syntax, it)
  {
    match it
    case Operand(text) =>
      if syntax.mode == InOrder then
        p.(reports := [Report(1, Some(text), None, None)] + p.reports, taken := [text] + p.taken)
      else p.(skipped := [text] + p.skipped)
    case Options(lone, singles, ending) =>
      p.(reports := SingleReports(singles) + EndReports(syntax, ending) + p.reports, taken := Entries(it) + p.taken)
  }

  // ---------- which items can be written ----------

  /** Long options are known when they are used. */
  predicate Fits(syntax: Syntax, it: Item) {
    it.Options? && (it.ending.LongHere? || it.ending.WAttached? || it.ending.WSeparate?) ==> syntax.long.Some?
  }

  /** A dash is read as a letter only if alone, or at the end of a cluster without long options. */
  predicate SingleOk(syntax: Syntax, s: Single, after: string, lone: bool) {
    match s
    case Flag(c) =>
      && ArityOf(syntax.letters, c) == Plain && !IsW(syntax, c)
      && (c == '-' ==> after == "" && (lone || syntax.long.None?))
    case Unknown(c) =>
      if c == '-' then after != "" && syntax.long.None? else ArityOf(syntax.letters, c) == NoLetter
  }

  /** `more` tells whether entries follow. */
  predicate LongOk(syntax: Syntax, u: LongUse, more: bool)
    requires syntax.long.Some?
  {
    && '=' !in u.key
    && match MatchOf(u.key, syntax.long.value, false)
       case Found(i) =>
         && (u.value.Next? ==> syntax.long.value[i].hasArg == RequiredArgument)
         && (u.value.NoValue? && syntax.long.value[i].hasArg == RequiredArgument ==> !more)
       case _ => !u.value.Next?
  }

  predicate EndOk(syntax: Syntax, e: Ending, lone: bool, more: bool) {
    match e
    case Nothing => true
    case Attached(c, text) =>
      (ArityOf(syntax.letters, c) == Takes || ArityOf(syntax.letters, c) == MayTake) && text != "" && c != '-'
    case Separate(c, _) => ArityOf(syntax.letters, c) == Takes && (c == '-' ==> lone || syntax.long.None?)
    case Bare(c) => ArityOf(syntax.letters, c) == MayTake && (c == '-' ==> lone || syntax.long.None?)
    case Lacking(c) => ArityOf(syntax.letters, c) == Takes && !more && (c == '-' ==> lone || syntax.long.None?)
    case LongHere(u) => !lone && syntax.long.Some? && LongOk(syntax, u, more)
    case WAttached(u) => IsW(syntax, 'W') && u.Text() != "" && LongOk(syntax, u, more)
    case WSeparate(u) => IsW(syntax, 'W') && LongOk(syntax, u, more)
    case WLacking => IsW(syntax, 'W') && !more
  }

  predicate ClusterOk(syntax: Syntax, singles: seq<Single>, e: Ending, lone: bool, more: bool) {
    if singles == [] then EndOk(syntax, e, lone, more)
    else
      && SingleOk(syntax, singles[0], Chars(singles[1..]) + EndText(e), lone)
      && ClusterOk(syntax, singles[1..], e, lone, more)
  }

  predicate IsOperand(syntax: Syntax, text: string) {
    text == "" || text[0] != '-' || (text == "-" && '-' !in syntax.letters)
  }

  predicate ItemOk(syntax: Syntax, it: Item, more: bool) {
    match it
    case Operand(text) => syntax.mode != Posix && IsOperand(syntax, text)
    case Options(lone, singles, e) =>
      var text := Chars(singles) + EndText(e);
      && text != "" && (if lone then text == "-" && '-' in syntax.letters else text != "-")
      && ClusterOk(syntax, singles, e, lone, more)
  }

  predicate LineOk(syntax: Syntax, items: seq<Item>, tail: Tail) {
    if items == [] then tail.FromOperand? ==> syntax.mode == Posix && IsOperand(syntax, tail.first)
    else ItemOk(syntax, items[0], Render(items[1..], tail) != []) && LineOk(syntax, items[1..], tail)
  }

  // ---------- one token ----------

  lemma SingleRead(syntax: Syntax, s: Single, after: string, lone: bool, next: seq<string>)
    requires SingleOk(syntax, s, after, lone)
    ensures TokenAt(syntax, [s.c] + after, lone, next) ==
            Token(SingleReport(s), if after == "" then 1 else 0, after)
  {
    assert ([s.c] + after)[1..] == after;
    hide MatchOf;
  }

  lemma {:induction false} IndexIs(s: string, c: char, k: nat)
    requires k < |s| && s[k] == c && c !in s[..k]
    ensures IndexOf(s, c) == k
    decreases k
  {
    if k > 0 {
      assert s[0] in s[..k];
      assert s[1..][..k - 1] == s[..k][1..];
      IndexIs(s[1..], c, k - 1);
    }
  }

  lemma KeyFound(u: LongUse)
    requires '=' !in u.key
    ensures
      var text := u.Text();
      var eq := IndexOf(text, '=');
      && text[..eq] == u.key
      && (u.value.Equals? ==> eq < |text| && text[eq + 1..] == u.value.text)
      && (!u.value.Equals? ==> eq == |text|)
  {
    var text := u.Text();
    var eq := IndexOf(text, '=');
    if u.value.Equals? {
      assert text[..|u.key|] == u.key && text[|u.key|] == '=' && text[|u.key| + 1..] == u.value.text;
      IndexIs(text, '=', |u.key|);
    }
  }

  lemma LongRead(syntax: Syntax, u: LongUse, next: seq<string>, used: nat)
    requires syntax.long.Some? && LongOk(syntax, u, |next| > |u.Args()|) && u.Args() <= next
    ensures LongToken(syntax, u.Text(), next, used) == Token(LongReport(syntax, u), used + |u.Args()|, "")
  {
    KeyFound(u);
    hide MatchOf, IndexOf, LongUse.Text;
  }

  lemma LetterEndRead(syntax: Syntax, e: Ending, lone: bool, next: seq<string>)
    requires e.Attached? || e.Separate? || e.Bare? || e.Lacking?
    requires EndOk(syntax, e, lone, |next| > |EndArgs(e)|) && EndArgs(e) <= next
    ensures TokenAt(syntax, EndText(e), lone, next) == Token(EndReports(syntax, e)[0], 1 + |EndArgs(e)|, "")
  {
    hide LongToken;
    assert EndText(e) == [e.c] + EndText(e)[1..];
  }

  lemma DashEndRead(syntax: Syntax, u: LongUse, next: seq<string>)
    requires syntax.long.Some? && LongOk(syntax, u, |next| > |u.Args()|) && u.Args() <= next
    ensures TokenAt(syntax, "-" + u.Text(), false, next) == Token(LongReport(syntax, u), 1 + |u.Args()|, "")
  {
    hide LongToken, LongReport, LongOk, LongUse.Text, LongUse.Args;
    LongRead(syntax, u, next, 1);
    assert ("-" + u.Text())[1..] == u.Text();
  }

  /** The letter W is followed by a long option. */
  lemma WRead(syntax: Syntax, tail: string, lone: bool, next: seq<string>)
    requires IsW(syntax, 'W')
    ensures
      TokenAt(syntax, "W" + tail, lone, next) ==
      if tail != "" then LongToken(syntax, tail, next, 1)
      else if next == [] then Token(ArgumentError(syntax, 'W' as int), 1, "")
      else LongToken(syntax, next[0], next[1..], 2)
  {
    hide LongToken;
    assert ("W" + tail)[1..] == tail;
  }

  lemma WEndRead(syntax: Syntax, e: Ending, lone: bool, next: seq<string>)
    requires e.WAttached? || e.WSeparate? || e.WLacking?
    requires EndOk(syntax, e, lone, |next| > |EndArgs(e)|) && EndArgs(e) <= next
    ensures TokenAt(syntax, EndText(e), lone, next) == Token(EndReports(syntax, e)[0], 1 + |EndArgs(e)|, "")
  {
    hide TokenAt, LongToken, LongReport, LongOk, LongUse.Text, LongUse.Args;
    match e
    case WAttached(u) =>
      WRead(syntax, u.Text(), lone, next);
      LongRead(syntax, u, next, 1);
    case WSeparate(u) =>
      WRead(syntax, "", lone, next);
      FirstNext(u, next);
      LongRead(syntax, u, next[1..], 2);
      assert "W" + "" == "W";
    case WLacking =>
      WRead(syntax, "", lone, next);
      assert "W" + "" == "W";
  }

  lemma EndRead(syntax: Syntax, e: Ending, lone: bool, next: seq<string>)
    requires e != Nothing && EndOk(syntax, e, lone, |next| > |EndArgs(e)|) && EndArgs(e) <= next
    ensures EndText(e) != ""
    ensures TokenAt(syntax, EndText(e), lone, next) == Token(EndReports(syntax, e)[0], 1 + |EndArgs(e)|, "")
  {
    hide TokenAt, LongReport, LongOk, LongUse.Text, LongUse.Args;
    match e
    case LongHere(u) => DashEndRead(syntax, u, next);
    case Attached(_, _) => LetterEndRead(syntax, e, lone, next);
    case Separate(_, _) => LetterEndRead(syntax, e, lone, next);
    case Bare(_) => LetterEndRead(syntax, e, lone, next);
    case Lacking(_) => LetterEndRead(syntax, e, lone, next);
    case _ => WEndRead(syntax, e, lone, next);
  }

  lemma FirstNext(u: LongUse, next: seq<string>)
    requires [u.Text()] + u.Args() <= next
    ensures next != [] && next[0] == u.Text() && u.Args() <= next[1..]
  {
    assert next[..1] == [u.Text()];
  }
  // ---------- lines ----------

  /** What is still to be read at entry i: `text`, as a cluster. */
  predicate AtCluster(syntax: Syntax, args: seq<string>, i: nat, place: string, text: string, lone: bool) {
    && i < |args| && text != "" && (lone ==> |text| == 1)
    && if place != "" then place == text && !lone
       else
         && !IsNonOption(syntax, args[i]) && args[i] != "--" && ClusterOf(args[i]) == text
         && lone == (args[i] == "-")
  }

  /** The parse takes one token. */
  lemma TokenTaken(syntax: Syntax, args: seq<string>, i: nat, place: string, text: string, lone: bool)
    requires AtCluster(syntax, args, i, place, text, lone) && TokenAt(syntax, text, lone, args[i + 1..]).Token?
    ensures
      var t := TokenAt(syntax, text, lone, args[i + 1..]);
      i + t.used <= |args| && (t.place != "" ==> t.used == 0) &&
      var q := Parse(syntax, args, i + t.used, t.place);
      Parse(syntax, args, i, place) ==
      q.(reports := [t.report] + q.reports, taken := args[i..i + t.used] + q.taken)
  {
    hide TokenAt, ClusterOf, IsNonOption;
  }

  /** p reports these in front of q, and takes the entries up to j. */
  ghost predicate Precedes(p: Parsed, reports: seq<Report>, taken: seq<string>, q: Parsed) {
    p == q.(reports := reports + q.reports, taken := taken + q.taken)
  }

  lemma PrecedesFirst(p: Parsed, r: Report, q: Parsed, reports: seq<Report>, taken: seq<string>, z: Parsed)
    requires p == q.(reports := [r] + q.reports, taken := [] + q.taken) && Precedes(q, reports, taken, z)
    ensures Precedes(p, [r] + reports, taken, z)
  {
    Associates([r], reports, z.reports);
    assert [] + q.taken == q.taken;
  }

  /** A cluster of nothing but its end. */
  lemma EndParsed(syntax: Syntax, args: seq<string>, i: nat, place: string, lone: bool, e: Ending)
    requires AtCluster(syntax, args, i, place, EndText(e), lone) && EndArgs(e) <= args[i + 1..]
    requires EndOk(syntax, e, lone, i + 1 + |EndArgs(e)| < |args|) && Fits(syntax, Options(lone, [], e))
    ensures
      var j := i + 1 + |EndArgs(e)|;
      Precedes(Parse(syntax, args, i, place), EndReports(syntax, e), args[i..j], Parse(syntax, args, j, ""))
  {
    hide Parse, TokenAt, EndReports, ClusterOf, IsNonOption, EndOk, EndText, EndArgs;
    TokenTakenIf(syntax, args, i, place, EndText(e), lone);
    EndNothing(syntax, e);
    EndRead(syntax, e, lone, args[i + 1..]);
    assert EndReports(syntax, e) == [EndReports(syntax, e)[0]];
  }

  /** A cluster that is written reports its letters and its end, and takes its entries. */
  lemma {:induction false} ClusterParsed(syntax: Syntax, args: seq<string>, i: nat, place: string, lone: bool,
                                         singles: seq<Single>, e: Ending)
    requires AtCluster(syntax, args, i, place, Chars(singles) + EndText(e), lone)
    requires EndArgs(e) <= args[i + 1..]
    requires ClusterOk(syntax, singles, e, lone, i + 1 + |EndArgs(e)| < |args|)
    requires Fits(syntax, Options(lone, singles, e))
    ensures
      var j := i + 1 + |EndArgs(e)|;
      Precedes(Parse(syntax, args, i, place), SingleReports(singles) + EndReports(syntax, e), args[i..j],
               Parse(syntax, args, j, ""))
    decreases |singles|
  {
    hide Parse, EndReports, EndOk, SingleOk, AtCluster, EndText, EndArgs, Precedes;
    EndNothing(syntax, e);
    NoChars(singles);
    if singles == [] {
      assert Chars(singles) + EndText(e) == EndText(e);
      EndParsed(syntax, args, i, place, lone, e);
      assert SingleReports(singles) + EndReports(syntax, e) == EndReports(syntax, e);
    } else {
      var s, after := singles[0], Chars(singles[1..]) + EndText(e);
      var rest := SingleReports(singles[1..]) + EndReports(syntax, e);
      assert Chars(singles) + EndText(e) == [s.c] + after;
      assert SingleReports(singles) + EndReports(syntax, e) == [SingleReport(s)] + rest;
      var j := i + 1 + |EndArgs(e)|;
      NoChars(singles[1..]);
      if after == "" {
        assert |EndText(e)| == 0 && |Chars(singles[1..])| == 0;
        SingleLast(syntax, args, i, place, lone, s);
        assert rest == [] && [SingleReport(s)] + rest == [SingleReport(s)] && j == i + 1;
      } else {
        AfterSingle(syntax, args, i, place, lone, s, after);
        ClusterParsed(syntax, args, i, after, false, singles[1..], e);
        SingleFirst(syntax, args, i, place, lone, s, after, rest, args[i..j], Parse(syntax, args, j, ""));
      }
    }
  }

  /** A single letter at the end of its cluster. */
  lemma SingleLast(syntax: Syntax, args: seq<string>, i: nat, place: string, lone: bool, s: Single)
    requires AtCluster(syntax, args, i, place, [s.c] + "", lone) && SingleOk(syntax, s, "", lone)
    ensures Precedes(Parse(syntax, args, i, place), [SingleReport(s)], args[i..i + 1], Parse(syntax, args, i + 1, ""))
  {
    hide Parse, TokenAt, ClusterOf, IsNonOption;
    SingleRead(syntax, s, "", lone, args[i + 1..]);
    TokenTakenIf(syntax, args, i, place, [s.c] + "", lone);
  }

  /** Where the scan is after a single letter inside a cluster. */
  lemma AfterSingle(syntax: Syntax, args: seq<string>, i: nat, place: string, lone: bool, s: Single, after: string)
    requires AtCluster(syntax, args, i, place, [s.c] + after, lone) && after != ""
    ensures AtCluster(syntax, args, i, after, after, false) && !lone
  {
    hide ClusterOf, IsNonOption;
  }

  /** A single letter in front of others. */
  lemma SingleFirst(syntax: Syntax, args: seq<string>, i: nat, place: string, lone: bool, s: Single, after: string,
                    reports: seq<Report>, taken: seq<string>, z: Parsed)
    requires AtCluster(syntax, args, i, place, [s.c] + after, lone) && after != ""
    requires SingleOk(syntax, s, after, lone) && Precedes(Parse(syntax, args, i, after), reports, taken, z)
    ensures Precedes(Parse(syntax, args, i, place), [SingleReport(s)] + reports, taken, z)
  {
    hide Parse, TokenAt, ClusterOf, IsNonOption, Precedes;
    SingleRead(syntax, s, after, lone, args[i + 1..]);
    TokenTakenIf(syntax, args, i, place, [s.c] + after, lone);
    assert args[i..i] == [];
    PrecedesFirst(Parse(syntax, args, i, place), SingleReport(s), Parse(syntax, args, i, after), reports, taken, z);
  }

  lemma TokenTakenIf(syntax: Syntax, args: seq<string>, i: nat, place: string, text: string, lone: bool)
    requires AtCluster(syntax, args, i, place, text, lone)
    ensures
      var t := TokenAt(syntax, text, lone, args[i + 1..]);
      t.Token? ==>
        i + t.used <= |args| && (t.place != "" ==> t.used == 0) &&
        var q := Parse(syntax, args, i + t.used, t.place);
        Parse(syntax, args, i, place) ==
        q.(reports := [t.report] + q.reports, taken := args[i..i + t.used] + q.taken)
  {
    hide TokenAt, Parse, ClusterOf, IsNonOption;
    if TokenAt(syntax, text, lone, args[i + 1..]).Token? {
      TokenTaken(syntax, args, i, place, text, lone);
    }
  }

  lemma EndNothing(syntax: Syntax, e: Ending)
    requires e.LongHere? || e.WAttached? || e.WSeparate? ==> syntax.long.Some?
    ensures EndText(e) == "" <==> e == Nothing
    ensures |EndReports(syntax, e)| == if e == Nothing then 0 else 1
    ensures e == Nothing ==> EndArgs(e) == []
  {
    hide LongReport;
  }

  lemma NoChars(singles: seq<Single>)
    ensures Chars(singles) == "" <==> singles == []
    ensures singles == [] ==> SingleReports(singles) == []
  {
  }
  lemma {:induction false} ClusterFits(syntax: Syntax, singles: seq<Single>, e: Ending, lone: bool, more: bool)
    requires ClusterOk(syntax, singles, e, lone, more)
    ensures EndOk(syntax, e, lone, more) && Fits(syntax, Options(lone, singles, e))
    decreases |singles|
  {
    hide LongOk, SingleOk;
    if singles != [] {
      ClusterFits(syntax, singles[1..], e, lone, more);
    }
  }

  lemma {:induction false} LineFits(syntax: Syntax, items: seq<Item>, tail: Tail)
    requires LineOk(syntax, items, tail)
    ensures forall k :: 0 <= k < |items| ==> Fits(syntax, items[k])
    decreases |items|
  {
    hide ClusterOk, Fits;
    if items != [] {
      LineFits(syntax, items[1..], tail);
      assert forall k :: 0 < k < |items| ==> items[k] == items[1..][k - 1];
      ItemFits(syntax, items[0], Render(items[1..], tail) != []);
    }
  }

  lemma ItemFits(syntax: Syntax, it: Item, more: bool)
    requires ItemOk(syntax, it, more)
    ensures Fits(syntax, it)
  {
    hide ClusterOk;
    match it
    case Operand(_) =>
    case Options(lone, singles, e) => ClusterFits(syntax, singles, e, lone, more);
  }

  /** The operand test of the scan. */
  lemma OperandIff(syntax: Syntax, text: string)
    ensures IsOperand(syntax, text) <==> IsNonOption(syntax, text)
  {
  }

  /** An item of options stands where the scan finds it. */
  lemma OptionsStart(syntax: Syntax, args: seq<string>, i: nat, it: Item, more: bool)
    requires it.Options? && ItemOk(syntax, it, more) && i < |args| && args[i] == Entries(it)[0]
    ensures AtCluster(syntax, args, i, "", Chars(it.singles) + EndText(it.ending), it.lone)
  {
    hide ClusterOk, EndText, Chars;
    var text := Chars(it.singles) + EndText(it.ending);
    if it.lone {
      assert "" + text == text;
    } else {
      assert ("-" + text)[1..] == text;
    }
  }

  lemma RenderFirst(args: seq<string>, i: nat, items: seq<Item>, tail: Tail)
    requires i <= |args| && items != [] && args[i..] == Render(items, tail)
    ensures
      var first := Entries(items[0]);
      var j := i + |first|;
      j <= |args| && args[i..j] == first && args[j..] == Render(items[1..], tail) && |first| > 0
      && args[i] == first[0] && first[1..] <= args[i + 1..]
  {
    hide Entries;
    SomeEntry(items[0]);
    SuffixParts(args, i, Entries(items[0]), Render(items[1..], tail));
  }

  lemma SuffixParts(args: seq<string>, i: nat, first: seq<string>, rest: seq<string>)
    requires i <= |args| && args[i..] == first + rest && |first| > 0
    ensures
      var j := i + |first|;
      && j <= |args| && args[i..j] == first && args[j..] == rest
      && args[i] == first[0] && first[1..] <= args[i + 1..]
  {
    var j := i + |first|;
    assert args[i..j] == args[i..][..|first|] && args[j..] == args[i..][|first|..];
    assert args[i] == args[i..][0];
    assert args[i + 1..] == args[i..][1..] == first[1..] + rest;
  }

  lemma SomeEntry(it: Item)
    ensures |Entries(it)| > 0 && (it.Options? ==> Entries(it)[1..] == EndArgs(it.ending))
    ensures it.Operand? ==> Entries(it) == [it.text]
  {
  }

  /** Where the items end. */
  lemma TailParsed(syntax: Syntax, args: seq<string>, i: nat, tail: Tail)
    requires i <= |args| && args[i..] == Render([], tail) && LineOk(syntax, [], tail)
    ensures Parse(syntax, args, i, "") == Meaning(syntax, [], tail)
  {
    hide NextToken;
    if tail.FromOperand? {
      OperandIff(syntax, tail.first);
      assert args[i] == tail.first;
    } else if tail.AfterDashes? {
      assert args[i] == "--" && args[i + 1..] == args[i..][1..] == tail.rest;
    }
  }

  lemma OperandParsed(syntax: Syntax, args: seq<string>, i: nat)
    requires i < |args| && syntax.mode != Posix && IsOperand(syntax, args[i])
    ensures
      var p, q := Parse(syntax, args, i, ""), Parse(syntax, args, i + 1, "");
      p == if syntax.mode == InOrder then
             q.(reports := [Report(1, Some(args[i]), None, None)] + q.reports, taken := [args[i]] + q.taken)
           else q.(skipped := [args[i]] + q.skipped)
  {
    hide NextToken;
    OperandIff(syntax, args[i]);
  }

  /** The round trip: a command line that is written is reported as it was meant. */
  lemma {:induction false} LineParsed(syntax: Syntax, args: seq<string>, i: nat, items: seq<Item>, tail: Tail)
    requires i <= |args| && args[i..] == Render(items, tail) && LineOk(syntax, items, tail)
    ensures forall k :: 0 <= k < |items| ==> Fits(syntax, items[k])
    ensures Parse(syntax, args, i, "") == Meaning(syntax, items, tail)
    decreases |items|
  {
    hide Parse, ItemOk, Fits, Prepend, Entries;
    LineFits(syntax, items, tail);
    if items == [] {
      TailParsed(syntax, args, i, tail);
    } else {
      RenderFirst(args, i, items, tail);
      var j := i + |Entries(items[0])|;
      NotRendered(args, j, items[1..], tail);
      LineParsed(syntax, args, j, items[1..], tail);
      ItemParsed(syntax, args, i, items[0]);
    }
  }

  lemma ItemParsed(syntax: Syntax, args: seq<string>, i: nat, it: Item)
    requires
      var j := i + |Entries(it)|;
      i < j <= |args| && args[i..j] == Entries(it) && ItemOk(syntax, it, j < |args|) && Fits(syntax, it)
    ensures Parse(syntax, args, i, "") == Prepend(syntax, it, Parse(syntax, args, i + |Entries(it)|, ""))
  {
    hide Parse, ClusterOk, EndReports, SingleReports, Chars, EndText, IsOperand, Entries;
    SomeEntry(it);
    var j := i + |Entries(it)|;
    assert args[i] == args[i..j][0];
    match it
    case Operand(text) =>
      OperandParsed(syntax, args, i);
    case Options(lone, singles, e) =>
      OptionsStart(syntax, args, i, it, j < |args|);
      assert args[i + 1..][..j - i - 1] == args[i..j][1..];
      ClusterParsed(syntax, args, i, "", lone, singles, e);
  }
  // ---------- every vector that is scanned to its end is such a line ----------

  /** A long option as it was written. */
  function LongUseOf(syntax: Syntax, text: string, next: seq<string>): (u: LongUse)
    requires syntax.long.Some?
    ensures u.Text() == text && u.Args() <= next && LongOk(syntax, u, |next| > |u.Args()|)
  {
    var eq := IndexOf(text, '=');
    var key := text[..eq];
    if eq < |text| then
      assert text == key + "=" + text[eq + 1..];
      LongUse(key, Equals(text[eq + 1..]))
    else
      match MatchOf(key, syntax.long.value, false)
      case Found(k) =>
        if syntax.long.value[k].hasArg == RequiredArgument && next != [] then LongUse(key, Next(next[0]))
        else LongUse(key, NoValue)
      case _ => LongUse(key, NoValue)
  }

  /** The end of a cluster at a letter that takes an argument, or where a long option begins. */
  function EndingOf(syntax: Syntax, place: string, lone: bool, next: seq<string>): Ending
    requires place != ""
  {
    var c, after := place[0], place[1..];
    if syntax.long.Some? && !lone && c == '-' then LongHere(LongUseOf(syntax, after, next))
    else if c == '-' && after != "" then Nothing
    else if IsW(syntax, c) then
      if after != "" then WAttached(LongUseOf(syntax, after, next))
      else if next == [] then WLacking
      else WSeparate(LongUseOf(syntax, next[0], next[1..]))
    else
      match ArityOf(syntax.letters, c)
      case Takes => if after != "" then Attached(c, after) else if next == [] then Lacking(c) else Separate(c, next[0])
      case MayTake => if after != "" then Attached(c, after) else Bare(c)
      case _ => Nothing
  }

  lemma EndingIs(syntax: Syntax, place: string, lone: bool, next: seq<string>)
    requires place != "" && (lone ==> |place| == 1)
    ensures
      var e := EndingOf(syntax, place, lone, next);
      && (e != Nothing ==>
          EndText(e) == place && EndArgs(e) <= next && EndOk(syntax, e, lone, |next| > |EndArgs(e)|))
      && (e == Nothing ==>
          var c, after := place[0], place[1..];
          || (SingleOk(syntax, Flag(c), after, lone) || SingleOk(syntax, Unknown(c), after, lone))
          || (c == '-' && after == "" && TokenAt(syntax, place, lone, next).Dash?))
  {
    hide LongToken, LongOk, MatchOf, IndexOf, LongUseOf, LongUse.Text, LongUse.Args;
    assert place == [place[0]] + place[1..];
    if IsW(syntax, place[0]) {
      assert IsW(syntax, 'W');
    }
    if next != [] {
      assert next == [next[0]] + next[1..];
    }
  }
  /** A cluster in a vector that is scanned to its end is one that can be written. */
  lemma {:induction false} ClusterWritten(syntax: Syntax, args: seq<string>, i: nat, place: string, text: string,
                                          lone: bool)
      returns (singles: seq<Single>, e: Ending)
    requires AtCluster(syntax, args, i, place, text, lone) && Parse(syntax, args, i, place).complete
    ensures text == Chars(singles) + EndText(e) && EndArgs(e) <= args[i + 1..]
    ensures ClusterOk(syntax, singles, e, lone, i + 1 + |EndArgs(e)| < |args|)
    decreases |text|
  {
    hide Parse, TokenAt, ClusterOf, IsNonOption, EndOk, SingleOk;
    NothingOk(syntax, lone, i + 1 < |args|);
    var next := args[i + 1..];
    singles, e := [], EndingOf(syntax, text, lone, next);
    EndingIs(syntax, text, lone, next);
    if e == Nothing {
      var c, after := text[0], text[1..];
      DashIncomplete(syntax, args, i, place, text, lone);
      var s := if SingleOk(syntax, Flag(c), after, lone) then Flag(c) else Unknown(c);
      assert text == [c] + after;
      var ss := [];
      NoChars(ss);
      if after != "" {
        SingleRead(syntax, s, after, lone, next);
        TokenTakenIf(syntax, args, i, place, text, lone);
        ss, e := ClusterWritten(syntax, args, i, after, after, false);
      }
      ClusterMore(syntax, s, ss, e, lone, i + 1 + |EndArgs(e)| < |args|);
      singles := [s] + ss;
    }
  }

  lemma ClusterMore(syntax: Syntax, s: Single, ss: seq<Single>, e: Ending, lone: bool, more: bool)
    ensures Chars([s] + ss) + EndText(e) == [s.c] + (Chars(ss) + EndText(e))
    ensures ClusterOk(syntax, [s] + ss, e, lone, more) <==>
            SingleOk(syntax, s, Chars(ss) + EndText(e), lone) && ClusterOk(syntax, ss, e, lone, more)
    ensures ClusterOk(syntax, [], e, lone, more) <==> EndOk(syntax, e, lone, more)
  {
    hide EndOk, SingleOk, EndText;
    assert ([s] + ss)[1..] == ss;
  }

  lemma NothingOk(syntax: Syntax, lone: bool, more: bool)
    ensures EndOk(syntax, Nothing, lone, more) && EndText(Nothing) == "" && EndArgs(Nothing) == []
  {
  }

  lemma DashIncomplete(syntax: Syntax, args: seq<string>, i: nat, place: string, text: string, lone: bool)
    requires AtCluster(syntax, args, i, place, text, lone)
    ensures TokenAt(syntax, text, lone, args[i + 1..]).Dash? ==> !Parse(syntax, args, i, place).complete
  {
    hide TokenAt, ClusterOf, IsNonOption;
  }

  /** What an option entry is to the scan. */
  lemma OptionEntry(syntax: Syntax, arg: string)
    requires !IsNonOption(syntax, arg) && arg != "--"
    ensures arg != "" && arg[0] == '-'
    ensures
      var text, lone := ClusterOf(arg), arg == "-";
      && text != "" && (lone ==> |text| == 1) && arg == (if lone then "" else "-") + text
      && if lone then text == "-" && '-' in syntax.letters else text != "-"
  {
    assert arg == "-" || arg == "-" + arg[1..];
  }

  /** A scan that meets an option goes on behind it. */
  lemma OptionsParsed(syntax: Syntax, args: seq<string>, i: nat, singles: seq<Single>, e: Ending, lone: bool)
    requires i < |args| && !IsNonOption(syntax, args[i]) && args[i] != "--" && lone == (args[i] == "-")
    requires ClusterOf(args[i]) == Chars(singles) + EndText(e) && EndArgs(e) <= args[i + 1..]
    requires ClusterOk(syntax, singles, e, lone, i + 1 + |EndArgs(e)| < |args|)
    ensures Parse(syntax, args, i, "").complete == Parse(syntax, args, i + 1 + |EndArgs(e)|, "").complete
  {
    hide Parse, ClusterOf, IsNonOption;
    OptionEntry(syntax, args[i]);
    ClusterFits(syntax, singles, e, lone, i + 1 + |EndArgs(e)| < |args|);
    ClusterParsed(syntax, args, i, "", lone, singles, e);
  }

  /** The item that begins at an entry. */
  lemma ItemWritten(syntax: Syntax, args: seq<string>, i: nat) returns (it: Item)
    requires i < |args| && Parse(syntax, args, i, "").complete
    requires if IsNonOption(syntax, args[i]) then syntax.mode != Posix else args[i] != "--"
    ensures
      var j := i + |Entries(it)|;
      && i < j <= |args| && args[i..j] == Entries(it)
      && ItemOk(syntax, it, j < |args|) && Parse(syntax, args, j, "").complete
  {
    hide Parse, ClusterOk, ClusterOf, IsNonOption, IsOperand, Entries, EndText, EndArgs, Chars;
    OperandIff(syntax, args[i]);
    if IsNonOption(syntax, args[i]) {
      OperandParsed(syntax, args, i);
      it := Operand(args[i]);
    } else {
      OptionEntry(syntax, args[i]);
      var text, lone := ClusterOf(args[i]), args[i] == "-";
      var singles, e := ClusterWritten(syntax, args, i, "", text, lone);
      OptionsParsed(syntax, args, i, singles, e, lone);
      it := Options(lone, singles, e);
    }
    EntriesAt(args, i, it);
  }

  /** Every vector that is scanned to its end is a command line. */
  lemma {:induction false} LineWritten(syntax: Syntax, args: seq<string>, i: nat) returns (items: seq<Item>, tail: Tail)
    requires i <= |args| && Parse(syntax, args, i, "").complete
    ensures args[i..] == Render(items, tail) && LineOk(syntax, items, tail)
    decreases |args| - i
  {
    hide Parse, ItemOk, IsNonOption, IsOperand, Entries;
    items, tail := [], NoMore;
    if i == |args| {
    } else if IsNonOption(syntax, args[i]) && syntax.mode == Posix {
      OperandIff(syntax, args[i]);
      tail := FromOperand(args[i], args[i + 1..]);
    } else if !IsNonOption(syntax, args[i]) && args[i] == "--" {
      tail := AfterDashes(args[i + 1..]);
    } else {
      var it := ItemWritten(syntax, args, i);
      var j := i + |Entries(it)|;
      var later;
      later, tail := LineWritten(syntax, args, j);
      NotRendered(args, j, later, tail);
      items := [it] + later;
      assert items[1..] == later;
      assert args[i..] == args[i..j] + args[j..];
    }
  }

  lemma EntriesAt(args: seq<string>, i: nat, it: Item)
    requires i < |args|
    requires match it
             case Operand(text) => args[i] == text
             case Options(lone, singles, e) =>
               args[i] == (if lone then "" else "-") + (Chars(singles) + EndText(e)) && EndArgs(e) <= args[i + 1..]
    ensures var j := i + |Entries(it)|; i < j <= |args| && args[i..j] == Entries(it)
    ensures |Entries(it)| == if it.Options? then 1 + |EndArgs(it.ending)| else 1
  {
    hide Chars, EndText, EndArgs;
    var j := i + |Entries(it)|;
    assert args[i..j] == [args[i]] + args[i + 1..][..j - i - 1];
  }

  lemma NotRendered(args: seq<string>, j: nat, items: seq<Item>, tail: Tail)
    requires j <= |args| && args[j..] == Render(items, tail)
    ensures Render(items, tail) != [] <==> j < |args|
  {
    hide Render;
  }

  lemma {:induction false} MeaningComplete(syntax: Syntax, items: seq<Item>, tail: Tail)
    requires forall k :: 0 <= k < |items| ==> Fits(syntax, items[k])
    ensures Meaning(syntax, items, tail).complete
    decreases |items|
  {
    hide Fits, EndReports, Entries;
    if items != [] {
      MeaningComplete(syntax, items[1..], tail);
    }
  }

  /** A vector is scanned to its end if and only if it is a command line. */
  lemma CompleteIffLine(syntax: Syntax, args: seq<string>, i: nat)
    requires i <= |args|
    ensures Parse(syntax, args, i, "").complete <==>
            exists items, tail :: args[i..] == Render(items, tail) && LineOk(syntax, items, tail)
  {
    hide Parse, Render, LineOk;
    if Parse(syntax, args, i, "").complete {
      var items, tail := LineWritten(syntax, args, i);
    }
    forall items, tail | args[i..] == Render(items, tail) && LineOk(syntax, items, tail)
      ensures Parse(syntax, args, i, "").complete
    {
      LineFits(syntax, items, tail);
      LineParsed(syntax, args, i, items, tail);
      MeaningComplete(syntax, items, tail);
    }
  }
  // ---------- the options of the program ----------

  /** `mcusim`: "-c file", and "--conf file" or any beginning of it. */
  function Mcusim(): Syntax {
    SyntaxOf(":c:", Some([LongOption("version", NoArgument, false, 7576), LongOption("help", NoArgument, false, 7580),
                          LongOption("conf", RequiredArgument, false, 7581)]), true, false)
  }

  lemma OneItem(syntax: Syntax, name: string, it: Item)
    requires it.Options? && ItemOk(syntax, it, false)
    ensures Fits(syntax, it)
    ensures Parse(syntax, [name] + Entries(it), 1, "").reports ==
            SingleReports(it.singles) + EndReports(syntax, it.ending)
  {
    hide Parse, ItemOk, Entries, EndReports, SingleReports;
    var args := [name] + Entries(it);
    ItemFits(syntax, it, false);
    SomeEntry(it);
    assert args[1..1 + |Entries(it)|] == Entries(it);
    ItemParsed(syntax, args, 1, it);
    var all := SingleReports(it.singles) + EndReports(syntax, it.ending);
    AppendNothing(all);
    assert Parse(syntax, args, |args|, "").reports == [] by { NothingLeft(syntax, args); }
  }

  lemma NothingLeft(syntax: Syntax, args: seq<string>)
    ensures Parse(syntax, args, |args|, "").reports == []
  {
  }

  lemma McusimLetters()
    ensures Mcusim().letters == ":c:" && ArityOf(":c:", 'c') == Takes && Mcusim().long.Some?
    ensures !IsOperand(Mcusim(), "-c")
  {
    IndexIs(":c:", 'c', 1);
    assert ":c:"[..1] == ":";
  }

  lemma McusimConf()
    ensures MatchOf("conf", Mcusim().long.value, false) == Found(2)
  {
    var long := Mcusim().long.value;
    assert "conf"[0] == 'c' && long[0].name[0] == 'v' && long[1].name[0] == 'h';
    AbbreviatedMembers("conf", long, false, 2);
    ExactFoundIff("conf", long, false);
    assert long[2] in long && FirstExact("conf", long) == 2;
  }

  /** The configuration file that is named is the one reported, and a missing one is reported missing. */
  lemma ConfigFile(file: string)
    ensures Parse(Mcusim(), ["mcusim", "-c", file], 1, "").reports == [Report('c' as int, Some(file), None, None)]
    ensures Parse(Mcusim(), ["mcusim", "--conf=" + file], 1, "").reports == [Report(7581, Some(file), None, Some(2))]
    ensures Parse(Mcusim(), ["mcusim", "-c"], 1, "").reports == [Report(':' as int, None, Some('c' as int), None)]
  {
    hide Parse, MatchOf, Mcusim, ArityOf;
    McusimLetters();
    ShortGiven(Separate('c', file));
    ShortGiven(Lacking('c'));
    assert ["-c"] + EndArgs(Separate('c', file)) == ["-c", file] && ["-c"] + EndArgs(Lacking('c')) == ["-c"];
    assert ["mcusim"] + ["-c", file] == ["mcusim", "-c", file] && ["mcusim"] + ["-c"] == ["mcusim", "-c"];
    LongGiven(file);
    assert ["mcusim"] + ["--conf=" + file] == ["mcusim", "--conf=" + file];
  }

  lemma ShortGiven(e: Ending)
    requires e.Separate? || e.Lacking?
    requires e.c == 'c'
    ensures Parse(Mcusim(), ["mcusim"] + (["-c"] + EndArgs(e)), 1, "").reports == EndReports(Mcusim(), e)
  {
    hide Parse, Mcusim, ArityOf, IndexOf;
    McusimLetters();
    var it := Options(false, [], e);
    assert Chars([]) + EndText(e) == "c" && "-" + "c" == "-c";
    OneItem(Mcusim(), "mcusim", it);
    assert [] + EndReports(Mcusim(), e) == EndReports(Mcusim(), e);
  }

  lemma LongGiven(file: string)
    ensures Parse(Mcusim(), ["mcusim"] + ["--conf=" + file], 1, "").reports ==
            [Report(7581, Some(file), None, Some(2))]
  {
    hide Parse, MatchOf, IndexOf;
    McusimConf();
    var u := LongUse("conf", Equals(file));
    var it := Options(false, [], LongHere(u));
    assert u.Text() == "conf" + "=" + file == "conf=" + file;
    assert Chars([]) + EndText(it.ending) == "-" + u.Text() && "-" + ("-" + u.Text()) == "--conf=" + file;
    assert Entries(it) == ["--conf=" + file];
    OneItem(Mcusim(), "mcusim", it);
    assert [] + EndReports(Mcusim(), it.ending) == [LongReport(Mcusim(), u)];
  }
}
