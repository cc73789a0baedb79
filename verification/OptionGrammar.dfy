/**
  Command line grammar shared by the getopt scan and its reference parser
  (src/msim_getopt.c): option letters, long options and what one option consumes.
 */
module OptionGrammar {
  import opened Basics

  datatype HasArg = NoArgument | RequiredArgument | OptionalArgument

  /** An entry of the long option table; hasFlag tells a non-NULL `flag` pointer. */
  datatype LongOption = LongOption(name: string, hasArg: HasArg, hasFlag: bool, val: int)

  /** What a non-option does to the scan. */
  datatype Mode = Permute | InOrder | Posix

  /** The option letters without a leading '+' or '-', the long option table and the mode. */
  datatype Syntax = Syntax(letters: string, long: Option<seq<LongOption>>, mode: Mode)
  {
    /** A long option without a flag pointer must not have the value -1, the code for "no more options". */
    predicate Valid() {
      long.Some? ==> forall o :: o in long.value ==> o.hasFlag || o.val != -1
    }
  }

  /** The flag handling at the head of `getopt_internal`. */
  function SyntaxOf(options: string, long: Option<seq<LongOption>>, permute: bool, posixlyCorrect: bool): (s: Syntax)
    ensures s.long == long
    ensures s.letters == options <==> options == "" || (options[0] != '+' && options[0] != '-')
    ensures s.letters != options ==> options == [options[0]] + s.letters
    ensures s.mode == Permute <==> permute && !posixlyCorrect && s.letters == options
    ensures s.mode == InOrder <==> !posixlyCorrect && s.letters != options && options[0] == '-'
  {
    var first := CharAt(options, 0);
    Syntax(if first == '+' || first == '-' then options[1..] else options,
           long,
           if posixlyCorrect || first == '+' then Posix
           else if first == '-' then InOrder
           else if permute then Permute else Posix)
  }

  const BADCH: int := '?' as int
  const INORDER: int := 1

  function BadArg(letters: string): int {
    if CharAt(letters, 0) == ':' then ':' as int else '?' as int
  }

  /** Character k of a C string: beyond its end there is the terminating NUL. */
  function CharAt(s: string, k: nat): char {
    if k < |s| then s[k] else '\0'
  }

  /** strchr as an index; |s| when c does not occur. */
  function IndexOf(s: string, c: char): (i: nat)
    ensures i <= |s|
    ensures i < |s| ==> s[i] == c
    ensures c !in s[..i]
    ensures i == |s| <==> c !in s
  {
    if s == "" then 0
    else if s[0] == c then 0
    else
      var i := IndexOf(s[1..], c);
      assert s[..i + 1] == [s[0]] + s[1..][..i];
      assert s == [s[0]] + s[1..];
      i + 1
  }

  // ---------- long option names ----------

  datatype LongMatch = Found(index: nat) | Ambiguous | NoMatch

  /** Index of the first table entry named exactly `key`. */
  function FirstExact(key: string, long: seq<LongOption>): (e: nat)
    ensures e <= |long|
    ensures e < |long| ==> long[e].name == key
    ensures forall i :: 0 <= i < e ==> long[i].name != key
  {
    if long == [] then 0
    else if long[0].name == key then 0
    else 1 + FirstExact(key, long[1..])
  }

  /** `key` abbreviates the name; a known short option letter is no abbreviation. */
  predicate Abbreviates(key: string, name: string, shortToo: bool) {
    key < name && !(shortToo && |key| == 1)
  }

  /** The table indices below n whose names `key` abbreviates, in order. */
  function Abbreviated(key: string, long: seq<LongOption>, shortToo: bool, n: nat): (ps: seq<nat>)
    requires n <= |long|
    ensures forall k :: 0 <= k < |ps| ==> ps[k] < n
  {
    if n == 0 then []
    else Abbreviated(key, long, shortToo, n - 1) +
         if Abbreviates(key, long[n - 1].name, shortToo) then [n - 1] else []
  }

  /** Two abbreviated names ahead of the exact one are an ambiguity; otherwise the exact name wins. */
  function MatchOf(key: string, long: seq<LongOption>, shortToo: bool): (m: LongMatch)
    ensures m.Found? ==> m.index < |long|
  {
    var e := FirstExact(key, long);
    var ps := Abbreviated(key, long, shortToo, e);
    if |ps| >= 2 then Ambiguous
    else if e < |long| then Found(e)
    else if |ps| == 1 then Found(ps[0])
    else NoMatch
  }

  lemma {:induction false} AbbreviatedMembers(key: string, long: seq<LongOption>, shortToo: bool, n: nat)
    requires n <= |long|
    ensures
      var ps := Abbreviated(key, long, shortToo, n);
      && (forall p: nat :: p in ps <==> p < n && Abbreviates(key, long[p].name, shortToo))
      && (forall i, j :: 0 <= i < j < |ps| ==> ps[i] < ps[j])
  {
    if n > 0 {
      AbbreviatedMembers(key, long, shortToo, n - 1);
      var ps, rest := Abbreviated(key, long, shortToo, n), Abbreviated(key, long, shortToo, n - 1);
      forall p: nat
        ensures p in ps <==> p < n && Abbreviates(key, long[p].name, shortToo)
      {
        assert p in ps <==> p in rest || (p == n - 1 && Abbreviates(key, long[n - 1].name, shortToo));
      }
    }
  }

  lemma {:induction false} AbbreviatedGrows(key: string, long: seq<LongOption>, shortToo: bool, m: nat, n: nat)
    requires m <= n <= |long|
    ensures Abbreviated(key, long, shortToo, m) <= Abbreviated(key, long, shortToo, n)
  {
    if m < n {
      AbbreviatedGrows(key, long, shortToo, m, n - 1);
    }
  }

  lemma AbbreviatedNext(key: string, long: seq<LongOption>, shortToo: bool, n: nat)
    requires n < |long|
    ensures Abbreviated(key, long, shortToo, 0) == []
    ensures Abbreviated(key, long, shortToo, n + 1) ==
            Abbreviated(key, long, shortToo, n) + if Abbreviates(key, long[n].name, shortToo) then [n] else []
  {
  }

  lemma ExactAt(key: string, long: seq<LongOption>, i: nat)
    requires i < |long| && i <= FirstExact(key, long)
    ensures FirstExact(key, long) == i <==> long[i].name == key
  {
  }

  /** A second abbreviated name decides the match before the end of the table is seen. */
  lemma SecondAbbreviated(key: string, long: seq<LongOption>, shortToo: bool, n: nat)
    requires n <= FirstExact(key, long)
    requires |Abbreviated(key, long, shortToo, n)| >= 2
    ensures MatchOf(key, long, shortToo) == Ambiguous
  {
    AbbreviatedGrows(key, long, shortToo, n, FirstExact(key, long));
  }

  /** What the comparisons of the loop say about a name. */
  lemma NameCases(key: string, name: string, shortToo: bool)
    ensures key <= name && |name| == |key| <==> name == key
    ensures Abbreviates(key, name, shortToo) <==> key <= name && |name| != |key| && !(shortToo && |key| == 1)
  {
  }

  /** What the loop knows in front of entry i. */
  ghost predicate Matched(key: string, long: seq<LongOption>, shortToo: bool, i: nat, m: LongMatch) {
    && i <= FirstExact(key, long) && m != Ambiguous
    && Abbreviated(key, long, shortToo, i) == if m.Found? then [m.index] else []
  }

  lemma MatchBegins(key: string, long: seq<LongOption>, shortToo: bool)
    ensures Matched(key, long, shortToo, 0, NoMatch)
  {
  }

  /** The cases of the loop. */
  lemma MatchStep(key: string, long: seq<LongOption>, shortToo: bool, i: nat, m: LongMatch)
    requires i < |long| && Matched(key, long, shortToo, i, m)
    ensures
      var name := long[i].name;
      if !(key <= name) then Matched(key, long, shortToo, i + 1, m)
      else if |name| == |key| then MatchOf(key, long, shortToo) == Found(i)
      else if shortToo && |key| == 1 then Matched(key, long, shortToo, i + 1, m)
      else if m == NoMatch then Matched(key, long, shortToo, i + 1, Found(i))
      else MatchOf(key, long, shortToo) == Ambiguous
  {
    hide FirstExact, Abbreviated, Abbreviates;
    ExactAt(key, long, i);
    AbbreviatedNext(key, long, shortToo, i);
    NameCases(key, long[i].name, shortToo);
    if Abbreviates(key, long[i].name, shortToo) && m.Found? {
      SecondAbbreviated(key, long, shortToo, i + 1);
    }
  }

  lemma MatchEnds(key: string, long: seq<LongOption>, shortToo: bool, m: LongMatch)
    requires Matched(key, long, shortToo, |long|, m)
    ensures MatchOf(key, long, shortToo) == m
  {
    hide Abbreviated;
  }

  /** The match loop of `parse_long_options`. */
  method MatchLong(key: string, long: seq<LongOption>, shortToo: bool) returns (m: LongMatch)
    ensures m == MatchOf(key, long, shortToo)
  {
    hide MatchOf, Matched;
    m := NoMatch;
    var i := 0;
    MatchBegins(key, long, shortToo);
    while i < |long|
      invariant 0 <= i <= |long| && m != Ambiguous && Matched(key, long, shortToo, i, m)
    {
      MatchStep(key, long, shortToo, i, m);
      if !(key <= long[i].name) {
        i := i + 1;
        continue;
      }
      if |long[i].name| == |key| {
        m := Found(i);
        return;
      }
      if shortToo && |key| == 1 {
        i := i + 1;
        continue;
      }
      if m == NoMatch {
        m := Found(i);
      } else {
        m := Ambiguous;
        return;
      }
      i := i + 1;
    }
    MatchEnds(key, long, shortToo, m);
  }

  /** An exactly named option is found if and only if fewer than two names listed before it extend the key. */
  lemma ExactFoundIff(key: string, long: seq<LongOption>, shortToo: bool)
    requires exists o :: o in long && o.name == key
    ensures
      MatchOf(key, long, shortToo) == Found(FirstExact(key, long)) <==>
      forall i, j :: 0 <= i < j < FirstExact(key, long) ==>
        !(Abbreviates(key, long[i].name, shortToo) && Abbreviates(key, long[j].name, shortToo))
  {
    var e := FirstExact(key, long);
    var ps := Abbreviated(key, long, shortToo, e);
    AbbreviatedMembers(key, long, shortToo, e);
    if |ps| >= 2 {
      assert ps[0] in ps && ps[1] in ps;
    } else {
      forall i, j | 0 <= i < j < e
        ensures !(Abbreviates(key, long[i].name, shortToo) && Abbreviates(key, long[j].name, shortToo))
      {
        assert !(i in ps && j in ps);
      }
    }
  }

  /** Without an exactly named option, the one that the key abbreviates is found, if it is the only one. */
  lemma AbbreviationFoundIff(key: string, long: seq<LongOption>, shortToo: bool, k: nat)
    requires forall o :: o in long ==> o.name != key
    ensures MatchOf(key, long, shortToo) == Found(k) <==>
      k < |long| && forall i :: 0 <= i < |long| ==> (Abbreviates(key, long[i].name, shortToo) <==> i == k)
    ensures MatchOf(key, long, shortToo) == NoMatch <==>
      forall i :: 0 <= i < |long| ==> !Abbreviates(key, long[i].name, shortToo)
  {
    hide Abbreviates, Abbreviated, FirstExact;
    var ps := Abbreviated(key, long, shortToo, |long|);
    AbbreviatedMembers(key, long, shortToo, |long|);
    assert FirstExact(key, long) == |long| by {
      NoExact(key, long);
    }
    assert k < |long| ==> (Abbreviates(key, long[k].name, shortToo) <==> k in ps);
    if ps == [] {
      assert forall i: nat :: i < |long| ==> i !in ps;
    } else if |ps| == 1 {
      assert forall p :: p in ps <==> p == ps[0];
      assert forall i: nat :: i < |long| ==> (Abbreviates(key, long[i].name, shortToo) <==> i == ps[0]);
      assert Abbreviates(key, long[ps[0]].name, shortToo);
    } else {
      assert ps[0] in ps && ps[1] in ps && ps[0] != ps[1];
      assert Abbreviates(key, long[ps[0]].name, shortToo) && Abbreviates(key, long[ps[1]].name, shortToo);
    }
  }

  lemma NoExact(key: string, long: seq<LongOption>)
    requires forall o :: o in long ==> o.name != key
    ensures FirstExact(key, long) == |long|
  {
    assert forall i :: 0 <= i < |long| ==> long[i] in long;
  }

  /** `--color` is reported ambiguous when `--colors` and `--colorize` are listed before it. */
  lemma ExactShadowed()
    ensures
      var long := [LongOption("colors", NoArgument, false, 1), LongOption("colorize", NoArgument, false, 2),
                   LongOption("color", NoArgument, false, 3)];
      MatchOf("color", long, false) == Ambiguous
  {
    var long := [LongOption("colors", NoArgument, false, 1), LongOption("colorize", NoArgument, false, 2),
                 LongOption("color", NoArgument, false, 3)];
    assert "color" < "colors" && "color" < "colorize";
    assert FirstExact("color", long) == 2;
    AbbreviatedMembers("color", long, false, 2);
    var ps := Abbreviated("color", long, false, 2);
    assert 0 in ps && 1 in ps;
  }

  // ---------- what one option is and consumes ----------

  /** One result of the scan: the code returned and what is stored in optarg, optopt and *idx. */
  datatype Report = Report(code: int, optarg: Option<string>, optopt: Option<int>, idx: Option<nat>)

  /** A report together with the number of entries it uses up and what is left of the current option cluster. */
  datatype Token = Dash | Token(report: Report, used: nat, place: string)

  /** The value put in optopt when a long option's argument is wrong. */
  function LongOptopt(o: LongOption): int {
    if o.hasFlag then 0 else o.val
  }

  /** A long option found at index i, with the value after its '=' if there is one; `next` are the entries after it. */
  function FoundToken(syntax: Syntax, i: nat, value: Option<string>, next: seq<string>, used: nat): (t: Token)
    requires syntax.long.Some? && i < |syntax.long.value|
    ensures t.Token? && t.place == "" && used <= t.used <= used + 1 && (t.used == used + 1 ==> next != [])
    ensures syntax.Valid() ==> t.report.code != -1
  {
    var o := syntax.long.value[i];
    var code := if o.hasFlag then 0 else o.val;
    match o.hasArg
    case NoArgument =>
      if value.Some? then Token(Report(BadArg(syntax.letters), None, Some(LongOptopt(o)), None), used, "")
      else Token(Report(code, None, None, Some(i)), used, "")
    case OptionalArgument => Token(Report(code, value, None, Some(i)), used, "")
    case RequiredArgument =>
      if value.Some? then Token(Report(code, value, None, Some(i)), used, "")
      else if next == [] then Token(Report(BadArg(syntax.letters), None, Some(LongOptopt(o)), None), used, "")
      else Token(Report(code, Some(next[0]), None, Some(i)), used + 1, "")
  }

  /** A long option written as `key` or `key=value`. */
  function LongToken(syntax: Syntax, text: string, next: seq<string>, used: nat): (t: Token)
    requires syntax.long.Some?
    ensures t.Token? && t.place == "" && used <= t.used <= used + 1 && (t.used == used + 1 ==> next != [])
    ensures syntax.Valid() ==> t.report.code != -1
  {
    var eq := IndexOf(text, '=');
    var value := if eq < |text| then Some(text[eq + 1..]) else None;
    match MatchOf(text[..eq], syntax.long.value, false)
    case Ambiguous => Token(Report(BADCH, None, Some(0), None), used, "")
    case NoMatch => Token(Report(BADCH, None, Some(0), None), used, "")
    case Found(i) => FoundToken(syntax, i, value, next, used)
  }

  /**
    A letter c found at index `at` of the option letters, with or without an argument;
    `tail` is left of its cluster.
   */
  function KnownLetter(syntax: Syntax, at: nat, c: char, tail: string, next: seq<string>): (t: Token)
    ensures t.Token? && t.used <= 1 + |next| && |t.place| <= |tail| && (t.place != "" <==> t.used == 0)
    ensures syntax.Valid() ==> t.report.code != -1
  {
    if CharAt(syntax.letters, at + 1) != ':' then
      Token(Report(c as int, None, None, None), if tail == "" then 1 else 0, tail)
    else if tail != "" then
      Token(Report(c as int, Some(tail), None, None), 1, "")
    else if CharAt(syntax.letters, at + 2) == ':' then
      Token(Report(c as int, None, None, None), 1, "")
    else if next == [] then
      Token(Report(BadArg(syntax.letters), None, Some(c as int), None), 1, "")
    else
      Token(Report(c as int, Some(next[0]), None, None), 2, "")
  }

  /** The first letter of an option cluster; `next` are the entries after the cluster. */
  function LetterToken(syntax: Syntax, place: string, next: seq<string>): (t: Token)
    requires place != ""
    ensures t.Token? ==> t.used <= 1 + |next| && |t.place| < |place| && (t.place != "" <==> t.used == 0)
    ensures t.Token? && syntax.Valid() ==> t.report.code != -1
  {
    var c, tail := place[0], place[1..];
    var at := IndexOf(syntax.letters, c);
    if c == ':' || (c == '-' && tail != "") || at == |syntax.letters| then
      if c == '-' && tail == "" then Dash
      else Token(Report(BADCH, None, Some(c as int), None), if tail == "" then 1 else 0, tail)
    else if syntax.long.Some? && c == 'W' && CharAt(syntax.letters, at + 1) == ';' then
      if tail != "" then LongToken(syntax, tail, next, 1)
      else if next == [] then Token(Report(BadArg(syntax.letters), None, Some(c as int), None), 1, "")
      else LongToken(syntax, next[0], next[1..], 2)
    else KnownLetter(syntax, at, c, tail, next)
  }

  /** The option at `place`; a lone "-" is never a long option. */
  function TokenAt(syntax: Syntax, place: string, lone: bool, next: seq<string>): (t: Token)
    requires place != ""
    ensures t.Token? ==> t.used <= 1 + |next| && |t.place| < |place| && (t.place != "" <==> t.used == 0)
    ensures t.Token? && syntax.Valid() ==> t.report.code != -1
  {
    if syntax.long.Some? && !lone && place[0] == '-' then LongToken(syntax, place[1..], next, 1)
    else LetterToken(syntax, place, next)
  }

  predicate IsNonOption(syntax: Syntax, arg: string) {
    CharAt(arg, 0) != '-' || (arg == "-" && '-' !in syntax.letters)
  }

  /** Where scanning of an option entry begins: after its dash, unless it is a lone dash. */
  function ClusterOf(arg: string): (place: string)
    requires arg != "" && arg[0] == '-'
    ensures place != "" && |place| <= |arg|
  {
    if arg == "-" then arg else arg[1..]
  }
}
