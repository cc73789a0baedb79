/**
  What a complete scan of an argument vector means: one pass over the vector
  as the user wrote it, which never moves an entry.  The incremental, permuting
  scan of src/msim_getopt.c is proved to agree with it in Getopt.dfy.
 */
module GetoptParse {
  import opened Basics
  import opened OptionGrammar

  /**
    The reports of a scan, the entries it consumes as options, option arguments or
    "--", the non-options it skips, and the entries it does not look at.  An
    incomplete scan stopped at a cluster which ends in a dash.
   */
  datatype Parsed = Parsed(reports: seq<Report>, taken: seq<string>, skipped: seq<string>, rest: seq<string>,
                           complete: bool)

  function Parse(syntax: Syntax, args: seq<string>, i: nat, place: string): (p: Parsed)
    requires i <= |args| && (place != "" ==> i < |args|)
    ensures |p.taken| + |p.skipped| + |p.rest| == |args| - i
    decreases |args| - i, if place != "" then |place| else if i < |args| then |args[i]| + 1 else 0
  {
    if place == "" && i == |args| then
      Parsed([], [], [], [], true)
    else if place == "" && IsNonOption(syntax, args[i]) then
      match syntax.mode
      case Permute =>
        var p := Parse(syntax, args, i + 1, "");
        p.(skipped := [args[i]] + p.skipped)
      case InOrder =>
        var p := Parse(syntax, args, i + 1, "");
        p.(reports := [Report(INORDER, Some(args[i]), None, None)] + p.reports, taken := [args[i]] + p.taken)
      case Posix =>
        Parsed([], [], [], args[i..], true)
    else if place == "" && args[i] == "--" then
      Parsed([], ["--"], [], args[i + 1..], true)
    else
      var t := NextToken(syntax, args, i, place);
      if t.Dash? then
        Parsed([], [], [], args[i..], false)
      else
        var p := Parse(syntax, args, i + t.used, t.place);
        p.(reports := [t.report] + p.reports, taken := args[i..i + t.used] + p.taken)
  }

  /** The option at entry i, of which `place` is still to be read ("" for all of it). */
  function NextToken(syntax: Syntax, args: seq<string>, i: nat, place: string): (t: Token)
    requires i < |args|
    requires place == "" ==> !IsNonOption(syntax, args[i])
    ensures t.Token? ==> t.used <= |args| - i && (t.place != "" <==> t.used == 0)
    ensures t.Token? ==> |t.place| < if place == "" then |args[i]| else |place|
    ensures t.Token? && syntax.Valid() ==> t.report.code != -1
  {
    var cluster := if place == "" then ClusterOf(args[i]) else place;
    TokenAt(syntax, cluster, place == "" && args[i] == "-", args[i + 1..])
  }

  /** Only a scan that permutes skips anything. */
  lemma {:induction false} SkipsOnlyWhenPermuting(syntax: Syntax, args: seq<string>, i: nat, place: string)
    requires i <= |args| && (place != "" ==> i < |args|)
    requires syntax.mode != Permute
    ensures Parse(syntax, args, i, place).skipped == []
    decreases |args| - i, if place != "" then |place| else if i < |args| then |args[i]| + 1 else 0
  {
    hide NextToken, IsNonOption;
    if place == "" && i == |args| {
    } else if place == "" && IsNonOption(syntax, args[i]) {
      SkipsOnlyWhenPermuting(syntax, args, i + 1, "");
    } else if place == "" && args[i] == "--" {
    } else {
      var t := NextToken(syntax, args, i, place);
      if t.Token? {
        SkipsOnlyWhenPermuting(syntax, args, i + t.used, t.place);
      }
    }
  }

  /** Every skipped entry is a non-option. */
  lemma {:induction false} SkippedAreNonOptions(syntax: Syntax, args: seq<string>, i: nat, place: string)
    requires i <= |args| && (place != "" ==> i < |args|)
    ensures forall a :: a in Parse(syntax, args, i, place).skipped ==> IsNonOption(syntax, a)
    decreases |args| - i, if place != "" then |place| else if i < |args| then |args[i]| + 1 else 0
  {
    hide NextToken, IsNonOption;
    if place == "" && i == |args| {
    } else if place == "" && IsNonOption(syntax, args[i]) {
      if syntax.mode != Posix {
        SkippedAreNonOptions(syntax, args, i + 1, "");
      }
    } else if place == "" && args[i] == "--" {
    } else {
      var t := NextToken(syntax, args, i, place);
      if t.Token? {
        SkippedAreNonOptions(syntax, args, i + t.used, t.place);
      }
    }
  }

  /** Everything a scan has sorted, with multiplicities. */
  ghost function Contents(p: Parsed): multiset<string> {
    multiset(p.taken) + multiset(p.skipped) + multiset(p.rest)
  }

  lemma ContentsAdd(p: Parsed, seg: seq<string>, reports: seq<Report>)
    ensures Contents(p.(reports := reports, taken := seg + p.taken)) == multiset(seg) + Contents(p)
    ensures Contents(p.(skipped := seg + p.skipped)) == multiset(seg) + Contents(p)
  {
  }

  lemma SplitCount(args: seq<string>, i: nat, j: nat)
    requires i <= j <= |args|
    ensures multiset(args[i..]) == multiset(args[i..j]) + multiset(args[j..])
  {
    assert args[i..] == args[i..j] + args[j..];
  }

  lemma TerminatorContents(args: seq<string>, i: nat)
    requires i < |args| && args[i] == "--"
    ensures Contents(Parsed([], ["--"], [], args[i + 1..], true)) == multiset(args[i..])
  {
    assert args[i..] == ["--"] + args[i + 1..];
  }

  lemma RestContents(args: seq<string>, i: nat, complete: bool)
    requires i <= |args|
    ensures Contents(Parsed([], [], [], args[i..], complete)) == multiset(args[i..])
    ensures i == |args| ==> Contents(Parsed([], [], [], [], complete)) == multiset(args[i..])
  {
  }

  /** Where the parse goes on after one step from entry i, of which `place` is left; None if it ends there. */
  function Onward(syntax: Syntax, args: seq<string>, i: nat, place: string): (next: Option<(nat, string)>)
    requires i <= |args| && (place != "" ==> i < |args|)
    ensures next.Some? ==>
      var (j, place') := next.value;
      && i <= j <= |args| && (place' != "" ==> j == i < |args|)
      && (j == i ==> place' != "" && |place'| < if place != "" then |place| else |args[i]| + 1)
  {
    if place == "" && i == |args| then None
    else if place == "" && IsNonOption(syntax, args[i]) then
      if syntax.mode == Posix then None else Some((i + 1, ""))
    else if place == "" && args[i] == "--" then None
    else
      var t := NextToken(syntax, args, i, place);
      if t.Dash? then None else Some((i + t.used, t.place))
  }

  /** A parse that ends here sorts what is left. */
  lemma ParseEnds(syntax: Syntax, args: seq<string>, i: nat, place: string)
    requires i <= |args| && (place != "" ==> i < |args|) && Onward(syntax, args, i, place).None?
    ensures Contents(Parse(syntax, args, i, place)) == multiset(args[i..])
  {
    hide NextToken, IsNonOption, Contents;
    RestContents(args, i, true);
    RestContents(args, i, false);
    if place == "" && i < |args| && args[i] == "--" {
      TerminatorContents(args, i);
    }
  }

  /** A parse that goes on sorts the entries up to there, and the others as the later parse does. */
  lemma ParseGoesOn(syntax: Syntax, args: seq<string>, i: nat, place: string, j: nat, place': string)
    requires i <= |args| && (place != "" ==> i < |args|) && Onward(syntax, args, i, place) == Some((j, place'))
    ensures
      var p, q := Parse(syntax, args, i, place), Parse(syntax, args, j, place');
      p == q.(skipped := args[i..j] + q.skipped) || p == q.(reports := p.reports, taken := args[i..j] + q.taken)
  {
    hide NextToken, IsNonOption;
    if place == "" && IsNonOption(syntax, args[i]) {
      assert args[i..i + 1] == [args[i]];
    }
  }

  /** Nothing of the vector is lost or invented. */
  lemma {:induction false} ParsePartitions(syntax: Syntax, args: seq<string>, i: nat, place: string)
    requires i <= |args| && (place != "" ==> i < |args|)
    ensures Contents(Parse(syntax, args, i, place)) == multiset(args[i..])
    decreases |args| - i, if place != "" then |place| else if i < |args| then |args[i]| + 1 else 0
  {
    hide Parse, Contents, Onward;
    match Onward(syntax, args, i, place)
    case None => ParseEnds(syntax, args, i, place);
    case Some((j, place')) =>
      ParsePartitions(syntax, args, j, place');
      ParseGoesOn(syntax, args, i, place, j, place');
      SplitCount(args, i, j);
      ContentsAdd(Parse(syntax, args, j, place'), args[i..j], Parse(syntax, args, i, place).reports);
  }

  // ---------- the order of the sorted entries ----------

  /** The entries xs are those of args at the indices ks, from left to right. */
  ghost predicate Picks(args: seq<string>, ks: seq<nat>, xs: seq<string>) {
    && |ks| == |xs| && (forall k :: 0 <= k < |ks| ==> ks[k] < |args| && args[ks[k]] == xs[k])
    && forall j, k :: 0 <= j < k < |ks| ==> ks[j] < ks[k]
  }

  /** Each index from i up to n is in one of the lists, and no other index is in either. */
  ghost predicate Divides(ts: seq<nat>, ss: seq<nat>, i: nat, n: nat) {
    && (forall x: nat :: x in ts || x in ss <==> i <= x < n)
    && forall x :: x in ts ==> x !in ss
  }

  function Indices(i: nat, j: nat): (ks: seq<nat>)
    requires i <= j
    ensures |ks| == j - i && forall k :: 0 <= k < |ks| ==> ks[k] == i + k
  {
    seq(j - i, k requires 0 <= k < j - i => i + k)
  }

  lemma IndicesIn(i: nat, j: nat, x: nat)
    requires i <= j
    ensures x in Indices(i, j) <==> i <= x < j
  {
    if i <= x < j {
      assert Indices(i, j)[x - i] == x;
    }
  }

  lemma PicksMore(args: seq<string>, i: nat, j: nat, ks: seq<nat>, xs: seq<string>)
    requires i <= j <= |args| && Picks(args, ks, xs) && forall x :: x in ks ==> x >= j
    ensures Picks(args, Indices(i, j) + ks, args[i..j] + xs)
  {
    var ls := Indices(i, j) + ks;
    forall a, b | 0 <= a < b < |ls|
      ensures ls[a] < ls[b]
    {
      assert b >= j - i ==> ls[b] in ks;
    }
  }

  lemma DividesMore(ts: seq<nat>, ss: seq<nat>, i: nat, j: nat, n: nat)
    requires i <= j <= n && Divides(ts, ss, j, n)
    ensures Divides(Indices(i, j) + ts, ss, i, n) && Divides(ts, Indices(i, j) + ss, i, n)
  {
    forall x: nat
      ensures x in Indices(i, j) <==> i <= x < j
    {
      IndicesIn(i, j, x);
    }
    hide Indices;
  }

  /** Where a parse ends, it takes "--" or nothing. */
  lemma EndTakes(syntax: Syntax, args: seq<string>, i: nat, place: string)
    requires i <= |args| && (place != "" ==> i < |args|) && Onward(syntax, args, i, place).None?
    ensures
      var p := Parse(syntax, args, i, place);
      var n := |args| - |p.rest|;
      i <= n && p.taken == args[i..n] && p.skipped == [] && p.rest == args[n..]
  {
    hide NextToken, IsNonOption;
    assert args[i..i] == [] && (i < |args| ==> args[i..i + 1] == [args[i]]) && args[|args|..] == [];
  }

  /**
    The sort is stable: the taken entries and the skipped ones each keep their order, together
    they are the entries in front of the rest, each of them once, and the rest is as it was.
   */
  lemma {:induction false} ParseIsStable(syntax: Syntax, args: seq<string>, i: nat, place: string)
      returns (ts: seq<nat>, ss: seq<nat>)
    requires i <= |args| && (place != "" ==> i < |args|)
    ensures
      var p := Parse(syntax, args, i, place);
      var n := |args| - |p.rest|;
      && i <= n && p.rest == args[n..] && Divides(ts, ss, i, n)
      && Picks(args, ts, p.taken) && Picks(args, ss, p.skipped)
    decreases |args| - i, if place != "" then |place| else if i < |args| then |args[i]| + 1 else 0
  {
    hide Parse, Onward, Picks, Divides;
    var p := Parse(syntax, args, i, place);
    match Onward(syntax, args, i, place)
    case None =>
      EndTakes(syntax, args, i, place);
      var n := |args| - |p.rest|;
      NothingPicked(args, n);
      ts, ss := Indices(i, n), [];
      PicksMore(args, i, n, [], []);
      DividesMore([], [], i, n, n);
      AppendNothing(args[i..n]);
      AppendNothing(Indices(i, n));
    case Some((j, place')) =>
      ts, ss := ParseIsStable(syntax, args, j, place');
      ParseGoesOn(syntax, args, i, place, j, place');
      var q := Parse(syntax, args, j, place');
      DividedFrom(ts, ss, j, |args| - |q.rest|);
      PicksMore(args, i, j, ts, q.taken);
      PicksMore(args, i, j, ss, q.skipped);
      DividesMore(ts, ss, i, j, |args| - |q.rest|);
      if p.skipped == q.skipped && p.taken == args[i..j] + q.taken {
        ts := Indices(i, j) + ts;
      } else {
        ss := Indices(i, j) + ss;
      }
  }

  lemma NothingPicked(args: seq<string>, n: nat)
    ensures Picks(args, [], []) && Divides([], [], n, n)
  {
  }

  lemma DividedFrom(ts: seq<nat>, ss: seq<nat>, j: nat, n: nat)
    requires Divides(ts, ss, j, n)
    ensures (forall x :: x in ts ==> x >= j) && forall x :: x in ss ==> x >= j
  {
  }

  // ---------- scans that stop at a trailing dash ----------

  /** Reading the cluster letter by letter arrives at a dash that ends it and is no option letter. */
  predicate ClusterStalls(syntax: Syntax, place: string)
    requires place != ""
    decreases |place|
  {
    var t := TokenAt(syntax, place, false, []);
    t.Dash? || (t.place != "" && ClusterStalls(syntax, t.place))
  }

  predicate Stalls(syntax: Syntax, arg: string) {
    !IsNonOption(syntax, arg) && arg != "-" && arg != "--" && ClusterStalls(syntax, ClusterOf(arg))
  }

  /** Only a dash at the end of an entry stalls, and only without long options and without a letter '-'. */
  lemma {:induction false} ClusterStallsShape(syntax: Syntax, place: string)
    requires place != "" && ClusterStalls(syntax, place)
    ensures syntax.long.None? && '-' !in syntax.letters && place[|place| - 1] == '-'
    decreases |place|
  {
    var t := TokenAt(syntax, place, false, []);
    if t.Token? {
      ClusterStallsShape(syntax, t.place);
      if place[0] == ':' || (place[0] == '-' && place[1..] != "") || place[0] !in syntax.letters {
        assert t.place == place[1..];
      }
    }
  }

  /** The dash and the letters left of a cluster do not depend on the entries that follow. */
  lemma TokenIgnoresNext(syntax: Syntax, place: string, next: seq<string>)
    requires place != ""
    ensures
      var t, u := TokenAt(syntax, place, false, []), TokenAt(syntax, place, false, next);
      (t.Dash? <==> u.Dash?) && (t.Token? ==> t.place == u.place)
  {
  }

  /** A lone dash which is an option is read as such. */
  lemma LoneDash(syntax: Syntax, next: seq<string>)
    requires !IsNonOption(syntax, "-")
    ensures ClusterOf("-") == "-" && TokenAt(syntax, "-", true, next).Token?
      && TokenAt(syntax, "-", true, next).place == ""
  {
  }

  /** One step along a cluster. */
  lemma ClusterStep(syntax: Syntax, place: string, next: seq<string>)
    requires place != ""
    ensures
      var u := TokenAt(syntax, place, false, next);
      ClusterStalls(syntax, place) <==> u.Dash? || (u.place != "" && ClusterStalls(syntax, u.place))
  {
    TokenIgnoresNext(syntax, place, next);
    hide TokenAt;
  }

  /** An entry stalls only as an option, and then as its cluster does. */
  lemma EntryStalls(syntax: Syntax, arg: string)
    ensures IsNonOption(syntax, arg) || arg == "-" || arg == "--" ==> !Stalls(syntax, arg)
    ensures !IsNonOption(syntax, arg) ==> arg != "" && arg[0] == '-'
    ensures !IsNonOption(syntax, arg) && arg != "-" && arg != "--" ==>
      (Stalls(syntax, arg) <==> ClusterStalls(syntax, ClusterOf(arg)))
  {
    hide ClusterStalls;
  }

  /** What is left of entry i stalls. */
  predicate StallsHere(syntax: Syntax, args: seq<string>, i: nat, place: string) {
    if place != "" then ClusterStalls(syntax, place) else i < |args| && Stalls(syntax, args[i])
  }

  /** One step of the parse: what stalls here ends it here, or stalls still. */
  lemma StallStep(syntax: Syntax, args: seq<string>, i: nat, place: string)
    requires i <= |args| && (place != "" ==> i < |args|)
    ensures
      var p := Parse(syntax, args, i, place);
      match Onward(syntax, args, i, place)
      case None => (StallsHere(syntax, args, i, place) <==> !p.complete) && (!p.complete ==> p.rest == args[i..])
      case Some((j, place')) =>
        var q := Parse(syntax, args, j, place');
        && p.complete == q.complete && p.rest == q.rest
        && (StallsHere(syntax, args, i, place) <==> place' != "" && ClusterStalls(syntax, place'))
  {
    hide TokenAt, ClusterOf, ClusterStalls, Stalls, IsNonOption;
    if i < |args| && place == "" {
      EntryStalls(syntax, args[i]);
    }
    if place == "" && (i == |args| || IsNonOption(syntax, args[i]) || args[i] == "--") {
    } else if place == "" && args[i] == "-" {
      LoneDash(syntax, args[i + 1..]);
    } else {
      ClusterStep(syntax, if place == "" then ClusterOf(args[i]) else place, args[i + 1..]);
    }
  }

  /** A scan that stalls here stops here; an incomplete scan stops here or in front of an entry that stalls. */
  ghost predicate StopsAtStall(syntax: Syntax, args: seq<string>, i: nat, place: string, p: Parsed)
    requires i <= |args|
  {
    && (StallsHere(syntax, args, i, place) ==> !p.complete && p.rest == args[i..])
    && (!p.complete ==>
        (place != "" && StallsHere(syntax, args, i, place)) || (p.rest != [] && Stalls(syntax, p.rest[0])))
  }

  /** An incomplete scan stops in front of an entry that stalls, and a scan that meets one there is incomplete. */
  lemma {:induction false} IncompleteStalls(syntax: Syntax, args: seq<string>, i: nat, place: string)
    requires i <= |args| && (place != "" ==> i < |args|)
    ensures StopsAtStall(syntax, args, i, place, Parse(syntax, args, i, place))
    decreases |args| - i, if place != "" then |place| else if i < |args| then |args[i]| + 1 else 0
  {
    hide Parse, Onward, ClusterStalls, Stalls;
    StallStep(syntax, args, i, place);
    match Onward(syntax, args, i, place)
    case None =>
    case Some((j, place')) => IncompleteStalls(syntax, args, j, place');
  }

  /** The parse from entry i, of which `place` is left, reads entry k as an option. */
  predicate Reaches(syntax: Syntax, args: seq<string>, i: nat, place: string, k: nat)
    requires i <= |args| && (place != "" ==> i < |args|)
    decreases |args| - i, if place != "" then |place| else if i < |args| then |args[i]| + 1 else 0
  {
    || (place == "" && k == i < |args| && !IsNonOption(syntax, args[i]) && args[i] != "--")
    || match Onward(syntax, args, i, place)
       case None => false
       case Some((j, place')) => Reaches(syntax, args, j, place', k)
  }

  /** A parse that reads an entry that stalls stops in front of it. */
  lemma {:induction false} ReachedStallStops(syntax: Syntax, args: seq<string>, i: nat, place: string, k: nat)
    requires i <= |args| && (place != "" ==> i < |args|)
    requires k < |args| && Reaches(syntax, args, i, place, k) && Stalls(syntax, args[k])
    ensures !Parse(syntax, args, i, place).complete && Parse(syntax, args, i, place).rest == args[k..]
    decreases |args| - i, if place != "" then |place| else if i < |args| then |args[i]| + 1 else 0
  {
    hide Parse, Onward, ClusterStalls, Stalls, IsNonOption;
    IncompleteStalls(syntax, args, i, place);
    if !(place == "" && k == i) {
      StallStep(syntax, args, i, place);
      var (j, place') := Onward(syntax, args, i, place).value;
      ReachedStallStops(syntax, args, j, place', k);
    }
  }

  /** A parse that is incomplete, though not for what is left of entry i, has read an entry that stalls. */
  lemma {:induction false} IncompleteReaches(syntax: Syntax, args: seq<string>, i: nat, place: string) returns (k: nat)
    requires i <= |args| && (place != "" ==> i < |args|)
    requires !Parse(syntax, args, i, place).complete && (place != "" ==> !ClusterStalls(syntax, place))
    ensures k < |args| && Reaches(syntax, args, i, place, k) && Stalls(syntax, args[k])
    decreases |args| - i, if place != "" then |place| else if i < |args| then |args[i]| + 1 else 0
  {
    hide Parse, Onward, ClusterStalls, Stalls, IsNonOption;
    StallStep(syntax, args, i, place);
    if StallsHere(syntax, args, i, place) {
      EntryStalls(syntax, args[i]);
      k := i;
    } else {
      var (j, place') := Onward(syntax, args, i, place).value;
      k := IncompleteReaches(syntax, args, j, place');
    }
  }

  /** A scan is incomplete if and only if an entry that it reads as an option stalls. */
  lemma IncompleteIff(syntax: Syntax, args: seq<string>, start: nat)
    requires start <= |args|
    ensures !Parse(syntax, args, start, "").complete <==>
      exists k :: 0 <= k < |args| && Reaches(syntax, args, start, "", k) && Stalls(syntax, args[k])
  {
    hide Parse, Reaches, Stalls;
    if !Parse(syntax, args, start, "").complete {
      var k := IncompleteReaches(syntax, args, start, "");
    }
    forall k | 0 <= k < |args| && Reaches(syntax, args, start, "", k) && Stalls(syntax, args[k])
      ensures !Parse(syntax, args, start, "").complete
    {
      ReachedStallStops(syntax, args, start, "", k);
    }
  }
}
