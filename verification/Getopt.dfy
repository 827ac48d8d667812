/** getopt: a resumable parser whose hidden state refines a plain recursive parse of argv. */
module Getopt {
  import opened CStrings

  /** What one call can report. */
  datatype Event =
    | Opt(c: char, arg: Option<string>)
    | Unknown(c: char)
    | Missing(c: char)

  // ---------- the plain parse ----------

  function IndexOf(s: string, c: char): (i: nat)
    ensures i <= |s| && (i < |s| ==> s[i] == c) && (forall j :: 0 <= j < i ==> s[j] != c)
  {
    if s == "" || s[0] == c then 0
    else
      var i := IndexOf(s[1..], c);
      assert forall j :: 0 < j < 1 + i ==> s[j] == s[1..][j - 1];
      1 + i
  }

  predicate Known(optstring: string, c: char) { c != ':' && c in optstring }

  /** The option's first mention in optstring is followed by a colon. */
  predicate TakesArgument(optstring: string, c: char)
  {
    var i := IndexOf(optstring, c);
    i + 1 < |optstring| && optstring[i + 1] == ':'
  }

  predicate IsOptionWord(w: string) { |w| > 1 && w[0] == '-' && w != "--" }

  /** The events in order, and the words that are operands. */
  datatype Outcome = Outcome(events: seq<Event>, operands: seq<string>)

  function Prepend(e: Event, o: Outcome): Outcome { Outcome([e] + o.events, o.operands) }

  function Total(ws: seq<string>): nat
  {
    if ws == [] then 0 else 1 + |ws[0]| + Total(ws[1..])
  }

  /** A list of words whose first may be an option word. */
  function Words(ws: seq<string>, os: string): Outcome
    decreases Total(ws), 1
  {
    if ws == [] then Outcome([], [])
    else if ws[0] == "--" then Outcome([], ws[1..])
    else if IsOptionWord(ws[0]) then Cluster(ws[0][1..], ws[1..], os)
    else Outcome([], ws)
  }

  /** The letters `cs` of an option word, with the words behind it. */
  function Cluster(cs: string, ws: seq<string>, os: string): Outcome
    decreases |cs| + Total(ws), 2
  {
    if cs == "" then Words(ws, os)
    else
      var c := cs[0];
      if !Known(os, c) then Prepend(Unknown(c), Cluster(cs[1..], ws, os))
      else if !TakesArgument(os, c) then Prepend(Opt(c, None), Cluster(cs[1..], ws, os))
      else if |cs| > 1 then Prepend(Opt(c, Some(cs[1..])), Words(ws, os))
      else if ws != [] then Prepend(Opt(c, Some(ws[0])), Words(ws[1..], os))
      else Prepend(Missing(c), Words(ws, os))
  }

  // ---------- getopt ----------

  /** The return value that announces an event. */
  function Code(e: Event, os: string): int
  {
    match e
    case Opt(c, _) => Plain(c)
    case Unknown(_) => '?' as int
    case Missing(_) => if os != "" && os[0] == ':' then ':' as int else '?' as int
  }

  class Parser {
    var optarg: Option<string>
    var optind: int
    var optopt: char
    var optpos: nat

    constructor ()
      ensures optarg == None && optind == 1 && optopt == '?' && optpos == 1
    {
      optarg, optind, optopt, optpos := None, 1, '?', 1;
    }

    /** The cursor stands at the start of a word or inside an option word; optind <= 0 asks for a restart. */
    ghost predicate Valid(argv: seq<string>)
      reads this
    {
      optind <= 0 ||
      (&& (argv != [] ==> optind <= |argv|)
       && (optpos != 1 ==> optind < |argv| && IsOptionWord(argv[optind]) && 1 < optpos < |argv[optind]|))
    }

    /** What a plain parse would still report from here. */
    ghost function Pending(argv: seq<string>, os: string): Outcome
      reads this
      requires Valid(argv)
    {
      var i := if optind <= 0 then 1 else optind;
      if optind <= 0 || optpos == 1 then Words(if i < |argv| then argv[i..] else [], os)
      else Cluster(argv[i][optpos..], argv[i + 1..], os)
    }

    ghost predicate Reports(e: Event, r: int, os: string)
      reads this
    {
      && r == Code(e, os)
      && match e
         case Opt(_, arg) => optarg == arg
         case Unknown(c) => optopt == c
         case Missing(c) => optopt == c
    }

    lemma ReportShown(e: Event, r: int, os: string)
      requires Reports(e, r, os) && r != -1
      ensures Shows(Call(r, optarg, optopt), e, os)
    {
    }

    /** One call: the next event of the plain parse, or -1 with optind at the first operand. */
    method Next(argv: seq<string>, os: string) returns (r: int, ghost e: Option<Event>)
      requires Valid(argv)
      modifies this
      ensures Valid(argv) && optind >= 1
      ensures e.Some? ==> Reports(e.value, r, os) && old(Pending(argv, os)) == Prepend(e.value, Pending(argv, os))
      ensures e.Some? && e.value.Opt? ==> e.value.c in os
      ensures e.None? ==>
                r == -1 && old(Pending(argv, os)) == Outcome([], if optind < |argv| then argv[optind..] else [])
    {
      hide Words, Cluster;
      if optind <= 0 { optind, optpos := 1, 1; }
      Restart(argv, os);
      if optind >= |argv| || At(argv[optind], 0) != '-' || |argv[optind]| == 1 { return -1, None; }
      if argv[optind] == "--" {
        optind := optind + 1;
        return -1, None;
      }
      r, e := Letter(argv, os);
    }

    lemma Restart(argv: seq<string>, os: string)
      requires Valid(argv) && optind >= 1
      ensures
        var o := Pending(argv, os);
        && (optind >= |argv| ==> o == Outcome([], []))
        && (optind < |argv| && argv[optind] == "--" ==> o == Outcome([], argv[optind + 1..]))
        && (optind < |argv| && argv[optind] != "--" && !IsOptionWord(argv[optind]) ==> o == Outcome([], argv[optind..]))
        && (optind < |argv| && IsOptionWord(argv[optind]) ==>
              1 <= optpos < |argv[optind]| && o == Cluster(argv[optind][optpos..], argv[optind + 1..], os))
    {
    }

    /** The letter under the cursor. */
    method Letter(argv: seq<string>, os: string) returns (r: int, ghost e: Option<Event>)
      requires Valid(argv) && 1 <= optind < |argv| && IsOptionWord(argv[optind]) && 1 <= optpos < |argv[optind]|
      requires Pending(argv, os) == Cluster(argv[optind][optpos..], argv[optind + 1..], os)
      modifies this
      ensures Valid(argv) && optind >= 1 && e.Some?
      ensures Reports(e.value, r, os) && old(Pending(argv, os)) == Prepend(e.value, Pending(argv, os))
      ensures e.value.Opt? ==> e.value.c in os
    {
      hide Words, Cluster, IndexOf, Known;
      var w := argv[optind];
      var c := w[optpos];
      ghost var cs, ws := w[optpos..], argv[optind + 1..];
      assert cs[0] == c && cs[1..] == w[optpos + 1..];
      assert ws != [] ==> ws[0] == argv[optind + 1] && ws[1..] == argv[optind + 2..];
      ClusterStep(cs, ws, os);
      KnownIndex(os, c);
      var p := IndexOf(os, c);
      if p == |os| || c == ':' {
        e := Some(Unknown(c));
        optopt := c;
        Advance(argv, os);
        return '?' as int, e;
      }
      if p + 1 < |os| && os[p + 1] == ':' {
        if optpos + 1 < |w| {
          e := Some(Opt(c, Some(w[optpos + 1..])));
          optarg := Some(w[optpos + 1..]);
          optind, optpos := optind + 1, 1;
        } else if optind + 1 < |argv| {
          e := Some(Opt(c, Some(argv[optind + 1])));
          optind := optind + 1;
          optarg := Some(argv[optind]);
          optind, optpos := optind + 1, 1;
        } else {
          e := Some(Missing(c));
          optopt := c;
          optind, optpos := optind + 1, 1;
          return if At(os, 0) == ':' then ':' as int else '?' as int, e;
        }
      } else {
        e := Some(Opt(c, None));
        optarg := None;
        Advance(argv, os);
      }
      r := Plain(c);
    }

    /** On to the next letter, or to the next word. */
    method Advance(argv: seq<string>, os: string)
      requires Valid(argv) && 1 <= optind < |argv| && IsOptionWord(argv[optind]) && 1 <= optpos < |argv[optind]|
      modifies this`optind, this`optpos
      ensures Valid(argv) && optind >= 1
      ensures Pending(argv, os) == old(Cluster(argv[optind][optpos + 1..], argv[optind + 1..], os))
    {
      EmptyCluster(argv[optind + 1..], os);
      optpos := optpos + 1;
      if optpos == |argv[optind]| {
        assert argv[optind][optpos..] == "";
        optind, optpos := optind + 1, 1;
      }
    }
  }

  lemma EmptyCluster(ws: seq<string>, os: string)
    ensures Cluster("", ws, os) == Words(ws, os)
  {
  }

  lemma ClusterStep(cs: string, ws: seq<string>, os: string)
    requires cs != ""
    ensures
      var c := cs[0];
      Cluster(cs, ws, os) ==
      if !Known(os, c) then Prepend(Unknown(c), Cluster(cs[1..], ws, os))
      else if !TakesArgument(os, c) then Prepend(Opt(c, None), Cluster(cs[1..], ws, os))
      else if |cs| > 1 then Prepend(Opt(c, Some(cs[1..])), Words(ws, os))
      else if ws != [] then Prepend(Opt(c, Some(ws[0])), Words(ws[1..], os))
      else Prepend(Missing(c), Words(ws, os))
  {
    hide Words, Known, TakesArgument, Prepend;
  }

  // ---------- whole runs ----------

  /** What the caller sees of one call: the return value, optarg and optopt. */
  datatype Call = Call(r: int, optarg: Option<string>, optopt: char)

  predicate Shows(k: Call, e: Event, os: string)
  {
    && k.r == Code(e, os) && k.r != -1
    && match e
       case Opt(_, arg) => k.optarg == arg
       case Unknown(c) => k.optopt == c
       case Missing(c) => k.optopt == c
  }

  /** An option whose byte, as a signed char, is the -1 that ends a run. */
  predicate LooksLikeEnd(e: Event) { e.Opt? && Plain(e.c) == -1 }

  /** How many events a caller who stops at -1 gets to see. */
  function Seen(es: seq<Event>): (n: nat)
    ensures n <= |es| && (n < |es| ==> LooksLikeEnd(es[n]))
    ensures forall i :: 0 <= i < n ==> !LooksLikeEnd(es[i])
  {
    if es == [] || LooksLikeEnd(es[0]) then 0
    else
      var n := Seen(es[1..]);
      assert forall i :: 0 < i < 1 + n ==> es[i] == es[1..][i - 1];
      1 + n
  }

  /**
   Calling getopt until it returns -1 shows the events of the plain parse, in order, up to the first option that
   looks like the end. If there is none, optind is left at the first operand.
   */
  method Run(g: Parser, argv: seq<string>, os: string) returns (calls: seq<Call>)
    requires g.Valid(argv)
    modifies g
    ensures |calls| == Seen(old(g.Pending(argv, os)).events)
    ensures forall i :: 0 <= i < |calls| ==> Shows(calls[i], old(g.Pending(argv, os)).events[i], os)
    ensures g.Valid(argv) && 1 <= g.optind && (argv != [] ==> g.optind <= |argv|)
    ensures |calls| == |old(g.Pending(argv, os)).events| ==>
              old(g.Pending(argv, os)).operands == if g.optind < |argv| then argv[g.optind..] else []
  {
    hide Words, Cluster, Shows, Seen, LooksLikeEnd;
    calls := [];
    ghost var all, events := g.Pending(argv, os), [];
    assert [] + all.events == all.events;
    while true
      invariant g.Valid(argv) && g.Pending(argv, os).operands == all.operands
      invariant all.events == events + g.Pending(argv, os).events
      invariant |calls| == |events| && forall i :: 0 <= i < |events| ==> Shows(calls[i], events[i], os)
      decreases |g.Pending(argv, os).events|
    {
      ghost var before := g.Pending(argv, os);
      var r;
      ghost var e;
      r, e := g.Next(argv, os);
      if r == -1 {
        RunEnds(all.events, events, calls, before.events, e, r, os);
        break;
      }
      calls := calls + [Call(r, g.optarg, g.optopt)];
      g.ReportShown(e.value, r, os);
      assert events + before.events == events + [e.value] + g.Pending(argv, os).events;
      events := events + [e.value];
    }
  }

  /** At -1 the events are used up, or the next one looks like the end. */
  lemma RunEnds(all: seq<Event>, events: seq<Event>, calls: seq<Call>, before: seq<Event>, e: Option<Event>, r: int,
                os: string)
    requires all == events + before && r == -1
    requires |calls| == |events| && forall i :: 0 <= i < |events| ==> Shows(calls[i], events[i], os)
    requires if e.None? then before == [] else before != [] && before[0] == e.value && r == Code(e.value, os)
    ensures |events| == Seen(all) && forall i :: 0 <= i < |events| ==> Shows(calls[i], all[i], os)
    ensures |events| == |all| ==> before == []
  {
    assert forall i :: 0 <= i < |events| ==> all[i] == events[i] && !LooksLikeEnd(events[i]);
    if e.Some? { assert all[|events|] == e.value && LooksLikeEnd(e.value); }
  }

  lemma {:induction false} OptionsAreListed(cs: string, ws: seq<string>, os: string)
    ensures forall e :: e in Cluster(cs, ws, os).events && e.Opt? ==> e.c in os
    ensures forall e :: e in Words(ws, os).events && e.Opt? ==> e.c in os
    decreases |cs| + Total(ws)
  {
    hide TakesArgument;
    if ws != [] && IsOptionWord(ws[0]) { OptionsAreListed(ws[0][1..], ws[1..], os); }
    if cs != "" {
      OptionsAreListed(cs[1..], ws, os);
      if ws != [] { OptionsAreListed("", ws[1..], os); }
    }
  }

  /** The option byte 0xFF is taken for the end of the run. */
  lemma {:induction false} HiddenOption(os: string)
    requires '\U{FF}' in os
    ensures
      var es := Words(["-\U{FF}x"], os).events;
      es != [] && Seen(es) == 0
  {
    hide Cluster, IndexOf, TakesArgument;
    var w := "-\U{FF}x";
    assert w[1..] == "\U{FF}x" && w[0] == '-' && IsOptionWord(w);
    var ws: seq<string> := [w];
    assert ws[1..] == [];
    ClusterStep("\U{FF}x", [], os);
  }

  /** A caller sees every option of every command line if and only if optstring does not list the byte 0xFF. */
  lemma {:induction false} RunsAreComplete(os: string)
    ensures '\U{FF}' !in os <==> forall ws: seq<string> :: Seen(Words(ws, os).events) == |Words(ws, os).events|
  {
    if '\U{FF}' in os {
      HiddenOption(os);
    } else {
      forall ws: seq<string> ensures Seen(Words(ws, os).events) == |Words(ws, os).events| {
        OptionsAreListed("", ws, os);
      }
    }
  }

  // ---------- writing options ----------

  /** Options in their plainest spelling: one word per option, arguments as words of their own. */
  function Spell(es: seq<Event>): seq<string>
  {
    if es == [] then []
    else
      (match es[0]
       case Opt(c, None) => ["-" + [c]]
       case Opt(c, Some(arg)) => ["-" + [c], arg]
       case Unknown(c) => ["-" + [c]]
       case Missing(c) => ["-" + [c]])
      + Spell(es[1..])
  }

  /** Proper options: known, with an argument exactly if optstring asks for one, and not '-' itself. */
  ghost predicate Proper(es: seq<Event>, os: string)
  {
    forall i :: 0 <= i < |es| ==>
                  es[i].Opt? && Known(os, es[i].c) && es[i].c != '-' &&
                  (es[i].arg.Some? <==> TakesArgument(os, es[i].c))
  }

  /** Spelling options and parsing them back; "--" shields any operands. */
  lemma {:induction false} ParseOfSpelling(es: seq<Event>, operands: seq<string>, os: string)
    requires Proper(es, os)
    ensures Words(Spell(es) + ["--"] + operands, os) == Outcome(es, operands)
  {
    hide Cluster, IndexOf, Known, TakesArgument;
    var ws := Spell(es) + ["--"] + operands;
    if es == [] {
      assert ws == ["--"] + operands && ws[1..] == operands;
    } else {
      var c, rest := es[0].c, Spell(es[1..]) + ["--"] + operands;
      var w := "-" + [c];
      ParseOfSpelling(es[1..], operands, os);
      assert ws[0] == w && w[1..] == [c] && [c][1..] == "" && w[0] == '-' && w[1] == c;
      assert IsOptionWord(w) && w != "--";
      ClusterStep([c], ws[1..], os);
      EmptyCluster(ws[1..], os);
      if es[0].arg.None? {
        assert ws[1..] == rest;
      } else {
        assert ws[1] == es[0].arg.value && ws[1..][1..] == rest;
      }
      assert es == [es[0]] + es[1..];
    }
  }

  lemma KnownIndex(os: string, c: char)
    ensures Known(os, c) <==> c != ':' && IndexOf(os, c) < |os|
    ensures Known(os, c) ==> c in os
  {
  }
}
