/** How an option string is read, on its text, and what the option words of a command line then report. */
module GetoptLaws {
  import opened CStrings
  import opened Getopt

  /** A letter is an option of every string that mentions it, and takes an argument if a colon follows there. */
  lemma {:induction false} MentionMeans(a: string, c: char, b: string)
    requires c !in a && c != ':'
    ensures
      var os := a + [c] + b;
      Known(os, c) && (TakesArgument(os, c) <==> b != "" && b[0] == ':')
  {
    hide IndexOf;
    var os, i := a + [c] + b, IndexOf(a + [c] + b, c);
    assert os[|a|] == c && c in os;
    assert forall j :: 0 <= j < |a| ==> os[j] == a[j] && a[j] != c;
    assert b != "" ==> os[|a| + 1] == b[0];
  }

  /** The word `-` followed by a letter and more, in front of other words. */
  lemma OptionWord(c: char, cs: string, ws: seq<string>, os: string)
    requires c != '-' || cs != ""
    ensures Words(["-" + [c] + cs] + ws, os) == Cluster([c] + cs, ws, os)
    ensures ([c] + cs)[0] == c && ([c] + cs)[1..] == cs
  {
    hide Known, TakesArgument, Cluster;
    var w, all := "-" + [c] + cs, ["-" + [c] + cs] + ws;
    assert w[0] == '-' && w[1] == c && w[1..] == [c] + cs && (w == "--" ==> cs == "" && c == '-');
    assert all[0] == w && all[1..] == ws;
  }

  /** "-cARG" and "-c ARG" report the same, whatever ARG is, and neither looks at ARG for options. */
  lemma {:induction false} AttachedOrApart(a: string, c: char, b: string, arg: string, ws: seq<string>)
    requires c !in a && c != ':'
    ensures
      var os := a + [c] + ":" + b;
      var o := Prepend(Opt(c, Some(arg)), Words(ws, os));
      && (c != '-' ==> Words(["-" + [c], arg] + ws, os) == o)
      && (arg != "" ==> Words(["-" + [c] + arg] + ws, os) == o)
  {
    hide Known, TakesArgument, Cluster, Words;
    var os := a + [c] + ":" + b;
    assert os == a + [c] + (":" + b);
    MentionMeans(a, c, ":" + b);
    if arg != "" {
      OptionWord(c, arg, ws, os);
      ClusterStep([c] + arg, ws, os);
    }
    if c != '-' {
      assert "-" + [c] + "" == "-" + [c] && [c] + "" == [c] && ["-" + [c], arg] + ws == ["-" + [c]] + ([arg] + ws);
      OptionWord(c, "", [arg] + ws, os);
      ClusterStep([c], [arg] + ws, os);
      assert ([arg] + ws)[1..] == ws;
    }
  }

  /** A letter the option string does not mention, and ':' itself, is reported as unknown and passed over. */
  lemma {:induction false} UnmentionedIsUnknown(c: char, cs: string, ws: seq<string>, os: string)
    requires (c !in os && (c != '-' || cs != "")) || c == ':'
    ensures Words(["-" + [c] + cs] + ws, os) == Prepend(Unknown(c), Cluster(cs, ws, os))
    ensures Code(Unknown(c), os) == '?' as int
  {
    hide Cluster, Words;
    OptionWord(c, cs, ws, os);
    ClusterStep([c] + cs, ws, os);
  }

  /** An argument that is not there: the last word ends behind its letter. */
  lemma {:induction false} ArgumentMissing(a: string, c: char, b: string)
    requires c !in a && c != ':' && c != '-'
    ensures
      var os := a + [c] + ":" + b;
      && Words(["-" + [c]], os) == Outcome([Missing(c)], [])
      && Code(Missing(c), os) == if a != "" && a[0] == ':' then ':' as int else '?' as int
  {
    hide Known, TakesArgument, Cluster;
    var os := a + [c] + ":" + b;
    assert os == a + [c] + (":" + b);
    MentionMeans(a, c, ":" + b);
    assert "-" + [c] + "" == "-" + [c] && [c] + "" == [c] && ["-" + [c]] + [] == ["-" + [c]];
    OptionWord(c, "", [], os);
    ClusterStep([c], [], os);
    assert os[0] == if a != "" then a[0] else c;
  }

  /** Letters without an argument report in order, bundled in one word. */
  function Letters(cs: string, os: string): seq<Event>
  {
    if cs == "" then [] else [if Known(os, cs[0]) then Opt(cs[0], None) else Unknown(cs[0])] + Letters(cs[1..], os)
  }

  lemma {:induction false} Bundled(cs: string, ws: seq<string>, os: string)
    requires forall i :: 0 <= i < |cs| ==> !Known(os, cs[i]) || !TakesArgument(os, cs[i])
    ensures Cluster(cs, ws, os) == Outcome(Letters(cs, os) + Words(ws, os).events, Words(ws, os).operands)
  {
    hide Known, TakesArgument, Words;
    if cs != "" {
      Bundled(cs[1..], ws, os);
    }
  }

  /** "-abc" is "-a -b -c", for letters without an argument. */
  lemma {:induction false} BundleUnpacks(c: char, cs: string, ws: seq<string>, os: string)
    requires !Known(os, c) || !TakesArgument(os, c)
    requires c != '-' && cs != "" && cs != "-"
    ensures Words(["-" + [c] + cs] + ws, os) == Words(["-" + [c], "-" + cs] + ws, os)
  {
    hide Known, TakesArgument, Cluster, Words;
    assert "-" + [c] + "" == "-" + [c] && [c] + "" == [c] && [c][1..] == "";
    assert ["-" + [c], "-" + cs] + ws == ["-" + [c]] + (["-" + cs] + ws);
    assert cs == [cs[0]] + cs[1..] && "-" + cs == "-" + [cs[0]] + cs[1..];
    OptionWord(c, cs, ws, os);
    ClusterStep([c] + cs, ws, os);
    OptionWord(c, "", ["-" + cs] + ws, os);
    ClusterStep([c], ["-" + cs] + ws, os);
    EmptyCluster(["-" + cs] + ws, os);
    OptionWord(cs[0], cs[1..], ws, os);
  }

  /** Options end at "--", which is no operand, at a lone "-", and at every word without a '-' in front, which are. */
  lemma {:induction false} OperandsFollow(w: string, ws: seq<string>, os: string)
    requires w == "--" || w == "-" || w == "" || w[0] != '-'
    ensures Words([w] + ws, os) == Outcome([], if w == "--" then ws else [w] + ws)
  {
    assert ([w] + ws)[0] == w && ([w] + ws)[1..] == ws;
    assert "-" != "--";
  }
}
