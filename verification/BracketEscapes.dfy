/**
 Inside brackets fnmatch lets a backslash quote even under FNM_NOESCAPE. This module reads brackets the way
 FNM_NOESCAPE asks for, with the backslash an ordinary byte, and says for which patterns that makes no difference.
 */
module BracketEscapes {
  import opened CStrings
  import opened FnMatch

  // ---------- brackets without quoting ----------

  function PlainRange(p: string): (r: ((char, char), string))
    requires p != ""
    ensures |r.1| < |p| && r.1 == p[|p| - |r.1|..]
  {
    if |p| > 2 && p[1] == '-' && p[2] != ']' then ((p[0], p[2]), p[3..]) else ((p[0], p[0]), p[1..])
  }

  function PlainRanges(p: string, first: bool): (r: Parsed<seq<(char, char)>>)
    ensures r.Parsed? ==> |r.rest| < |p|
  {
    if p == "" then Malformed
    else if p[0] == ']' && !first then Parsed([], p[1..])
    else
      var (range, q) := PlainRange(p);
      match PlainRanges(q, false)
      case Malformed => Malformed
      case Parsed(ranges, rest) => Parsed([range] + ranges, rest)
  }

  function PlainDotAhead(p: string): bool
  {
    p != "" && p[0] != ']' && (p[0] == '.' || PlainDotAhead(p[1..]))
  }

  function PlainBracket(p: string): (r: Parsed<Bracket>)
    requires p != ""
    ensures r.Parsed? ==> |r.rest| < |p|
  {
    var q := Inside(p);
    match PlainRanges(q, true)
    case Malformed => Malformed
    case Parsed(ranges, rest) =>
      Parsed(Bracket(Negates(p[1..]), ranges, PlainDotAhead(if q != "" && q[0] == ']' then q[1..] else q)), rest)
  }

  /** The tokens FNM_NOESCAPE asks for. */
  function PlainTokens(p: string): seq<Token>
    decreases |p|
  {
    if p == "" then []
    else if p[0] == '*' then [Star] + PlainTokens(SkipStars(p[1..]))
    else if p[0] == '?' then [Any] + PlainTokens(p[1..])
    else if p[0] == '[' then
      match PlainBracket(p)
      case Malformed => [Lit('[')] + PlainTokens(p[1..])
      case Parsed(b, rest) => [Class(b)] + PlainTokens(rest)
    else [Lit(p[0])] + PlainTokens(p[1..])
  }

  ghost predicate PlainlyMatches(p: string, s: string, fl: Flags)
  {
    Lang(PlainTokens(p), s, fl, true)
  }

  // ---------- where a bracket ends ----------

  /** The index of the first ']', not counting the first byte if `first`. */
  function Close(p: string, first: bool): (n: nat)
    ensures n <= |p|
  {
    if p == "" || (p[0] == ']' && !first) then 0 else 1 + Close(p[1..], false)
  }

  lemma {:induction false} PlainCloses(p: string, first: bool)
    ensures PlainRanges(p, first).Parsed? <==> Close(p, first) < |p|
  {
    if p != "" && !(p[0] == ']' && !first) {
      PlainCloses(PlainRange(p).1, false);
      if |p| > 2 && p[1] == '-' && p[2] != ']' { CloseSkips(p, first); }
    }
  }

  lemma CloseSkips(p: string, first: bool)
    requires |p| > 2 && (first || p[0] != ']') && p[1] == '-' && p[2] != ']'
    ensures Close(p, first) == 3 + Close(p[3..], false)
  {
    assert Close(p[1..], false) == 1 + Close(p[2..], false);
    assert p[1..][1..] == p[2..] && p[2..][1..] == p[3..];
  }

  lemma {:induction false} NoClose(p: string, first: bool)
    ensures Close(p, first) == |p| <==> ']' !in if first && p != "" then p[1..] else p
  {
    if p != "" {
      NoClose(p[1..], false);
      assert p == [p[0]] + p[1..];
    }
  }

  /** Quoting only makes it harder to close a bracket that has no ']'. */
  lemma {:induction false} NeverCloses(p: string, first: bool)
    requires p == "" || ']' !in if first then p[1..] else p
    ensures Ranges(p, first).Malformed?
    decreases |p|
  {
    hide Range;
    if p != "" && !(p[0] == ']' && !first) {
      var q := Range(p).1;
      assert forall i :: 0 <= i < |q| ==> q[i] == p[|p| - |q| + i] && q[i] == p[1..][|p| - |q| + i - 1];
      NeverCloses(q, false);
    }
  }

  // ---------- one range at a time ----------

  predicate Open(p: string, first: bool) { p != "" && (first || p[0] != ']') }

  /** Behind its first byte, `q` goes on with a '-' and the end of a range. */
  predicate Dashed(q: string) { |q| > 1 && q[0] == '-' && q[1] != ']' }

  lemma QuotingStep(p: string, first: bool)
    requires Open(p, first)
    ensures Ranges(p, first) == Prefixed([Range(p).0], Ranges(Range(p).1, false))
  {
    hide Range;
  }

  lemma PlainStep(p: string, first: bool)
    requires Open(p, first)
    ensures PlainRanges(p, first) == Prefixed([PlainRange(p).0], PlainRanges(PlainRange(p).1, false))
  {
    hide PlainRange;
  }

  /** Nothing but the closing bracket is left. */
  lemma BothClose(p: string, first: bool)
    requires p == "" || !Open(p, first)
    ensures Ranges(p, first) == PlainRanges(p, first) == if p == "" then Malformed else Parsed([], p[1..])
  {
  }

  lemma SameRange(p: string)
    requires p != "" && p[0] != '\\' && (Dashed(p[1..]) ==> p[2] != '\\')
    ensures Range(p) == PlainRange(p)
    ensures Dashed(p[1..]) ==> PlainRange(p) == ((p[0], p[2]), p[3..])
    ensures !Dashed(p[1..]) ==> PlainRange(p) == ((p[0], p[0]), p[1..])
  {
    assert |p| > 2 ==> p[1..][1..] == p[2..] && p[2..][1..] == p[3..];
  }

  // ---------- no backslash, no difference ----------

  lemma {:induction false} PlainText(p: string, first: bool)
    requires '\\' !in p[..Close(p, first)] && Close(p, first) < |p|
    ensures Ranges(p, first) == PlainRanges(p, first)
    decreases |p|
  {
    hide Ranges, PlainRanges, Range, PlainRange;
    if !Open(p, first) {
      BothClose(p, first);
    } else {
      var body := p[..Close(p, first)];
      assert body[0] == p[0];
      QuotingStep(p, first);
      PlainStep(p, first);
      if Dashed(p[1..]) {
        CloseSkips(p, first);
        assert body[2] == p[2];
        assert body[3..] == p[3..][..Close(p[3..], false)];
        PlainText(p[3..], false);
      } else {
        assert body[1..] == p[1..][..Close(p[1..], false)];
        PlainText(p[1..], false);
      }
      SameRange(p);
    }
  }

  lemma {:induction false} PlainDots(p: string)
    requires '\\' !in p[..Close(p, false)]
    ensures DotAhead(p) == PlainDotAhead(p)
  {
    if p != "" && p[0] != ']' {
      assert p[..Close(p, false)][0] == p[0];
      assert p[..Close(p, false)][1..] == p[1..][..Close(p[1..], false)];
      PlainDots(p[1..]);
    }
  }

  // ---------- a backslash always makes a difference ----------

  const BACKSLASH: (char, char) := ('\\', '\\')

  function Copies(n: nat): (r: seq<(char, char)>)
    ensures |r| == n && forall i :: 0 <= i < n ==> r[i] == BACKSLASH
  {
    seq(n, _ => BACKSLASH)
  }

  /** Plain reading of a backslash that starts no range. */
  lemma PlainBackslash(x: string)
    requires !Dashed(x)
    ensures PlainRanges("\\" + x, false) == Prefixed([BACKSLASH], PlainRanges(x, false))
  {
    var p := "\\" + x;
    PlainStep(p, false);
    assert p[1..] == x;
  }

  /** Plain reading of a backslash that does. */
  lemma PlainBackslashRange(x: string)
    requires Dashed(x)
    ensures PlainRanges("\\" + x, false) == Prefixed([('\\', x[1])], PlainRanges(x[2..], false))
  {
    var p := "\\" + x;
    PlainStep(p, false);
    assert p[1] == x[0] && p[2] == x[1] && p[3..] == x[2..];
  }

  /** If fnmatch's first range is a lone backslash, it was written as two, or as a range from two to two. */
  lemma {:induction false} QuotedBackslash(x: string) returns (y: string, ranged: bool)
    requires x != "" && Range(x).0 == BACKSLASH && Range(x).1 != ""
    ensures y == Range(x).1
    ensures x == (if ranged then "\\" + ("\\" + ("-\\" + ("\\" + y))) else "\\" + ("\\" + y))
    ensures ranged || !Dashed(y)
  {
    var q := Member(x).1;
    assert x[0] == '\\' && |x| > 1 && x[1] == '\\' && q == x[2..];
    y, ranged := Range(x).1, Dashed(q);
    if ranged {
      assert q[1..][0] == q[1] && (|q| > 2 ==> q[1..][1] == q[2]) && (|q| > 2 ==> q[1..][2..] == q[3..]);
      assert q[1] == '\\' && q[2] == '\\' && y == q[3..];
      assert x[2] == '-' && x[3] == '\\' && x[4] == '\\' && y == x[5..];
    }
  }

  lemma CopiesMove(n: nat, k: nat, v: seq<(char, char)>, c: seq<(char, char)>)
    requires Copies(n + k) + v != c
    ensures Copies(n) + (Copies(k + 1) + v) != [BACKSLASH] + c
  {
    var l := Copies(n) + (Copies(k + 1) + v);
    assert l[1..] == Copies(n + k) + v;
    assert ([BACKSLASH] + c)[1..] == c;
  }

  /** Once the plain reading lags a backslash behind, the two never come together again. */
  lemma {:induction false} NeverTogether(n: nat, x: string)
    requires Ranges(x, false).Parsed? && PlainRanges("\\" + x, false).Parsed?
    ensures Copies(n) + PlainRanges("\\" + x, false).value != Ranges(x, false).value
    decreases |x|
  {
    hide Ranges, PlainRanges, Range, PlainRange, Copies;
    var l := Copies(n) + PlainRanges("\\" + x, false).value;
    if !Open(x, false) {
      BothClose(x, false);
      PlainBackslash(x);
    } else {
      QuotingStep(x, false);
      if Dashed(x) {
        PlainBackslashRange(x);
        DashIsNoBackslash(x);
        assert l[0].0 == '\\';
      } else {
        PlainBackslash(x);
        assert l[0] == BACKSLASH;
        if Range(x).0 == BACKSLASH { FallsBehind(n, x); }
      }
    }
  }

  lemma DashIsNoBackslash(x: string)
    requires Dashed(x)
    ensures Range(x).0.0 == '-'
  {
  }

  lemma {:induction false} FallsBehind(n: nat, x: string)
    requires Open(x, false) && !Dashed(x) && Range(x).0 == BACKSLASH
    requires Ranges(x, false).Parsed? && PlainRanges("\\" + x, false).Parsed?
    ensures Copies(n) + PlainRanges("\\" + x, false).value != Ranges(x, false).value
    decreases |x|, 0
  {
    hide Ranges, PlainRanges, Range, PlainRange, Copies;
    QuotingStep(x, false);
    BothClose("", false);
    var y, ranged := QuotedBackslash(x);
    var v, c := PlainRanges("\\" + y, false), Ranges(y, false).value;
    LagGrows(x, y, ranged);
    var k := if ranged then 2 else 1;
    NeverTogether(n + k, y);
    CopiesMove(n, k, v.value, c);
  }

  /** The plain reading of a lone backslash's spelling, behind one more: two or three of them, and still one owed. */
  lemma {:induction false} LagGrows(x: string, y: string, ranged: bool)
    requires x == if ranged then "\\" + ("\\" + ("-\\" + ("\\" + y))) else "\\" + ("\\" + y)
    ensures
      var k := if ranged then 3 else 2;
      PlainRanges("\\" + x, false) == Prefixed(Copies(k), PlainRanges("\\" + y, false))
  {
    hide PlainRanges, PlainRange, Copies, Prefixed;
    var v := PlainRanges("\\" + y, false);
    PlainBackslash(x);
    if ranged {
      var z := "-\\" + ("\\" + y);
      PlainBackslash("\\" + z);
      assert z[1] == '\\' && z[2..] == "\\" + y;
      PlainBackslashRange(z);
      PrefixedOnce(1, v);
      PrefixedOnce(2, v);
      PrefixedCopy(v);
    } else {
      PlainBackslash("\\" + y);
      PrefixedOnce(1, v);
      PrefixedCopy(v);
    }
  }

  lemma PrefixedOnce(n: nat, v: Parsed<seq<(char, char)>>)
    ensures Prefixed([BACKSLASH], Prefixed(Copies(n), v)) == Prefixed(Copies(n + 1), v)
  {
    assert [BACKSLASH] + Copies(n) == Copies(n + 1);
    if v.Parsed? { assert [BACKSLASH] + (Copies(n) + v.value) == Copies(n + 1) + v.value; }
  }

  lemma PrefixedCopy(v: Parsed<seq<(char, char)>>)
    ensures Prefixed([BACKSLASH], v) == Prefixed(Copies(1), v)
  {
    assert Copies(1) == [BACKSLASH];
  }

  lemma CopiesOf()
    ensures Copies(2) == [BACKSLASH, BACKSLASH] && Copies(3) == [BACKSLASH, BACKSLASH, BACKSLASH] && Copies(0) == []
  {
  }

  lemma ConsDiffer(a: (char, char), v: seq<(char, char)>, b: (char, char), c: seq<(char, char)>)
    requires a != b || v != c
    ensures [a] + v != [b] + c
  {
    assert ([a] + v)[0] == a && ([a] + v)[1..] == v && ([b] + c)[0] == b && ([b] + c)[1..] == c;
  }

  lemma BodyBegins(p: string, first: bool)
    requires Close(p, first) < |p| && '\\' in p[..Close(p, first)]
    ensures Open(p, first) && |p| > 1
    ensures p[0] != '\\' ==> Close(p[1..], false) < |p| - 1 && '\\' in p[1..][..Close(p[1..], false)]
  {
    assert p[..Close(p, first)] == [p[0]] + p[1..][..Close(p[1..], false)];
  }

  lemma BodyBehindRange(p: string, first: bool)
    requires Close(p, first) < |p| && '\\' in p[..Close(p, first)] && Open(p, first) && Dashed(p[1..]) && p[0] != '\\'
    ensures |p| > 3
    ensures p[2] != '\\' ==> Close(p[3..], false) < |p| - 3 && '\\' in p[3..][..Close(p[3..], false)]
  {
    CloseSkips(p, first);
    assert p[..Close(p, first)] == [p[0], p[1], p[2]] + p[3..][..Close(p[3..], false)];
  }

  /** A backslash in front of the ']' that closes the plain reading: fnmatch reads other ranges, or finds no end. */
  lemma {:induction false} BackslashTells(p: string, first: bool)
    requires Close(p, first) < |p| && '\\' in p[..Close(p, first)] && Ranges(p, first).Parsed?
    ensures PlainRanges(p, first).Parsed? && PlainRanges(p, first).value != Ranges(p, first).value
    decreases |p|
  {
    hide Ranges, PlainRanges, Range, PlainRange, Close;
    PlainCloses(p, first);
    BodyBegins(p, first);
    QuotingStep(p, first);
    PlainStep(p, first);
    if p[0] == '\\' {
      BackslashFirst(p, first);
    } else if Dashed(p[1..]) {
      BodyBehindRange(p, first);
      if p[2] == '\\' {
        BackslashEndsRange(p, first);
      } else {
        SameRange(p);
        BackslashTells(p[3..], false);
        ConsDiffer(Range(p).0, PlainRanges(p[3..], false).value, Range(p).0, Ranges(p[3..], false).value);
      }
    } else {
      SameRange(p);
      BackslashTells(p[1..], false);
      ConsDiffer(Range(p).0, PlainRanges(p[1..], false).value, Range(p).0, Ranges(p[1..], false).value);
    }
  }

  lemma {:induction false} BackslashFirst(p: string, first: bool)
    requires |p| > 1 && p[0] == '\\' && Ranges(p, first).Parsed? && PlainRanges(p, first).Parsed?
    ensures PlainRanges(p, first).value != Ranges(p, first).value
  {
    hide Ranges, PlainRanges;
    QuotingStep(p, first);
    PlainStep(p, first);
    assert PlainRange(p).0.0 == '\\';
    if Range(p).0 == BACKSLASH {
      TwoBackslashes(p, first);
    } else {
      assert PlainRange(p).0 != Range(p).0;
      ConsDiffer(PlainRange(p).0, PlainRanges(PlainRange(p).1, false).value, Range(p).0,
                 Ranges(Range(p).1, false).value);
    }
  }

  lemma {:induction false} TwoBackslashes(p: string, first: bool)
    requires |p| > 1 && p[0] == '\\' && Range(p).0 == BACKSLASH
    requires Ranges(p, first).Parsed? && PlainRanges(p, first).Parsed?
    ensures PlainRanges(p, first).value != Ranges(p, first).value
  {
    hide Ranges, PlainRanges, Range, PlainRange, Copies;
    QuotingStep(p, first);
    PlainStep(p, first);
    BothClose("", false);
    var y, ranged := QuotedBackslash(p);
    var v, c, k := PlainRanges("\\" + y, false), Ranges(y, false).value, if ranged then 1 else 0;
    PlainTwo(p, y, ranged);
    NeverTogether(k, y);
    ConsDiffer(BACKSLASH, Copies(k) + v.value, BACKSLASH, c);
  }

  lemma {:induction false} PlainTwo(p: string, y: string, ranged: bool)
    requires p == if ranged then "\\" + ("\\" + ("-\\" + ("\\" + y))) else "\\" + ("\\" + y)
    ensures PlainRange(p) == (BACKSLASH, p[1..])
    ensures PlainRanges(p[1..], false) == Prefixed(Copies(if ranged then 1 else 0), PlainRanges("\\" + y, false))
  {
    hide PlainRanges, Copies, Prefixed;
    var v := PlainRanges("\\" + y, false);
    if ranged {
      var z := "-\\" + ("\\" + y);
      assert p[1..] == "\\" + z && z[1] == '\\' && z[2..] == "\\" + y;
      PlainBackslashRange(z);
      PrefixedCopy(v);
    } else {
      assert p[1..] == "\\" + y;
      PrefixedNone(v);
    }
  }

  lemma PrefixedNone(v: Parsed<seq<(char, char)>>)
    ensures Prefixed(Copies(0), v) == v
  {
    if v.Parsed? { assert Copies(0) + v.value == v.value; }
  }

  lemma {:induction false} BackslashEndsRange(p: string, first: bool)
    requires |p| > 3 && Open(p, first) && p[0] != '\\' && p[1] == '-' && p[2] == '\\'
    requires Ranges(p, first).Parsed? && PlainRanges(p, first).Parsed?
    ensures PlainRanges(p, first).value != Ranges(p, first).value
  {
    hide Ranges, PlainRanges, Copies;
    QuotingStep(p, first);
    PlainStep(p, first);
    assert p[1..][1..] == p[2..] && p[2..][2..] == p[4..];
    var range := (p[0], '\\');
    assert PlainRange(p) == (range, p[3..]) && Range(p) == ((p[0], p[3]), p[4..]);
    var v, c := PlainRanges(p[3..], false).value, Ranges(p[4..], false).value;
    if p[3] == '\\' {
      assert p[3..] == "\\" + p[4..];
      NeverTogether(0, p[4..]);
      CopiesOf();
      assert Copies(0) + v == v;
    }
    ConsDiffer(range, v, Range(p).0, c);
  }

  // ---------- whole patterns ----------

  /** No backslash in front of the first ']' behind the bracket's first byte, or no such ']' at all. */
  predicate Settled(p: string)
    requires p != ""
  {
    var q := Inside(p);
    Close(q, true) == |q| || '\\' !in q[..Close(q, true)]
  }

  /** The two readings of one bracket agree exactly if it is settled. */
  lemma {:induction false} BracketExactly(p: string)
    requires p != "" && p[0] == '['
    ensures Settled(p) ==> ParseBracket(p) == PlainBracket(p)
    ensures !Settled(p) ==>
              PlainBracket(p).Parsed? && (ParseBracket(p).Parsed? ==> ParseBracket(p).value != PlainBracket(p).value)
  {
    hide Ranges, PlainRanges, DotAhead, PlainDotAhead, Close;
    var q := Inside(p);
    PlainCloses(q, true);
    NoClose(q, true);
    if Close(q, true) == |q| {
      NeverCloses(q, true);
    } else if Settled(p) {
      PlainText(q, true);
      DotsAgree(q);
    } else if ParseBracket(p).Parsed? {
      BackslashTells(q, true);
    }
  }

  lemma {:induction false} DotsAgree(q: string)
    requires q != "" && '\\' !in q[..Close(q, true)]
    ensures
      var r := if q[0] == ']' then q[1..] else q;
      DotAhead(r) == PlainDotAhead(r)
  {
    hide DotAhead, PlainDotAhead;
    var r := if q[0] == ']' then q[1..] else q;
    assert q[..Close(q, true)] == (if q[0] == ']' then [q[0]] else "") + r[..Close(r, false)];
    PlainDots(r);
  }

  /** Every bracket of the pattern is settled. */
  predicate AllSettled(p: string)
    decreases |p|
  {
    if p == "" then true
    else if p[0] == '*' then AllSettled(SkipStars(p[1..]))
    else if p[0] == '[' then
      Settled(p) && AllSettled(if PlainBracket(p).Parsed? then PlainBracket(p).rest else p[1..])
    else AllSettled(p[1..])
  }

  /** Under FNM_NOESCAPE the pattern is read as it should be if and only if all its brackets are settled. */
  lemma {:induction false} NoescapeExactly(p: string)
    ensures Tokenise(p, true) == PlainTokens(p) <==> AllSettled(p)
    decreases |p|
  {
    hide ParseBracket, PlainBracket, Settled;
    if p != "" {
      if p[0] == '*' {
        NoescapeExactly(SkipStars(p[1..]));
        SameTail(Star, Tokenise(SkipStars(p[1..]), true), PlainTokens(SkipStars(p[1..])));
      } else if p[0] == '[' {
        BracketExactly(p);
        if Settled(p) {
          var b := PlainBracket(p);
          var t, rest := if b.Parsed? then Class(b.value) else Lit('['), if b.Parsed? then b.rest else p[1..];
          NoescapeExactly(rest);
          SameTail(t, Tokenise(rest, true), PlainTokens(rest));
        } else {
          assert Tokenise(p, true)[0] != PlainTokens(p)[0];
        }
      } else {
        NoescapeExactly(p[1..]);
        SameTail(if p[0] == '?' then Any else Lit(p[0]), Tokenise(p[1..], true), PlainTokens(p[1..]));
      }
    }
  }

  lemma SameTail(t: Token, a: seq<Token>, b: seq<Token>)
    ensures [t] + a == [t] + b <==> a == b
  {
    assert ([t] + a)[1..] == a && ([t] + b)[1..] == b;
  }

  // ---------- what the classes mean ----------

  /** The same bytes, and the same answer to whether a '.' is written out. */
  ghost predicate SameClass(b: Bracket, c: Bracket)
  {
    b.listsDot == c.listsDot && forall x: char :: 0 < x as int < 256 ==> (InBracket(b, x) <==> InBracket(c, x))
  }

  /** The two readings of the bracket end in the same place and hold the same bytes, or neither ends. */
  ghost predicate Agrees(p: string)
    requires p != "" && p[0] == '['
  {
    match (ParseBracket(p), PlainBracket(p))
    case (Malformed, Malformed) => true
    case (Parsed(b, r), Parsed(c, r')) => r == r' && SameClass(b, c)
    case _ => false
  }

  ghost predicate AllAgree(p: string)
    decreases |p|
  {
    if p == "" then true
    else if p[0] == '*' then AllAgree(SkipStars(p[1..]))
    else if p[0] == '[' then
      Agrees(p) && AllAgree(if PlainBracket(p).Parsed? then PlainBracket(p).rest else p[1..])
    else AllAgree(p[1..])
  }

  lemma {:induction false} SettledAgrees(p: string)
    requires AllSettled(p)
    ensures AllAgree(p)
    decreases |p|
  {
    hide ParseBracket, PlainBracket, Settled;
    if p != "" {
      if p[0] == '*' {
        SettledAgrees(SkipStars(p[1..]));
      } else if p[0] == '[' {
        BracketExactly(p);
        SettledAgrees(if PlainBracket(p).Parsed? then PlainBracket(p).rest else p[1..]);
      } else {
        SettledAgrees(p[1..]);
      }
    }
  }

  /** One token in front of two tails that match the same strings. */
  lemma {:induction false} SameLang(t: Token, u: Token, ts: seq<Token>, us: seq<Token>, s: string, fl: Flags,
                                    start: bool)
    requires IsCString(s) && (t == u || (t.Class? && u.Class? && SameClass(t.b, u.b)))
    requires forall k, st :: 0 <= k <= |s| ==> (Lang(ts, s[k..], fl, st) <==> Lang(us, s[k..], fl, st))
    ensures Lang([t] + ts, s, fl, start) <==> Lang([u] + us, s, fl, start)
  {
    hide InBracket, Lang;
    if t.Star? {
      LangStar(ts, s, fl, start);
      LangStar(us, s, fl, start);
      assert forall k :: StarEnds(ts, s, fl, k) <==> StarEnds(us, s, fl, k);
    } else {
      LangSingle(t, ts, s, fl, start);
      LangSingle(u, us, s, fl, start);
    }
  }

  /** A pattern whose brackets agree matches under FNM_NOESCAPE exactly the strings it should. */
  lemma {:induction false} AgreeingLang(p: string, s: string, fl: Flags, start: bool)
    requires fl.noescape && AllAgree(p) && IsCString(s)
    ensures Lang(Tokenise(p, true), s, fl, start) <==> Lang(PlainTokens(p), s, fl, start)
    decreases |p|
  {
    hide ParseBracket, PlainBracket, Lang, SameClass;
    if p != "" {
      var b := if p[0] == '[' then ParseBracket(p) else Malformed;
      var c := if p[0] == '[' then PlainBracket(p) else Malformed;
      var rest := if p[0] == '*' then SkipStars(p[1..]) else if c.Parsed? then c.rest else p[1..];
      var t :=
        if p[0] == '*' then Star
        else if p[0] == '?' then Any
        else if b.Parsed? then Class(b.value)
        else Lit(p[0]);
      var u := if c.Parsed? then Class(c.value) else t;
      assert Tokenise(p, true) == [t] + Tokenise(rest, true) && PlainTokens(p) == [u] + PlainTokens(rest);
      forall k, st | 0 <= k <= |s|
        ensures Lang(Tokenise(rest, true), s[k..], fl, st) <==> Lang(PlainTokens(rest), s[k..], fl, st)
      {
        AgreeingLang(rest, s[k..], fl, st);
      }
      SameLang(t, u, Tokenise(rest, true), PlainTokens(rest), s, fl, start);
    }
  }

  lemma {:induction false} AgreeingMatches(p: string, s: string, fl: Flags)
    requires fl.noescape && AllAgree(p) && IsCString(s)
    ensures Matches(p, s, fl) <==> PlainlyMatches(p, s, fl)
  {
    hide Lang, Tokenise, PlainTokens, AllAgree;
    AgreeingLang(p, s, fl, true);
  }

  /** So does a settled pattern. */
  lemma {:induction false} SettledMatches(p: string, s: string, fl: Flags)
    requires fl.noescape && AllSettled(p)
    ensures Matches(p, s, fl) <==> PlainlyMatches(p, s, fl)
  {
    NoescapeExactly(p);
  }

  // ---------- two patterns ----------

  /** The bracket [\] should hold a backslash; fnmatch takes its ']' for quoted and finds no end. */
  lemma {:induction false} QuotedClose(fl: Flags)
    requires fl.noescape
    ensures !Matches("[\\]", "\\", fl) && PlainlyMatches("[\\]", "\\", fl)
  {
    hide Lang, Tokenise, InBracket;
    var p, q, s := "[\\]", "\\]", "\\";
    assert p[1..] == q && q[1..] == "]" && "]"[1..] == "" && q[2..] == "" && !Negates(q) && s[1..] == "" && s[..1] == s;
    assert Range(q) == ((']', ']'), "");
    assert Ranges(q, true).Malformed?;
    LangBracket(p, s, fl, true);
    assert PlainRange(q) == (BACKSLASH, "]");
    var b := PlainBracket(p);
    assert PlainRanges("]", false) == Parsed([], "");
    assert b.Parsed? && b.rest == "" && !b.value.negated && b.value.ranges == [BACKSLASH];
    InOne(b.value, '\\');
    assert PlainTokens(p) == [Class(b.value)] + [];
    LangEnd("", fl, false);
    LangSingle(Class(b.value), [], s, fl, true);
  }

  lemma InOne(b: Bracket, c: char)
    requires !b.negated && b.ranges == [(c, c)]
    ensures InBracket(b, c)
  {
    assert b.ranges[0].0 <= c <= b.ranges[0].1;
  }

  /** A doubled backslash is read as one member or as two: other tokens, the same class. */
  lemma {:induction false} DoubledBackslash()
    ensures !AllSettled("[\\\\]") && AllAgree("[\\\\]")
  {
    hide InBracket, ParseBracket, PlainBracket, Settled;
    var p := "[\\\\]";
    QuotingDoubled(p);
    PlainDoubled(p);
    forall x: char ensures InBracket(ParseBracket(p).value, x) <==> InBracket(PlainBracket(p).value, x) {
      SameMembers(ParseBracket(p).value, PlainBracket(p).value, x);
    }
    assert AllAgree("");
  }

  lemma QuotingDoubled(p: string)
    requires p == "[\\\\]"
    ensures ParseBracket(p) == Parsed(Bracket(false, [BACKSLASH], false), "")
  {
    hide Ranges;
    var q := "\\\\]";
    assert p[1..] == q && q[2..] == "]" && "]"[1..] == "" && !Negates(q);
    assert Range(q) == (BACKSLASH, "]");
    QuotingStep(q, true);
    BothClose("]", false);
    assert !DotAhead("]");
    assert !DotAhead(q);
    assert [BACKSLASH] + [] == [BACKSLASH];
  }

  lemma PlainDoubled(p: string)
    requires p == "[\\\\]"
    ensures PlainBracket(p) == Parsed(Bracket(false, [BACKSLASH, BACKSLASH], false), "") && !Settled(p)
  {
    hide PlainRanges, PlainDotAhead, Close;
    var q, r, e := "\\\\]", "\\]", "]";
    assert p[1..] == q && q[1..] == r && r[1..] == e && e[1..] == "" && !Negates(q);
    PlainStep(q, true);
    PlainStep(r, false);
    BothClose(e, false);
    PlainDotStep(q);
    PlainDotStep(r);
    PlainDotStep(e);
    CloseStep(q, true);
    CloseStep(r, false);
    CloseStep(e, false);
    assert q[..2][0] == '\\';
    assert [BACKSLASH] + ([BACKSLASH] + []) == [BACKSLASH, BACKSLASH];
  }

  lemma PlainDotStep(p: string)
    ensures PlainDotAhead(p) == (p != "" && p[0] != ']' && (p[0] == '.' || PlainDotAhead(p[1..])))
  {
  }

  lemma CloseStep(p: string, first: bool)
    ensures Close(p, first) == if p == "" || (p[0] == ']' && !first) then 0 else 1 + Close(p[1..], false)
  {
  }

  lemma SameMembers(b: Bracket, c: Bracket, x: char)
    requires b == Bracket(false, [BACKSLASH], false) && c == b.(ranges := [BACKSLASH, BACKSLASH])
    ensures InBracket(b, x) <==> InBracket(c, x)
  {
    assert b.ranges[0] == BACKSLASH && c.ranges[0] == BACKSLASH && c.ranges[1] == BACKSLASH;
  }
}
