/** For which patterns fnmatch follows the leading-period rule, exactly. */
module PeriodExact {
  import opened CStrings
  import opened FnMatch
  import opened PeriodRule
  import opened PeriodStars

  // ---------- segments ----------

  lemma SlashIsNoDot(t: Token, fl: Flags)
    requires IsSlash(t)
    ensures !t.Star? && !Touchy(t) && !Takes(t, '.', fl)
  {
  }

  /** Tokens that slide all take a period. */
  lemma {:induction false} SlidersTakeDot(ts: seq<Token>, fl: Flags, k: nat)
    requires Slides(ts, fl) && k < |ts|
    ensures Takes(ts[k], '.', fl)
  {
    hide Takes;
    if k > 0 {
      SlidersTakeDot(ts, fl, k - 1);
      assert Within(ts[k - 1], ts[k], fl);
    }
  }

  /** An excuse does not reach beyond a slash. */
  lemma {:induction false} ExcusedInFront(a: seq<Token>, t: Token, b: seq<Token>, fl: Flags, i: nat)
    requires fl.pathname && NoSlash(a, fl) && IsSlash(t) && Touches(a, i)
    ensures Excused(a + [t] + b, fl, i) <==> Excused(a, fl, i)
  {
    hide Touchy, SlidesUpTo;
    var ts := a + [t] + b;
    assert i > 0 ==> ts[i - 1] == a[i - 1];
    forall j: nat ensures SlidesUpTo(ts, fl, i, j) <==> SlidesUpTo(a, fl, i, j) { SlidesInFront(a, t, b, fl, i, j); }
  }

  lemma {:induction false} SlidesInFront(a: seq<Token>, t: Token, b: seq<Token>, fl: Flags, i: nat, j: nat)
    requires IsSlash(t) && i + 1 < |a|
    ensures SlidesUpTo(a + [t] + b, fl, i, j) <==> SlidesUpTo(a, fl, i, j)
  {
    hide Takes, Slides, TakesAll;
    var ts := a + [t] + b;
    assert ts[i + 1] == a[i + 1];
    SlashIsNoDot(t, fl);
    if i + 2 <= j < |a| {
      assert ts[i + 2..j] == a[i + 2..j] && ts[j] == a[j];
    } else if |a| < j < |ts| && SlidesUpTo(ts, fl, i, j) {
      var c := ts[i + 2..j];
      assert c[|a| - i - 2] == ts[|a|] == t;
      SlidersTakeDot(c, fl, |a| - i - 2);
    }
  }

  lemma {:induction false} SlidesBehind(a: seq<Token>, t: Token, b: seq<Token>, fl: Flags, i: nat, j: nat)
    ensures SlidesUpTo(a + [t] + b, fl, |a| + 1 + i, |a| + 1 + j) <==> SlidesUpTo(b, fl, i, j)
  {
    hide Takes, Slides, TakesAll;
    var ts, n := a + [t] + b, |a| + 1;
    if i + 2 <= j < |b| {
      assert ts[n + i + 2..n + j] == b[i + 2..j];
      assert ts[n + i + 1] == b[i + 1] && ts[n + j] == b[j];
    }
  }

  lemma {:induction false} ExcusedBehind(a: seq<Token>, t: Token, b: seq<Token>, fl: Flags, i: nat)
    requires fl.pathname && IsSlash(t) && Touches(b, i)
    ensures Touches(a + [t] + b, |a| + 1 + i)
    ensures Excused(a + [t] + b, fl, |a| + 1 + i) <==> Excused(b, fl, i)
  {
    hide Touchy, SlidesUpTo;
    var ts, n := a + [t] + b, |a| + 1;
    assert ts[n + i] == b[i] && ts[n + i + 1] == b[i + 1];
    assert ts[n + i - 1] == if i == 0 then t else b[i - 1];
    if Excused(ts, fl, n + i) {
      var j: nat :| SlidesUpTo(ts, fl, n + i, j);
      SlidesFar(ts, fl, n + i, j);
      SlidesBehind(a, t, b, fl, i, j - n);
    }
    if Excused(b, fl, i) {
      var j: nat :| SlidesUpTo(b, fl, i, j);
      SlidesBehind(a, t, b, fl, i, j);
    }
  }

  lemma SlidesFar(ts: seq<Token>, fl: Flags, i: nat, j: nat)
    requires SlidesUpTo(ts, fl, i, j)
    ensures i + 2 <= j
  {
  }

  lemma {:induction false} TouchesWhere(a: seq<Token>, t: Token, b: seq<Token>, i: nat)
    requires IsSlash(t)
    ensures Touches(a, i) ==> Touches(a + [t] + b, i)
    ensures Touches(a + [t] + b, i) ==> Touches(a, i) || (i > |a| && Touches(b, i - |a| - 1))
  {
    hide Touchy;
    var ts := a + [t] + b;
    SlashIsNoDot(t, Flags(false, false, false));
    if i + 1 < |a| { assert ts[i] == a[i] && ts[i + 1] == a[i + 1]; }
    if i > |a| && i + 1 < |ts| { assert ts[i] == b[i - |a| - 1] && ts[i + 1] == b[i - |a|]; }
  }

  /** The condition holds of a pattern if and only if it holds of its segments. */
  lemma {:induction false} SafeSegments(a: seq<Token>, t: Token, b: seq<Token>, fl: Flags)
    requires fl.pathname && NoSlash(a, fl) && IsSlash(t)
    ensures StarsSafe(a + [t] + b, fl) <==> StarsSafe(a, fl) && StarsSafe(b, fl)
  {
    hide Touches, Excused, NoSlash;
    var ts := a + [t] + b;
    forall i: nat | Touches(ts, i) && StarsSafe(a, fl) && StarsSafe(b, fl) ensures Excused(ts, fl, i) {
      TouchesWhere(a, t, b, i);
      if Touches(a, i) { ExcusedInFront(a, t, b, fl, i); } else { ExcusedBehind(a, t, b, fl, i - |a| - 1); }
    }
    if StarsSafe(ts, fl) {
      forall i: nat | Touches(a, i) ensures Excused(a, fl, i) {
        TouchesWhere(a, t, b, i);
        ExcusedInFront(a, t, b, fl, i);
      }
      forall i: nat | Touches(b, i) ensures Excused(b, fl, i) { ExcusedBehind(a, t, b, fl, i); }
    }
  }

  lemma NoDoubleParts(a: seq<Token>, t: Token, b: seq<Token>)
    requires NoDoubleStar(a + [t] + b)
    ensures NoDoubleStar(a) && NoDoubleStar(b)
  {
    var ts := a + [t] + b;
    assert forall i :: 0 <= i < |a| ==> a[i] == ts[i];
    assert forall i :: 0 <= i < |b| ==> b[i] == ts[|a| + 1 + i];
  }

  /** What should match matches, if the condition holds. */
  lemma {:induction false} Kept(ts: seq<Token>, s: string, fl: Flags, start: bool)
    requires fl.period && NoDoubleStar(ts) && StarsSafe(ts, fl) && Read(ts, s, fl, true, AsMeant) && IsCString(s)
    ensures Read(ts, s, fl, start, AsCoded)
    decreases |ts|
  {
    hide Read, StarsSafe, NoDoubleStar, IsCString;
    if NoSlash(ts, fl) {
      SegmentKept(ts, s, fl, start);
    } else {
      var n := FirstSlash(ts, fl);
      var a, t, b := ts[..n], ts[n], ts[n + 1..];
      SafeSegments(a, t, b, fl);
      NoDoubleParts(a, t, b);
      var x, y := SegmentCut(a, t, b, s, fl, true, AsMeant);
      CStringSegments(x, y);
      SegmentKept(a, x, fl, start);
      Kept(b, y, fl, Anew(t, fl, AsCoded));
      SegmentGlue(a, t, b, x, y, fl, start, AsCoded);
    }
  }

  /** If it does not hold, and anything should match, something that should match is refused. */
  lemma {:induction false} Betrayed(ts: seq<Token>, s: string, fl: Flags) returns (r: string)
    requires fl.period && NoDoubleStar(ts) && !StarsSafe(ts, fl) && Read(ts, s, fl, true, AsMeant) && IsCString(s)
    ensures Betrays(ts, r, fl)
    decreases |ts|
  {
    hide Read, StarsSafe, NoDoubleStar, IsCString;
    if NoSlash(ts, fl) {
      r := SegmentBetrayed(ts, s, fl);
    } else {
      var n := FirstSlash(ts, fl);
      var a, t, b := ts[..n], ts[n], ts[n + 1..];
      SafeSegments(a, t, b, fl);
      NoDoubleParts(a, t, b);
      var x, y := SegmentCut(a, t, b, s, fl, true, AsMeant);
      CStringSegments(x, y);
      if !StarsSafe(a, fl) {
        x := SegmentBetrayed(a, x, fl);
        SegmentText(a, x, fl, true, AsMeant);
      } else {
        y := Betrayed(b, y, fl);
      }
      r := x + "/" + y;
      CStringSegments(x, y);
      SegmentGlue(a, t, b, x, y, fl, true, AsMeant);
      forall start ensures !Read(ts, r, fl, start, AsCoded) {
        if Read(ts, r, fl, start, AsCoded) { SegmentsOf(a, t, b, x, y, fl, start, AsCoded); }
      }
    }
  }

  // ---------- patterns ----------

  lemma {:induction false} NoDoubleStarTokens(p: string, noescape: bool)
    ensures NoDoubleStar(Tokenise(p, noescape))
    decreases |p|
  {
    hide ParseBracket;
    if p != "" {
      var ts := Tokenise(p, noescape);
      var rest :=
        if p[0] == '\\' && !noescape && |p| > 1 then p[2..]
        else if p[0] == '*' then SkipStars(p[1..])
        else if p[0] == '[' && ParseBracket(p).Parsed? then ParseBracket(p).rest
        else p[1..];
      assert ts[1..] == Tokenise(rest, noescape);
      NoDoubleStarTokens(rest, noescape);
      if p[0] == '*' && rest != "" { FirstToken(rest, noescape); }
      forall i, j | 0 <= i < j < |ts| && j == i + 1 && ts[i].Star? ensures !ts[j].Star? {
        if i > 0 { assert ts[i] == ts[1..][i - 1] && ts[j] == ts[1..][j - 1]; }
      }
    }
  }

  lemma FirstToken(p: string, noescape: bool)
    requires p != "" && p[0] != '*'
    ensures Tokenise(p, noescape) != [] && !Tokenise(p, noescape)[0].Star?
  {
    hide ParseBracket;
  }

  /** Without FNM_PERIOD there is nothing to mind. */
  lemma {:induction false} NothingMinded(ts: seq<Token>, s: string, fl: Flags, start: bool, start': bool)
    requires !fl.period
    ensures Read(ts, s, fl, start, AsMeant) <==> Read(ts, s, fl, start', AsCoded)
    decreases |ts|
  {
    hide Accepts;
    if ts != [] {
      forall k | 0 <= k <= |s|
        ensures Read(ts[1..], s[k..], fl, Anew(ts[0], fl, AsMeant), AsMeant) <==>
                Read(ts[1..], s[k..], fl, Anew(ts[0], fl, AsCoded), AsCoded)
      {
        NothingMinded(ts[1..], s[k..], fl, Anew(ts[0], fl, AsMeant), Anew(ts[0], fl, AsCoded));
      }
    }
  }

  /** Every '*' of the pattern is safe, or FNM_PERIOD is not set. */
  ghost predicate NeverTooStrict(p: string, fl: Flags)
  {
    !fl.period || StarsSafe(Tokenise(p, fl.noescape), fl)
  }

  /** So is every escaped '/'. */
  ghost predicate NeverTooLenient(p: string, fl: Flags)
  {
    !fl.period || SlashesSafe(Tokenise(p, fl.noescape), fl)
  }

  /** String by string, one direction per condition. */
  lemma {:induction false} RuleKept(p: string, s: string, fl: Flags)
    ensures NeverTooStrict(p, fl) && IsCString(s) && Meant(p, s, fl) ==> Matches(p, s, fl)
    ensures NeverTooLenient(p, fl) && Matches(p, s, fl) ==> Meant(p, s, fl)
  {
    hide Read, Lang, Tokenise, StarsSafe, SlashesSafe;
    var ts := Tokenise(p, fl.noescape);
    CodedIsLang(ts, s, fl, true);
    NoDoubleStarTokens(p, fl.noescape);
    if !fl.period {
      NothingMinded(ts, s, fl, true, true);
    } else {
      if StarsSafe(ts, fl) && IsCString(s) && Meant(p, s, fl) { Kept(ts, s, fl, true); }
      if SlashesSafe(ts, fl) && Matches(p, s, fl) { CodedIsMeant(ts, s, fl, true, true); }
    }
  }

  /** For all patterns and flags: all that should match matches, exactly if the condition holds or nothing should. */
  lemma {:induction false} StrictExactly(p: string, fl: Flags)
    ensures (forall s :: IsCString(s) && Meant(p, s, fl) ==> Matches(p, s, fl)) <==>
            NeverTooStrict(p, fl) || (forall s :: IsCString(s) ==> !Meant(p, s, fl))
  {
    hide Read, Lang, Tokenise, StarsSafe, IsCString;
    var ts := Tokenise(p, fl.noescape);
    if NeverTooStrict(p, fl) {
      forall s | IsCString(s) && Meant(p, s, fl) ensures Matches(p, s, fl) { RuleKept(p, s, fl); }
    } else if s :| IsCString(s) && Meant(p, s, fl) {
      NoDoubleStarTokens(p, fl.noescape);
      var r := Betrayed(ts, s, fl);
      CodedIsLang(ts, r, fl, true);
      assert IsCString(r) && Meant(p, r, fl) && !Matches(p, r, fl);
    }
  }

  /** Likewise for what should be refused. */
  lemma {:induction false} LenientExactly(p: string, fl: Flags)
    ensures (forall s :: IsCString(s) && Matches(p, s, fl) ==> Meant(p, s, fl)) <==>
            NeverTooLenient(p, fl) || (forall s :: IsCString(s) ==> !Matches(p, s, fl))
  {
    hide Read, Lang, Tokenise, SlashesSafe, IsCString;
    var ts := Tokenise(p, fl.noescape);
    if NeverTooLenient(p, fl) {
      forall s | IsCString(s) && Matches(p, s, fl) ensures Meant(p, s, fl) { RuleKept(p, s, fl); }
    } else if s :| IsCString(s) && Matches(p, s, fl) {
      CodedIsLang(ts, s, fl, true);
      var r := EscapedSlashBetrays(ts, s, fl, true);
      CodedIsLang(ts, r, fl, true);
      assert IsCString(r) && Matches(p, r, fl) && !Meant(p, r, fl);
    }
  }

  /** Agreement on every string, exactly. */
  lemma {:induction false} RuleExactly(p: string, fl: Flags)
    ensures (forall s :: IsCString(s) ==> (Matches(p, s, fl) <==> Meant(p, s, fl))) <==>
            || (NeverTooStrict(p, fl) && NeverTooLenient(p, fl))
            || (forall s :: IsCString(s) ==> !Matches(p, s, fl) && !Meant(p, s, fl))
  {
    hide Matches, Meant, NeverTooStrict, NeverTooLenient, IsCString;
    StrictExactly(p, fl);
    LenientExactly(p, fl);
  }

  // ---------- three patterns ----------

  lemma AnyTokens(p: string, noescape: bool)
    requires p != "" && p[0] == '?'
    ensures Tokenise(p, noescape) == [Any] + Tokenise(p[1..], noescape)
  {
  }

  lemma OneStarToken(p: string, noescape: bool)
    requires p != "" && p[0] == '*' && (|p| == 1 || p[1] != '*')
    ensures Tokenise(p, noescape) == [Star] + Tokenise(p[1..], noescape)
  {
    hide ParseBracket;
    assert SkipStars(p[1..]) == p[1..];
  }

  lemma {:induction false} LangOneAny(s: string, fl: Flags)
    requires !fl.pathname
    ensures Lang([Any], s, fl, true) <==> |s| == 1 && !(fl.period && s[0] == '.')
  {
    hide Lang;
    LangSingle(Any, [], s, fl, true);
    assert [Any] + [] == [Any];
    if s != "" { LangEnd(s[1..], fl, false); }
  }

  lemma StarAnyTokens()
    ensures Tokenise("*?", false) == [Star] + [Any]
  {
    hide Tokenise;
    var p, q := "*?", "?";
    assert p[1..] == q && q[1..] == "";
    OneStarToken(p, false);
    AnyTokens(q, false);
    NoTokens(false);
  }

  /** Too strict: "*?" should match all non-empty names without a leading period, but refuses a last one too. */
  lemma {:induction false} PeriodRestartsAfterStar(s: string)
    ensures Matches("*?", s, Flags(false, false, true)) <==> s != "" && s[0] != '.' && s[|s| - 1] != '.'
  {
    hide Lang, Tokenise;
    var fl := Flags(false, false, true);
    StarAnyTokens();
    LangStar([Any], s, fl, true);
    forall k | 0 <= k <= |s| ensures StarEnds([Any], s, fl, k) <==> k == |s| - 1 && s[k] != '.' {
      LangOneAny(s[k..], fl);
    }
  }

  lemma StarAnyStarTokens()
    ensures Tokenise("*?*", false) == [Star] + ([Any] + [Star])
  {
    hide Tokenise;
    var p, q, r := "*?*", "?*", "*";
    assert p[1..] == q && q[1..] == r && r[1..] == "";
    OneStarToken(p, false);
    AnyTokens(q, false);
    OneStarToken(r, false);
    NoTokens(false);
  }

  /** In "*?*" the first '*' stands in front of '?' as well, but it is excused: the second '*' can take the periods. */
  lemma {:induction false} LaterStarHelps(fl: Flags)
    requires !fl.noescape
    ensures Touches(Tokenise("*?*", false), 0) && NeverTooStrict("*?*", fl)
  {
    hide Tokenise;
    StarAnyStarTokens();
    var ts := [Star] + ([Any] + [Star]);
    assert ts[2..2] == [] && ts[0].Star? && ts[1] == Any && ts[2].Star?;
    assert SlidesUpTo(ts, fl, 0, 2);
  }

  lemma EscapedSlashTokens()
    ensures Tokenise("\\/?", false) == [Escaped('/')] + ([Any] + [])
  {
    var p := "\\/?";
    assert p[0] == '\\' && p[1] == '/' && p[2..] == "?" && "?"[1..] == "";
    assert Tokenise(p, false) == [Escaped('/')] + Tokenise("?", false);
    AnyTokens("?", false);
    NoTokens(false);
  }

  /** Too lenient: with FNM_PATHNAME and FNM_PERIOD an escaped '/' in front of '?' lets a leading period through. */
  lemma {:induction false} EscapedSlashOverlooked()
    ensures Matches("\\/?", "/.", Flags(true, false, true)) && !Meant("\\/?", "/.", Flags(true, false, true))
  {
    hide Lang, Read, Tokenise;
    var fl, s, ts := Flags(true, false, true), "/.", [Escaped('/')] + ([Any] + []);
    EscapedSlashTokens();
    assert s[..1] == "/" && s[1..] == "." && "."[1..] == "" && "."[..1] == ".";
    LangEnd("", fl, false);
    LangSingle(Any, [], ".", fl, false);
    LangSingle(Escaped('/'), [Any] + [], s, fl, true);
    if Read(ts, s, fl, true, AsMeant) {
      var k := ReadFirst(ts, s, fl, true, AsMeant);
      assert ts[1..] == [Any] + [];
      TouchyRefuses([Any] + [], ".", fl, AsMeant);
    }
  }
}
