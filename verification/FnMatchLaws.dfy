/** Laws of the pattern language: concatenation, flags, and the literal fast path of glob. */
module FnMatchLaws {
  import opened FnMatch

  // ---------- a pattern is a concatenation ----------

  function Flatten(parts: seq<string>): string
  {
    if parts == [] then "" else parts[0] + Flatten(parts[1..])
  }

  /** The `i`-th word is one its token stands for, and FNM_PERIOD does not mind what it faces there. */
  ghost predicate Fits(ts: seq<Token>, fl: Flags, start: bool, parts: seq<string>, i: nat)
    requires i < |ts| == |parts|
  {
    && Accepts(ts[i], parts[i], fl)
    && Guard(ts[i], Flatten(parts[i..]), fl, if i == 0 then start else StartsAnew(ts[i - 1], fl))
  }

  /** `s` cut into one fitting word per token. */
  ghost predicate Cut(ts: seq<Token>, s: string, fl: Flags, start: bool, parts: seq<string>)
  {
    |parts| == |ts| && Flatten(parts) == s && forall i :: 0 <= i < |ts| ==> Fits(ts, fl, start, parts, i)
  }

  ghost predicate IsConcatenation(ts: seq<Token>, s: string, fl: Flags)
  {
    exists parts :: Cut(ts, s, fl, true, parts)
  }

  lemma LangFirst(ts: seq<Token>, s: string, fl: Flags, start: bool) returns (k: nat)
    requires ts != [] && Lang(ts, s, fl, start)
    ensures k <= |s| && Guard(ts[0], s, fl, start) && Accepts(ts[0], s[..k], fl)
    ensures Lang(ts[1..], s[k..], fl, StartsAnew(ts[0], fl))
  {
    hide Guard, Accepts;
    k :| 0 <= k <= |s| && Accepts(ts[0], s[..k], fl) && Lang(ts[1..], s[k..], fl, StartsAnew(ts[0], fl));
  }

  lemma LangCons(ts: seq<Token>, s: string, fl: Flags, start: bool, k: nat)
    requires ts != [] && k <= |s| && Guard(ts[0], s, fl, start) && Accepts(ts[0], s[..k], fl)
    requires Lang(ts[1..], s[k..], fl, StartsAnew(ts[0], fl))
    ensures Lang(ts, s, fl, start)
  {
    hide Guard, Accepts;
  }

  /** A word in front, and the cut of what is left. */
  lemma {:induction false} CutCons(ts: seq<Token>, s: string, fl: Flags, start: bool, w: string, tail: seq<string>)
    requires ts != []
    ensures Cut(ts, s, fl, start, [w] + tail) <==>
            && w <= s && Accepts(ts[0], w, fl) && Guard(ts[0], s, fl, start)
            && Cut(ts[1..], s[|w|..], fl, StartsAnew(ts[0], fl), tail)
  {
    hide Accepts, Guard;
    var parts := [w] + tail;
    assert parts[1..] == tail && parts[0..] == parts;
    if Flatten(parts) == s { assert w <= s && s[|w|..] == Flatten(tail); }
    if w <= s && Flatten(tail) == s[|w|..] { assert Flatten(parts) == s; }
    if |parts| == |ts| {
      forall i | 0 < i < |ts|
        ensures Fits(ts, fl, start, parts, i) <==> Fits(ts[1..], fl, StartsAnew(ts[0], fl), tail, i - 1)
      {
        assert parts[i..] == tail[i - 1..];
      }
      if Flatten(parts) == s { FitsShift(ts, fl, start, parts, tail); }
    }
  }

  lemma FitsShift(ts: seq<Token>, fl: Flags, start: bool, parts: seq<string>, tail: seq<string>)
    requires ts != [] && |parts| == |ts| && parts[1..] == tail
    requires forall i :: 0 < i < |ts| ==>
                           (Fits(ts, fl, start, parts, i) <==> Fits(ts[1..], fl, StartsAnew(ts[0], fl), tail, i - 1))
    ensures (forall i :: 0 <= i < |ts| ==> Fits(ts, fl, start, parts, i)) <==>
            Fits(ts, fl, start, parts, 0) &&
            forall i :: 0 <= i < |tail| ==> Fits(ts[1..], fl, StartsAnew(ts[0], fl), tail, i)
  {
    hide Fits;
    if forall i :: 0 <= i < |ts| ==> Fits(ts, fl, start, parts, i) {
      forall i | 0 <= i < |tail| ensures Fits(ts[1..], fl, StartsAnew(ts[0], fl), tail, i) {
        assert Fits(ts, fl, start, parts, i + 1);
      }
    }
  }

  lemma {:induction false} LangCut(ts: seq<Token>, s: string, fl: Flags, start: bool) returns (parts: seq<string>)
    requires Lang(ts, s, fl, start)
    ensures Cut(ts, s, fl, start, parts)
    decreases |ts|
  {
    hide Lang, Cut;
    if ts == [] {
      LangEnd(s, fl, start);
      parts := [];
      CutNothing(fl, start);
    } else {
      var k := LangFirst(ts, s, fl, start);
      var tail := LangCut(ts[1..], s[k..], fl, StartsAnew(ts[0], fl));
      parts := [s[..k]] + tail;
      CutCons(ts, s, fl, start, s[..k], tail);
    }
  }

  lemma CutNothing(fl: Flags, start: bool)
    ensures Cut([], "", fl, start, [])
  {
  }

  lemma {:induction false} CutLang(ts: seq<Token>, s: string, fl: Flags, start: bool, parts: seq<string>)
    requires Cut(ts, s, fl, start, parts)
    ensures Lang(ts, s, fl, start)
    decreases |ts|
  {
    hide Lang, Fits;
    if ts == [] {
      LangEnd(s, fl, start);
    } else {
      assert parts == [parts[0]] + parts[1..];
      CutCons(ts, s, fl, start, parts[0], parts[1..]);
      CutLang(ts[1..], s[|parts[0]|..], fl, StartsAnew(ts[0], fl), parts[1..]);
      LangCons(ts, s, fl, start, |parts[0]|);
    }
  }

  /** A pattern denotes the concatenation of the languages of its tokens, each facing what FNM_PERIOD allows. */
  lemma {:induction false} MatchesIsConcatenation(p: string, s: string, fl: Flags)
    ensures Matches(p, s, fl) <==> IsConcatenation(Tokenise(p, fl.noescape), s, fl)
  {
    hide Lang, Cut;
    var ts := Tokenise(p, fl.noescape);
    if Matches(p, s, fl) {
      var parts := LangCut(ts, s, fl, true);
    }
    if IsConcatenation(ts, s, fl) {
      var parts :| Cut(ts, s, fl, true, parts);
      CutLang(ts, s, fl, true, parts);
    }
  }

  // ---------- flags only restrict ----------

  /** `more` is `less` with FNM_PATHNAME or FNM_PERIOD possibly added. */
  predicate AddsFlags(less: Flags, more: Flags)
  {
    && less.noescape == more.noescape
    && (less.pathname ==> more.pathname)
    && (less.period ==> more.period)
  }

  lemma {:induction false} LangMonotone(ts: seq<Token>, s: string, less: Flags, more: Flags, start: bool, start': bool)
    requires AddsFlags(less, more) && (start ==> start') && Lang(ts, s, more, start')
    ensures Lang(ts, s, less, start)
    decreases |ts|
  {
    if ts != [] {
      var k :| 0 <= k <= |s| && Accepts(ts[0], s[..k], more) && Lang(ts[1..], s[k..], more, StartsAnew(ts[0], more));
      LangMonotone(ts[1..], s[k..], less, more, StartsAnew(ts[0], less), StartsAnew(ts[0], more));
      assert Accepts(ts[0], s[..k], less);
    }
  }

  lemma {:induction false} AddingFlagsNeverAddsMatches(p: string, s: string, less: Flags, more: Flags)
    requires AddsFlags(less, more) && Matches(p, s, more)
    ensures Matches(p, s, less)
  {
    LangMonotone(Tokenise(p, less.noescape), s, less, more, true, true);
  }

  lemma {:induction false} LangIgnoresPeriod(ts: seq<Token>, s: string, fl: Flags, start: bool, start': bool)
    requires '.' !in s
    ensures Lang(ts, s, fl.(period := true), start) <==> Lang(ts, s, fl.(period := false), start')
    decreases |ts|
  {
    var on, off := fl.(period := true), fl.(period := false);
    if ts != [] {
      forall k | 0 <= k <= |s|
        ensures Accepts(ts[0], s[..k], on) == Accepts(ts[0], s[..k], off)
        ensures Lang(ts[1..], s[k..], on, StartsAnew(ts[0], on)) == Lang(ts[1..], s[k..], off, StartsAnew(ts[0], off))
      {
        LangIgnoresPeriod(ts[1..], s[k..], fl, StartsAnew(ts[0], on), StartsAnew(ts[0], off));
      }
    }
  }

  /** FNM_PERIOD matters only to strings that contain a period. */
  lemma {:induction false} PeriodNeedsADot(p: string, s: string, fl: Flags)
    requires '.' !in s
    ensures Matches(p, s, fl.(period := true)) <==> Matches(p, s, fl.(period := false))
  {
    LangIgnoresPeriod(Tokenise(p, fl.noescape), s, fl, true, true);
  }

  /** A leading period is matched by itself or by a bracket that lists it, never by '*' or '?'. */
  lemma {:induction false} LeadingDotExplicit(p: string, s: string, fl: Flags)
    requires fl.period && s != "" && s[0] == '.' && Matches(p, s, fl)
    ensures
      var ts := Tokenise(p, fl.noescape);
      ts != [] && (ts[0] == Lit('.') || ts[0] == Escaped('.') || (ts[0].Class? && ts[0].b.listsDot))
  {
    var ts := Tokenise(p, fl.noescape);
    assert Guard(ts[0], s, fl, true);
    if !ts[0].Class? {
      var k :| 0 <= k <= |s| && Accepts(ts[0], s[..k], fl) && Lang(ts[1..], s[k..], fl, StartsAnew(ts[0], fl));
      assert s[..k][0] == '.';
    }
  }

  // ---------- patterns without metacharacters ----------

  /** glob's test for '*', '?' or '[' outside escapes. */
  function HasMeta(p: string, noescape: bool): bool
    decreases |p|
  {
    if p == "" then false
    else if p[0] == '\\' && !noescape && |p| > 1 then HasMeta(p[2..], noescape)
    else p[0] == '*' || p[0] == '?' || p[0] == '[' || HasMeta(p[1..], noescape)
  }

  /** The pattern with its escaping backslashes removed. */
  function Unescape(p: string, noescape: bool): (r: string)
    ensures |r| <= |p|
    decreases |p|
  {
    if p == "" then ""
    else if p[0] == '\\' && !noescape && |p| > 1 then [p[1]] + Unescape(p[2..], noescape)
    else [p[0]] + Unescape(p[1..], noescape)
  }

  method GlobHasMeta(str: string, noescape: bool) returns (r: bool)
    ensures r == HasMeta(str, noescape)
  {
    var s := str;
    while s != ""
      invariant HasMeta(s, noescape) == HasMeta(str, noescape)
      decreases |s|
    {
      if s[0] == '\\' && !noescape && |s| > 1 {
        s := s[1..];
      } else if s[0] == '*' || s[0] == '?' || s[0] == '[' {
        return true;
      }
      s := s[1..];
    }
    r := false;
  }

  /** The copy stops at the first store beyond `dst`, so it overruns exactly if text and NUL do not fit. */
  method GlobUnescape(src: string, dst: array<char>, noescape: bool) returns (overrun: bool, n: nat)
    modifies dst
    ensures overrun <==> |Unescape(src, noescape)| >= dst.Length
    ensures overrun ==> n == dst.Length && dst[..] <= Unescape(src, noescape)
    ensures !overrun ==> n < dst.Length && dst[..n] == Unescape(src, noescape) && dst[n] == '\0'
    ensures forall i :: n < i < dst.Length ==> dst[i] == old(dst[i])
  {
    hide Unescape;
    var s := src;
    ghost var text := Unescape(src, noescape);
    n := 0;
    assert text[0..] == text;
    while s != ""
      invariant n <= |text| && text[n..] == Unescape(s, noescape)
      invariant n <= dst.Length && dst[..n] == text[..n]
      invariant forall i :: n <= i < dst.Length ==> dst[i] == old(dst[i])
      decreases |s|
    {
      UnescapeStep(s, noescape);
      if s[0] == '\\' && !noescape && |s| > 1 { s := s[1..]; }
      if n == dst.Length { return true, n; }
      assert text[n..][0] == s[0] && text[n..][1..] == text[n + 1..];
      dst[n], s := s[0], s[1..];
      n := n + 1;
    }
    UnescapeNone(noescape);
    assert text[..n] == text;
    overrun := n == dst.Length;
    if !overrun { dst[n] := '\0'; }
  }

  lemma UnescapeStep(s: string, noescape: bool)
    requires s != ""
    ensures
      var t := if s[0] == '\\' && !noescape && |s| > 1 then s[1..] else s;
      Unescape(s, noescape) == [t[0]] + Unescape(t[1..], noescape)
  {
  }

  lemma UnescapeNone(noescape: bool)
    ensures Unescape("", noescape) == ""
  {
  }

  predicate SevenBit(s: string) { forall i :: 0 <= i < |s| ==> s[i] as int < 128 }

  lemma {:induction false} LiteralLang(p: string, s: string, fl: Flags, start: bool)
    requires !HasMeta(p, fl.noescape)
    ensures Lang(Tokenise(p, fl.noescape), s, fl, start) <==> s == Unescape(p, fl.noescape) && SevenBit(s)
    decreases |p|
  {
    if p != "" {
      var quoted := p[0] == '\\' && !fl.noescape && |p| > 1;
      var t := if quoted then Escaped(p[1]) else Lit(p[0]);
      var rest := if quoted then p[2..] else p[1..];
      var u := Unescape(rest, fl.noescape);
      LangSingle(t, Tokenise(rest, fl.noescape), s, fl, start);
      if s != "" {
        LiteralLang(rest, s[1..], fl, StartsAnew(t, fl));
        assert s == [s[0]] + s[1..];
        assert Unescape(p, fl.noescape) == [t.c] + u;
        assert SevenBit(s) <==> s[0] as int < 128 && SevenBit(s[1..]) by {
          assert forall i :: 0 < i < |s| ==> s[i] == s[1..][i - 1];
        }
      }
    }
  }

  /** The fast path is exact precisely for 7-bit text: fnmatch never matches a literal byte above 127. */
  lemma {:induction false} FastPathAgrees(p: string, fl: Flags)
    requires !HasMeta(p, fl.noescape)
    ensures (forall s :: Matches(p, s, fl) <==> s == Unescape(p, fl.noescape)) <==> SevenBit(Unescape(p, fl.noescape))
  {
    forall s ensures Matches(p, s, fl) <==> s == Unescape(p, fl.noescape) && SevenBit(s) {
      LiteralLang(p, s, fl, true);
    }
    var u := Unescape(p, fl.noescape);
    assert Matches(p, u, fl) <==> SevenBit(u);
  }

  /** Every byte quoted by a backslash. */
  function Quote(s: string): string
  {
    if s == "" then "" else ['\\', s[0]] + Quote(s[1..])
  }

  lemma {:induction false} QuoteIsLiteral(s: string)
    ensures !HasMeta(Quote(s), false) && Unescape(Quote(s), false) == s
  {
    if s != "" {
      QuoteIsLiteral(s[1..]);
      assert Quote(s)[2..] == Quote(s[1..]);
    }
  }

  /** Quoting any ASCII name gives a pattern that matches that name and nothing else. */
  lemma {:induction false} QuotedNameMatchesItself(name: string, s: string, fl: Flags)
    requires SevenBit(name) && !fl.noescape
    ensures Matches(Quote(name), s, fl) <==> s == name
  {
    QuoteIsLiteral(name);
    LiteralLang(Quote(name), s, fl, true);
  }
}
