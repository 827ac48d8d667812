/**
 FNM_PERIOD as it is meant, beside FNM_PERIOD as it is coded: a period is leading at the start and, under FNM_PATHNAME,
 behind a '/'. The code also takes the place behind a '*' for a start, but not the place behind an escaped '/'.
 */
module PeriodRule {
  import opened CStrings
  import opened FnMatch
  import opened FnMatchLaws

  // ---------- the two readings ----------

  datatype Reading = AsMeant | AsCoded

  predicate IsSlash(t: Token) { t == Lit('/') || t == Escaped('/') }

  /** Whether the string counts as starting anew behind the token. */
  predicate Anew(t: Token, fl: Flags, how: Reading)
  {
    match how
    case AsMeant => fl.pathname && IsSlash(t)
    case AsCoded => StartsAnew(t, fl)
  }

  ghost predicate Read(ts: seq<Token>, s: string, fl: Flags, start: bool, how: Reading)
    decreases |ts|
  {
    if ts == [] then s == ""
    else
      && Guard(ts[0], s, fl, start)
      && exists k :: 0 <= k <= |s| && Accepts(ts[0], s[..k], fl) && Read(ts[1..], s[k..], fl, Anew(ts[0], fl, how), how)
  }

  /** What fnmatch should match. */
  ghost predicate Meant(p: string, s: string, fl: Flags)
  {
    Read(Tokenise(p, fl.noescape), s, fl, true, AsMeant)
  }

  lemma {:induction false} CodedIsLang(ts: seq<Token>, s: string, fl: Flags, start: bool)
    ensures Read(ts, s, fl, start, AsCoded) <==> Lang(ts, s, fl, start)
    decreases |ts|
  {
    hide Guard, Accepts;
    if ts != [] {
      forall k | 0 <= k <= |s|
        ensures Read(ts[1..], s[k..], fl, Anew(ts[0], fl, AsCoded), AsCoded) <==>
                Lang(ts[1..], s[k..], fl, StartsAnew(ts[0], fl))
      {
        CodedIsLang(ts[1..], s[k..], fl, StartsAnew(ts[0], fl));
      }
    }
  }

  lemma ReadFirst(ts: seq<Token>, s: string, fl: Flags, start: bool, how: Reading) returns (k: nat)
    requires ts != [] && Read(ts, s, fl, start, how)
    ensures k <= |s| && Guard(ts[0], s, fl, start) && Accepts(ts[0], s[..k], fl) && (!ts[0].Star? ==> k == 1)
    ensures Read(ts[1..], s[k..], fl, Anew(ts[0], fl, how), how)
  {
    hide Guard, InBracket;
    k :| 0 <= k <= |s| && Accepts(ts[0], s[..k], fl) && Read(ts[1..], s[k..], fl, Anew(ts[0], fl, how), how);
    assert |s[..k]| == k;
  }

  lemma ReadCons(ts: seq<Token>, s: string, fl: Flags, start: bool, how: Reading, k: nat)
    requires ts != [] && k <= |s| && Guard(ts[0], s, fl, start) && Accepts(ts[0], s[..k], fl)
    requires Read(ts[1..], s[k..], fl, Anew(ts[0], fl, how), how)
    ensures Read(ts, s, fl, start, how)
  {
    hide Guard, Accepts;
  }

  lemma ReadEnd(s: string, fl: Flags, start: bool, how: Reading)
    ensures Read([], s, fl, start, how) <==> s == ""
  {
  }

  /** A guard only minds a period in front. */
  lemma GuardElsewhere(t: Token, s: string, r: string, fl: Flags, start: bool)
    requires Guard(t, s, fl, start) && (r != "" && r[0] == '.' ==> s != "" && s[0] == '.')
    ensures Guard(t, r, fl, start)
  {
  }

  // ---------- tokens that mind a leading period ----------

  /** A wildcard that could take a period but must not take a leading one. */
  predicate Touchy(t: Token)
  {
    t.Any? || (t.Class? && !t.b.listsDot && InBracket(t.b, '.'))
  }

  predicate Harmless(ts: seq<Token>) { ts == [] || (!ts[0].Star? && !Touchy(ts[0])) }

  /** A token that is neither '*' nor touchy does not care whether it stands at a start. */
  lemma {:induction false} GuardHarmless(ts: seq<Token>, s: string, fl: Flags, start: bool, start': bool, k: nat)
    requires ts != [] && k <= |s| && Accepts(ts[0], s[..k], fl) && Guard(ts[0], s, fl, start)
    requires start' ==> start || Harmless(ts)
    ensures Guard(ts[0], s, fl, start')
  {
    hide InBracket;
    if ts[0].Class? && s != "" { assert s[..k] == [s[0]]; }
  }

  // ---------- under FNM_PATHNAME the slashes cut a match into segments ----------

  ghost predicate NoSlash(ts: seq<Token>, fl: Flags)
  {
    fl.pathname ==> forall i :: 0 <= i < |ts| ==> !IsSlash(ts[i])
  }

  lemma WordOfToken(t: Token, w: string, fl: Flags)
    requires fl.pathname && Accepts(t, w, fl)
    ensures if IsSlash(t) then w == "/" else '/' !in w
  {
    hide InBracket;
  }

  lemma SlashWord(t: Token, fl: Flags)
    requires IsSlash(t)
    ensures Accepts(t, "/", fl)
  {
  }

  lemma {:induction false} SegmentText(a: seq<Token>, x: string, fl: Flags, start: bool, how: Reading)
    requires fl.pathname && NoSlash(a, fl) && Read(a, x, fl, start, how)
    ensures '/' !in x
    decreases |a|
  {
    hide Guard, Accepts, Read;
    if a == [] {
      ReadEnd(x, fl, start, how);
    } else {
      var k := ReadFirst(a, x, fl, start, how);
      WordOfToken(a[0], x[..k], fl);
      SegmentText(a[1..], x[k..], fl, Anew(a[0], fl, how), how);
      assert x == x[..k] + x[k..];
    }
  }

  lemma {:induction false} SegmentCut(a: seq<Token>, t: Token, b: seq<Token>, s: string, fl: Flags, start: bool,
                                      how: Reading)
      returns (x: string, y: string)
    requires fl.pathname && NoSlash(a, fl) && IsSlash(t) && Read(a + [t] + b, s, fl, start, how)
    ensures s == x + "/" + y && '/' !in x && Read(a, x, fl, start, how) && Read(b, y, fl, Anew(t, fl, how), how)
    decreases |a|
  {
    hide Guard, Accepts, Read;
    var ts := a + [t] + b;
    var k := ReadFirst(ts, s, fl, start, how);
    WordOfToken(ts[0], s[..k], fl);
    assert s == s[..k] + s[k..];
    if a == [] {
      assert ts[1..] == b;
      x, y := "", s[k..];
      ReadEnd("", fl, start, how);
    } else {
      assert ts[1..] == a[1..] + [t] + b;
      var x';
      x', y := SegmentCut(a[1..], t, b, s[k..], fl, Anew(ts[0], fl, how), how);
      x := s[..k] + x';
      assert x[..k] == s[..k] && x[k..] == x' && x + "/" + y == s[..k] + (x' + "/" + y);
      GuardElsewhere(a[0], s, x, fl, start);
      ReadCons(a, x, fl, start, how, k);
    }
  }

  lemma {:induction false} SegmentGlue(a: seq<Token>, t: Token, b: seq<Token>, x: string, y: string, fl: Flags,
                                       start: bool, how: Reading)
    requires IsSlash(t) && Read(a, x, fl, start, how) && Read(b, y, fl, Anew(t, fl, how), how)
    ensures Read(a + [t] + b, x + "/" + y, fl, start, how)
    decreases |a|
  {
    hide Accepts, Read;
    var ts, s := a + [t] + b, x + "/" + y;
    if a == [] {
      ReadEnd(x, fl, start, how);
      assert ts[1..] == b && s[..1] == "/" && s[1..] == y;
      SlashWord(t, fl);
      ReadCons(ts, s, fl, start, how, 1);
    } else {
      var k := ReadFirst(a, x, fl, start, how);
      SegmentGlue(a[1..], t, b, x[k..], y, fl, Anew(a[0], fl, how), how);
      assert ts[1..] == a[1..] + [t] + b && s[..k] == x[..k] && s[k..] == x[k..] + "/" + y;
      GuardElsewhere(a[0], x, s, fl, start);
      ReadCons(ts, s, fl, start, how, k);
    }
  }

  lemma SameCut(x: string, y: string, x': string, y': string)
    requires x + "/" + y == x' + "/" + y' && '/' !in x && '/' !in x'
    ensures x == x' && y == y'
  {
    var s := x + "/" + y;
    assert s[|x|] == '/' && s[|x'|] == '/';
    assert |x| == |x'|;
    assert x == s[..|x|] == x' && y == s[|x| + 1..] == y';
  }

  /** A text cut at its first slash is read segment by segment. */
  lemma {:induction false} SegmentsOf(a: seq<Token>, t: Token, b: seq<Token>, x: string, y: string, fl: Flags,
                                      start: bool, how: Reading)
    requires fl.pathname && NoSlash(a, fl) && IsSlash(t) && '/' !in x
    requires Read(a + [t] + b, x + "/" + y, fl, start, how)
    ensures Read(a, x, fl, start, how) && Read(b, y, fl, Anew(t, fl, how), how)
  {
    hide Read;
    var x', y' := SegmentCut(a, t, b, x + "/" + y, fl, start, how);
    SameCut(x, y, x', y');
  }

  lemma {:induction false} FirstSlash(ts: seq<Token>, fl: Flags) returns (n: nat)
    requires !NoSlash(ts, fl)
    ensures n < |ts| && IsSlash(ts[n]) && NoSlash(ts[..n], fl) && ts == ts[..n] + [ts[n]] + ts[n + 1..]
  {
    if IsSlash(ts[0]) {
      n := 0;
    } else {
      var i :| 0 <= i < |ts| && IsSlash(ts[i]);
      assert ts[1..][i - 1] == ts[i];
      var m := FirstSlash(ts[1..], fl);
      n := m + 1;
      assert forall j :: 0 < j < n ==> ts[j] == ts[1..][..m][j - 1];
    }
  }

  // ---------- too lenient: behind an escaped '/' ----------

  /** No escaped '/' directly in front of a wildcard. */
  ghost predicate SlashesSafe(ts: seq<Token>, fl: Flags)
  {
    fl.pathname ==>
      forall i, j :: 0 <= i < j < |ts| && j == i + 1 && ts[i] == Escaped('/') ==> !ts[j].Star? && !Touchy(ts[j])
  }

  lemma {:induction false} CodedIsMeant(ts: seq<Token>, s: string, fl: Flags, start: bool, start': bool)
    requires Read(ts, s, fl, start, AsCoded) && SlashesSafe(ts, fl) && (start' ==> start || Harmless(ts))
    ensures Read(ts, s, fl, start', AsMeant)
    decreases |ts|
  {
    hide Guard, Accepts, Touchy, Read;
    if ts == [] {
      ReadEnd(s, fl, start, AsCoded);
      ReadEnd(s, fl, start', AsMeant);
    } else {
      var k := ReadFirst(ts, s, fl, start, AsCoded);
      GuardHarmless(ts, s, fl, start, start', k);
      CodedIsMeant(ts[1..], s[k..], fl, Anew(ts[0], fl, AsCoded), Anew(ts[0], fl, AsMeant));
      ReadCons(ts, s, fl, start', AsMeant, k);
    }
  }

  /** Where the code does not see a start, a wildcard can be given a period in front. */
  lemma {:induction false} DotInFront(b: seq<Token>, y: string, fl: Flags) returns (r: string)
    requires b != [] && (b[0].Star? || Touchy(b[0])) && Read(b, y, fl, false, AsCoded) && IsCString(y)
    ensures r != "" && r[0] == '.' && Read(b, r, fl, false, AsCoded) && IsCString(r)
  {
    hide InBracket, Read;
    var k := ReadFirst(b, y, fl, false, AsCoded);
    if b[0].Star? {
      r := "." + y;
      assert r[..k + 1] == "." + y[..k] && r[k + 1..] == y[k..];
      ReadCons(b, r, fl, false, AsCoded, k + 1);
    } else {
      r := "." + y[1..];
      assert r[..1] == "." && r[1..] == y[1..];
      ReadCons(b, r, fl, false, AsCoded, 1);
    }
  }

  lemma TouchyRefuses(b: seq<Token>, y: string, fl: Flags, how: Reading)
    requires fl.period && b != [] && (b[0].Star? || Touchy(b[0])) && y != "" && y[0] == '.'
    ensures !Read(b, y, fl, true, how)
  {
    hide InBracket, Accepts;
  }

  lemma CStringParts(x: string, y: string)
    ensures IsCString(x + y) <==> IsCString(x) && IsCString(y)
  {
    var s := x + y;
    assert forall i :: 0 <= i < |x| ==> x[i] == s[i];
    assert forall i :: 0 <= i < |y| ==> y[i] == s[|x| + i];
  }

  lemma CStringSegments(x: string, y: string)
    ensures IsCString(x + "/" + y) <==> IsCString(x) && IsCString(y)
  {
    hide IsCString;
    CStringParts(x + "/", y);
    CStringParts(x, "/");
    assert IsCString("/") by { SlashIsByte(); }
  }

  lemma SlashIsByte()
    ensures IsCString("/")
  {
  }

  /** An escaped '/' in front of a wildcard, in the first segment or behind it. */
  lemma {:induction false} UnsafeSlash(ts: seq<Token>, fl: Flags, n: nat)
    requires !SlashesSafe(ts, fl) && n < |ts| && IsSlash(ts[n]) && NoSlash(ts[..n], fl)
    ensures
      var b := ts[n + 1..];
      !SlashesSafe(b, fl) || (ts[n] == Escaped('/') && b != [] && (b[0].Star? || Touchy(b[0])))
  {
    hide Touchy;
    var i, j :| 0 <= i < j < |ts| && j == i + 1 && ts[i] == Escaped('/') && (ts[j].Star? || Touchy(ts[j]));
    var b := ts[n + 1..];
    assert forall k :: 0 <= k < n ==> ts[k] == ts[..n][k];
    if i > n { assert b[i - n - 1] == ts[i] && b[j - n - 1] == ts[j]; }
  }

  /** If the pattern matches anything, it also matches something with a leading period behind that '/'. */
  lemma {:induction false} EscapedSlashBetrays(ts: seq<Token>, s: string, fl: Flags, start: bool) returns (r: string)
    requires fl.period && !SlashesSafe(ts, fl) && Read(ts, s, fl, start, AsCoded) && IsCString(s)
    ensures Read(ts, r, fl, start, AsCoded) && !Read(ts, r, fl, true, AsMeant) && IsCString(r)
    decreases |ts|
  {
    hide Read, Touchy, Accepts, Guard, IsCString;
    SomeSlash(ts, fl);
    var n := FirstSlash(ts, fl);
    var a, t, b := ts[..n], ts[n], ts[n + 1..];
    UnsafeSlash(ts, fl, n);
    var x, y := SegmentCut(a, t, b, s, fl, start, AsCoded);
    CStringSegments(x, y);
    var y';
    if SlashesSafe(b, fl) {
      y' := DotInFront(b, y, fl);
      TouchyRefuses(b, y', fl, AsMeant);
    } else {
      y' := EscapedSlashBetrays(b, y, fl, Anew(t, fl, AsCoded));
    }
    r := x + "/" + y';
    CStringSegments(x, y');
    SegmentGlue(a, t, b, x, y', fl, start, AsCoded);
    if Read(ts, r, fl, true, AsMeant) { SegmentsOf(a, t, b, x, y', fl, true, AsMeant); }
  }

  lemma SomeSlash(ts: seq<Token>, fl: Flags)
    requires !SlashesSafe(ts, fl)
    ensures fl.pathname && !NoSlash(ts, fl)
  {
    hide Touchy;
  }
}
