/** fnmatch: the backtracking matcher decides membership in the language of the tokenised pattern. */
module FnMatch {
  import opened CStrings

  const FNM_NOMATCH := 1

  datatype Flags = Flags(pathname: bool, noescape: bool, period: bool)

  // ---------- patterns ----------

  /** A bracket expression: its ranges, and whether a '.' is written out in it. */
  datatype Bracket = Bracket(negated: bool, ranges: seq<(char, char)>, listsDot: bool)

  datatype Token =
    | Lit(c: char)
    | Escaped(c: char)
    | Any
    | Star
    | Class(b: Bracket)

  datatype Parsed<T> = Malformed | Parsed(value: T, rest: string)

  /** One end of a range; a backslash quotes the next byte whatever the flags. */
  function Member(p: string): (r: (char, string))
    requires p != ""
    ensures |r.1| < |p| && r.1 == p[|p| - |r.1|..]
  {
    if p[0] == '\\' && |p| > 1 then (p[1], p[2..]) else (p[0], p[1..])
  }

  function Range(p: string): (r: ((char, char), string))
    requires p != ""
    ensures |r.1| < |p| && r.1 == p[|p| - |r.1|..]
  {
    var (lo, q) := Member(p);
    if |q| > 1 && q[0] == '-' && q[1] != ']' then
      var (hi, rest) := Member(q[1..]);
      ((lo, hi), rest)
    else
      ((lo, lo), q)
  }

  /** Ranges up to the closing ']'; a ']' in first place is a member. */
  function Ranges(p: string, first: bool): (r: Parsed<seq<(char, char)>>)
    ensures r.Parsed? ==> |r.rest| < |p| && r.rest == p[|p| - |r.rest|..]
  {
    if p == "" then Malformed
    else if p[0] == ']' && !first then Parsed([], p[1..])
    else
      var (range, q) := Range(p);
      match Ranges(q, false)
      case Malformed => Malformed
      case Parsed(ranges, rest) => Parsed([range] + ranges, rest)
  }

  predicate Negates(p: string) { p != "" && (p[0] == '!' || p[0] == '^') }

  /** What stands behind the '[' and a '!' or '^'. */
  function Inside(p: string): (q: string)
    requires p != ""
    ensures |q| < |p| && q == p[|p| - |q|..]
  {
    if Negates(p[1..]) then p[2..] else p[1..]
  }

  /** The bracket expression starting at the '[' in front of `p`. */
  function ParseBracket(p: string): (r: Parsed<Bracket>)
    requires p != "" && p[0] == '['
    ensures r.Parsed? ==> |r.rest| < |p|
  {
    match Ranges(Inside(p), true)
    case Malformed => Malformed
    case Parsed(ranges, rest) => Parsed(Bracket(Negates(p[1..]), ranges, ListsDot(p)), rest)
  }

  lemma BracketRest(p: string)
    requires p != "" && p[0] == '[' && ParseBracket(p).Parsed?
    ensures ParseBracket(p).rest == p[|p| - |ParseBracket(p).rest|..]
  {
    hide Ranges, ListsDot, Inside;
    SuffixOfSuffix(p, |p| - |Inside(p)|, ParseBracket(p).rest);
  }

  lemma SuffixOfSuffix(p: string, n: nat, r: string)
    requires n <= |p| && |r| <= |p| - n && r == p[n..][|p| - n - |r|..]
    ensures r == p[|p| - |r|..]
  {
  }

  /** Whether a '.' occurs between the bracket's opening and the next unquoted ']'. */
  function ListsDot(p: string): bool
    requires p != ""
  {
    var q := Inside(p);
    DotAhead(if q != "" && q[0] == ']' then q[1..] else q)
  }

  function DotAhead(p: string): bool
  {
    if p == "" || p[0] == ']' then false
    else if p[0] == '\\' && |p| > 1 then p[1] == '.' || DotAhead(p[2..])
    else p[0] == '.' || DotAhead(p[1..])
  }

  function SkipStars(p: string): (r: string)
    ensures |r| <= |p| && r == p[|p| - |r|..]
    ensures r == "" || r[0] != '*'
  {
    if p != "" && p[0] == '*' then SkipStars(p[1..]) else p
  }

  function Tokenise(p: string, noescape: bool): seq<Token>
    decreases |p|
  {
    if p == "" then []
    else if p[0] == '\\' && !noescape && |p| > 1 then [Escaped(p[1])] + Tokenise(p[2..], noescape)
    else if p[0] == '*' then [Star] + Tokenise(SkipStars(p[1..]), noescape)
    else if p[0] == '?' then [Any] + Tokenise(p[1..], noescape)
    else if p[0] == '[' then
      match ParseBracket(p)
      case Malformed => [Lit('[')] + Tokenise(p[1..], noescape)
      case Parsed(b, rest) => [Class(b)] + Tokenise(rest, noescape)
    else [Lit(p[0])] + Tokenise(p[1..], noescape)
  }

  // ---------- the language of a pattern ----------

  predicate InRanges(rs: seq<(char, char)>, c: char)
  {
    exists i :: 0 <= i < |rs| && rs[i].0 <= c <= rs[i].1
  }

  predicate InBracket(b: Bracket, c: char)
  {
    b.negated != InRanges(b.ranges, c)
  }

  /** The words a token stands for. A literal byte above 127 stands for none. */
  predicate Accepts(t: Token, w: string, fl: Flags)
  {
    match t
    case Lit(c) => w == [c] && c as int < 128
    case Escaped(c) => w == [c] && c as int < 128
    case Any => |w| == 1 && !(fl.pathname && w[0] == '/')
    case Star => !(fl.pathname && '/' in w)
    case Class(b) => |w| == 1 && !(fl.pathname && w[0] == '/') && InBracket(b, w[0])
  }

  /** FNM_PERIOD: at a start, a wildcard may not face a '.', unless a bracket lists it. */
  predicate Guard(t: Token, s: string, fl: Flags, start: bool)
  {
    fl.period && start && s != "" && s[0] == '.' ==>
      t.Lit? || t.Escaped? || (t.Class? && t.b.listsDot)
  }

  /** After a '*', and after a '/' under FNM_PATHNAME, the string counts as starting anew. */
  predicate StartsAnew(t: Token, fl: Flags)
  {
    t.Star? || (fl.pathname && t == Lit('/'))
  }

  ghost predicate Lang(ts: seq<Token>, s: string, fl: Flags, start: bool)
    decreases |ts|
  {
    if ts == [] then s == ""
    else
      && Guard(ts[0], s, fl, start)
      && exists k :: 0 <= k <= |s| && Accepts(ts[0], s[..k], fl) && Lang(ts[1..], s[k..], fl, StartsAnew(ts[0], fl))
  }

  /** The language `fnmatch` is meant to decide. */
  ghost predicate Matches(p: string, s: string, fl: Flags)
  {
    Lang(Tokenise(p, fl.noescape), s, fl, true)
  }

  lemma {:induction false} LangSingle(t: Token, ts: seq<Token>, s: string, fl: Flags, start: bool)
    requires !t.Star?
    ensures Lang([t] + ts, s, fl, start) <==>
            Guard(t, s, fl, start) && s != "" && Accepts(t, s[..1], fl) && Lang(ts, s[1..], fl, StartsAnew(t, fl))
  {
    assert ([t] + ts)[1..] == ts;
    forall k | 0 <= k <= |s| && k != 1 ensures !Accepts(t, s[..k], fl) {
      assert |s[..k]| == k;
    }
  }

  /** What a '[' in the pattern demands of the string: a byte of the class, or a '[' if the class is never closed. */
  lemma {:induction false} LangBracket(p: string, s: string, fl: Flags, start: bool)
    requires p != "" && p[0] == '['
    ensures
      var b := ParseBracket(p);
      Lang(Tokenise(p, fl.noescape), s, fl, start) <==>
      if b.Malformed? then
        s != "" && s[0] == '[' && Lang(Tokenise(p[1..], fl.noescape), s[1..], fl, false)
      else
        && s != "" && !(fl.pathname && s[0] == '/') && !(fl.period && start && s[0] == '.' && !ListsDot(p))
        && InBracket(b.value, s[0]) && Lang(Tokenise(b.rest, fl.noescape), s[1..], fl, false)
  {
    hide Lang, Ranges, ListsDot, InBracket;
    match ParseBracket(p)
    case Malformed => LangSingle(Lit('['), Tokenise(p[1..], fl.noescape), s, fl, start);
    case Parsed(b, rest) => LangSingle(Class(b), Tokenise(rest, fl.noescape), s, fl, start);
  }

  /** A '*' may end after `k` bytes of `s`. */
  ghost predicate StarEnds(ts: seq<Token>, s: string, fl: Flags, k: int)
  {
    0 <= k <= |s| && !(fl.pathname && '/' in s[..k]) && Lang(ts, s[k..], fl, true)
  }

  ghost predicate StarMatches(ts: seq<Token>, s: string, fl: Flags)
  {
    exists k :: StarEnds(ts, s, fl, k)
  }

  lemma {:induction false} LangStar(ts: seq<Token>, s: string, fl: Flags, start: bool)
    ensures Lang([Star] + ts, s, fl, start) <==>
            !(fl.period && start && s != "" && s[0] == '.') && StarMatches(ts, s, fl)
  {
    assert ([Star] + ts)[1..] == ts;
    if Lang([Star] + ts, s, fl, start) {
      var k :| 0 <= k <= |s| && Accepts(Star, s[..k], fl) && Lang(ts, s[k..], fl, true);
      assert StarEnds(ts, s, fl, k);
    }
    if k :| StarEnds(ts, s, fl, k) {
      assert Accepts(Star, s[..k], fl);
    }
  }

  lemma SlashWithin(s: string, k: nat, j: int)
    requires k < |s| && s[k] == '/'
    ensures k < j <= |s| ==> '/' in s[..j]
  {
    if k < j <= |s| { assert s[..j][k] == '/'; }
  }

  /** Having failed before `k`, and unable to go beyond it, the '*' can only end at `k`. */
  lemma {:induction false} LastChance(ts: seq<Token>, s: string, fl: Flags, k: nat)
    requires k <= |s| && !(fl.pathname && '/' in s[..k])
    requires forall j :: 0 <= j < k ==> !Lang(ts, s[j..], fl, true)
    requires k == |s| || (fl.pathname && s[k] == '/')
    ensures StarMatches(ts, s, fl) <==> Lang(ts, s[k..], fl, true)
  {
    if j :| StarEnds(ts, s, fl, j) {
      if k < |s| { SlashWithin(s, k, j); }
    }
    if Lang(ts, s[k..], fl, true) { assert StarEnds(ts, s, fl, k); }
  }

  /** A '*' that ends the pattern takes everything, slashes apart. */
  lemma {:induction false} StarLast(s: string, fl: Flags)
    ensures StarMatches([], s, fl) <==> !(fl.pathname && '/' in s)
  {
    assert s[|s|..] == "" && s[..|s|] == s;
    if !(fl.pathname && '/' in s) { assert StarEnds([], s, fl, |s|); }
  }

  lemma NoTokens(noescape: bool)
    ensures Tokenise("", noescape) == []
  {
  }

  lemma StarTokens(p: string, noescape: bool)
    requires p != "" && p[0] == '*'
    ensures Tokenise(p, noescape) == [Star] + Tokenise(SkipStars(p), noescape)
  {
  }

  lemma LangEscaped(p: string, s: string, fl: Flags, start: bool)
    requires IsCString(s) && |p| > 1 && p[0] == '\\' && !fl.noescape
    ensures Lang(Tokenise(p, fl.noescape), s, fl, start) <==>
            s != "" && Plain(s[0]) == p[1] as int && Lang(Tokenise(p[2..], fl.noescape), s[1..], fl, false)
  {
    hide Lang;
    LangSingle(Escaped(p[1]), Tokenise(p[2..], fl.noescape), s, fl, start);
  }

  lemma LangAny(p: string, s: string, fl: Flags, start: bool)
    requires p != "" && p[0] == '?'
    ensures Lang(Tokenise(p, fl.noescape), s, fl, start) <==>
            && s != "" && !(fl.period && start && s[0] == '.') && !(fl.pathname && s[0] == '/')
            && Lang(Tokenise(p[1..], fl.noescape), s[1..], fl, false)
  {
    hide Lang;
    LangSingle(Any, Tokenise(p[1..], fl.noescape), s, fl, start);
  }

  lemma LangLit(p: string, s: string, fl: Flags, start: bool)
    requires IsCString(s) && p != "" && p[0] != '*' && p[0] != '?' && p[0] != '['
    requires p[0] == '\\' && !fl.noescape ==> |p| == 1
    ensures Lang(Tokenise(p, fl.noescape), s, fl, start) <==>
            && s != "" && Plain(s[0]) == p[0] as int
            && Lang(Tokenise(p[1..], fl.noescape), s[1..], fl, fl.pathname && p[0] == '/')
  {
    hide Lang;
    LangSingle(Lit(p[0]), Tokenise(p[1..], fl.noescape), s, fl, start);
  }

  lemma LangEnd(s: string, fl: Flags, start: bool)
    ensures Lang([], s, fl, start) <==> s == ""
  {
  }

  // ---------- the matcher ----------

  function Prefixed(seen: seq<(char, char)>, r: Parsed<seq<(char, char)>>): Parsed<seq<(char, char)>>
  {
    if r.Malformed? then Malformed else Parsed(seen + r.value, r.rest)
  }

  lemma {:induction false} RangesStep(seen: seq<(char, char)>, p: string, first: bool)
    requires p != "" && !(p[0] == ']' && !first)
    ensures Prefixed(seen, Ranges(p, first)) == Prefixed(seen + [Range(p).0], Ranges(Range(p).1, false))
  {
    hide Range;
    var (range, q) := Range(p);
    var r := Ranges(q, false);
    if r.Parsed? { assert seen + ([range] + r.value) == (seen + [range]) + r.value; }
  }

  lemma RangesBegin(p: string, c: char)
    ensures Prefixed([], Ranges(p, true)) == Ranges(p, true) && !InRanges([], c)
  {
    var r := Ranges(p, true);
    if r.Parsed? { assert [] + r.value == r.value; }
  }

  lemma RangesEnd(seen: seq<(char, char)>, p: string, first: bool)
    requires p == "" || (p[0] == ']' && !first)
    ensures Prefixed(seen, Ranges(p, first)) == if p == "" then Malformed else Parsed(seen, p[1..])
  {
    assert seen + [] == seen;
  }

  lemma InRangesStep(seen: seq<(char, char)>, x: (char, char), c: char)
    ensures InRanges(seen + [x], c) <==> InRanges(seen, c) || x.0 <= c <= x.1
  {
    assert (seen + [x])[|seen|] == x;
    if InRanges(seen, c) {
      var i :| 0 <= i < |seen| && seen[i].0 <= c <= seen[i].1;
      assert (seen + [x])[i] == seen[i];
    }
  }

  /** Returns 1, 0 or -1 (no closing bracket) and the pattern behind the bracket. */
  method MatchBracket(pattern: string, c: char) returns (r: int, rest: string)
    requires pattern != "" && pattern[0] == '['
    ensures ParseBracket(pattern).Malformed? ==> r == -1
    ensures ParseBracket(pattern).Parsed? ==>
              rest == ParseBracket(pattern).rest && r == if InBracket(ParseBracket(pattern).value, c) then 1 else 0
  {
    hide Ranges, Range, InRanges;
    rest := pattern;
    var p, negate, matched := pattern[1..], false, false;
    if At(p, 0) == '!' || At(p, 0) == '^' {
      negate := true;
      p := p[1..];
    }
    RangesEnd([], "", true);
    if p == "" { return -1, pattern; }
    var first := true;
    ghost var p0, seen := p, [];
    RangesBegin(p, c);
    while p != "" && !(p[0] == ']' && !first)
      invariant Ranges(p0, true) == Prefixed(seen, Ranges(p, first))
      invariant matched <==> InRanges(seen, c)
      decreases |p|
    {
      RangesStep(seen, p, first);
      first := false;
      var lo, hi;
      lo, hi, p := NextRange(p);
      if lo <= c <= hi { matched := true; }
      InRangesStep(seen, (lo, hi), c);
      seen := seen + [(lo, hi)];
    }
    RangesEnd(seen, p, first);
    if p == "" { return -1, pattern; }
    rest := p[1..];
    r := if negate != matched then 1 else 0;
  }

  method NextRange(pattern: string) returns (lo: char, hi: char, p: string)
    requires pattern != ""
    ensures ((lo, hi), p) == Range(pattern)
  {
    p := pattern;
    if p[0] == '\\' && |p| > 1 {
      lo, hi, p := p[1], p[1], p[2..];
    } else {
      lo, hi, p := p[0], p[0], p[1..];
    }
    if |p| > 1 && p[0] == '-' && p[1] != ']' {
      p := p[1..];
      if p[0] == '\\' && |p| > 1 {
        hi, p := p[1], p[2..];
      } else {
        hi, p := p[0], p[1..];
      }
    }
  }

  method ClassHasDot(pattern: string) returns (r: bool)
    requires pattern != ""
    ensures r == ListsDot(pattern)
  {
    var p := pattern[1..];
    if At(p, 0) == '!' || At(p, 0) == '^' { p := p[1..]; }
    if At(p, 0) == ']' { p := p[1..]; }
    while p != "" && p[0] != ']'
      invariant DotAhead(p) == ListsDot(pattern)
      decreases |p|
    {
      if p[0] == '\\' && |p| > 1 {
        if p[1] == '.' { return true; }
        p := p[2..];
      } else {
        if p[0] == '.' { return true; }
        p := p[1..];
      }
    }
    r := false;
  }

  method Fnmatch(pattern: string, str: string, fl: Flags) returns (r: int)
    requires IsCString(pattern) && IsCString(str)
    ensures r == 0 || r == FNM_NOMATCH
    ensures r == 0 <==> Matches(pattern, str, fl)
    decreases |pattern|, 1
  {
    hide Lang, Tokenise, Accepts, Guard;
    var p, s, atStart := pattern, str, true;
    while p != ""
      invariant |p| <= |pattern| && IsCString(p) && IsCString(s)
      invariant Lang(Tokenise(p, fl.noescape), s, fl, atStart) <==> Matches(pattern, str, fl)
      decreases |p|
    {
      var pc := p[0];
      if pc == '\\' && !fl.noescape && |p| > 1 {
        LangEscaped(p, s, fl, atStart);
        assert p[1..][1..] == p[2..];
        p := p[1..];
        pc := p[0];
        if Plain(At(s, 0)) != pc as int { return FNM_NOMATCH; }
        if At(s, 0) == '\0' { return FNM_NOMATCH; }
        p, s, atStart := p[1..], s[1..], false;
      } else if pc == '*' {
        r := MatchStar(p, s, fl, atStart);
        return;
      } else if pc == '?' {
        LangAny(p, s, fl, atStart);
        if s == "" { return FNM_NOMATCH; }
        if fl.period && atStart && s[0] == '.' { return FNM_NOMATCH; }
        if fl.pathname && s[0] == '/' { return FNM_NOMATCH; }
        p, s, atStart := p[1..], s[1..], false;
      } else if pc == '[' {
        var ok, rest := MatchClass(p, s, fl, atStart);
        if !ok { return FNM_NOMATCH; }
        p, s, atStart := rest, s[1..], false;
      } else {
        LangLit(p, s, fl, atStart);
        if Plain(At(s, 0)) != pc as int { return FNM_NOMATCH; }
        atStart := fl.pathname && pc == '/';
        p, s := p[1..], s[1..];
      }
    }
    NoTokens(fl.noescape);
    LangEnd(s, fl, atStart);
    r := if s != "" then FNM_NOMATCH else 0;
  }

  /** The '[' case of fnmatch: whether one byte of `s` is consumed, and the pattern behind what matched it. */
  method MatchClass(p: string, s: string, fl: Flags, atStart: bool) returns (ok: bool, rest: string)
    requires IsCString(p) && IsCString(s) && p != "" && p[0] == '['
    ensures IsCString(rest) && |rest| < |p|
    ensures ok ==> s != ""
    ensures Lang(Tokenise(p, fl.noescape), s, fl, atStart) <==>
            ok && Lang(Tokenise(rest, fl.noescape), s[1..], fl, false)
  {
    hide Lang, ParseBracket, ListsDot, InBracket, Tokenise;
    ok, rest := false, p[1..];
    LangBracket(p, s, fl, atStart);
    if s == "" { return; }
    if fl.pathname && s[0] == '/' { return; }
    var hasDot := ClassHasDot(p);
    if fl.period && atStart && s[0] == '.' && !hasDot { return; }
    var m, behind := MatchBracket(p, s[0]);
    if m < 0 {
      ok := s[0] == '[';
    } else {
      BracketRest(p);
      ok, rest := m != 0, behind;
    }
  }

  /** The '*' case of fnmatch: try every slash-free prefix, shortest first. */
  method MatchStar(pattern: string, str: string, fl: Flags, atStart: bool) returns (r: int)
    requires IsCString(pattern) && IsCString(str) && pattern != "" && pattern[0] == '*'
    ensures r == 0 || r == FNM_NOMATCH
    ensures r == 0 <==> Lang(Tokenise(pattern, fl.noescape), str, fl, atStart)
    decreases |pattern|, 0
  {
    hide Lang, Tokenise, SkipStars, StarMatches;
    var p := SkipStarRun(pattern);
    StarTokens(pattern, fl.noescape);
    LangStar(Tokenise(p, fl.noescape), str, fl, atStart);
    if fl.period && atStart && At(str, 0) == '.' { return FNM_NOMATCH; }
    if p == "" {
      NoTokens(fl.noescape);
      StarLast(str, fl);
      if fl.pathname && '/' in str { return FNM_NOMATCH; }
      return 0;
    }
    r := Backtrack(p, str, fl);
  }

  method SkipStarRun(pattern: string) returns (p: string)
    requires IsCString(pattern) && pattern != "" && pattern[0] == '*'
    ensures p == SkipStars(pattern) && IsCString(p) && |p| < |pattern|
  {
    p := pattern;
    while p != "" && p[0] == '*'
      invariant IsCString(p) && (p == pattern || |p| < |pattern|) && SkipStars(p) == SkipStars(pattern)
      decreases |p|
    {
      p := p[1..];
    }
  }

  method Backtrack(p: string, str: string, fl: Flags) returns (r: int)
    requires IsCString(p) && IsCString(str)
    ensures r == 0 || r == FNM_NOMATCH
    ensures r == 0 <==> StarMatches(Tokenise(p, fl.noescape), str, fl)
    decreases |p|, 2
  {
    hide Lang;
    var s := str;
    ghost var k := 0;
    ghost var ts := Tokenise(p, fl.noescape);
    while s != ""
      invariant IsCString(s) && 0 <= k <= |str| && s == str[k..]
      invariant !(fl.pathname && '/' in str[..k])
      invariant forall j :: 0 <= j < k ==> !Lang(ts, str[j..], fl, true)
      decreases |s|
    {
      if fl.pathname && s[0] == '/' { break; }
      r := Fnmatch(p, s, fl);
      if r == 0 { assert StarEnds(ts, str, fl, k); return 0; }
      s, k := s[1..], k + 1;
    }
    LastChance(ts, str, fl, k);
    r := Fnmatch(p, s, fl);
  }
}
