/** Behind a '*' the code takes every period for a leading one: exactly which patterns that makes too strict. */
module PeriodStars {
  import opened CStrings
  import opened FnMatch
  import opened PeriodRule

  // ---------- the condition ----------

  predicate IsByte(c: char) { 0 < c as int < 256 }

  /** A token other than '*' that takes the byte `c`. */
  predicate Takes(t: Token, c: char, fl: Flags) { !t.Star? && Accepts(t, [c], fl) }

  /** A '*' directly in front of a wildcard that minds a leading period. */
  predicate Touches(ts: seq<Token>, i: nat) { i + 1 < |ts| && ts[i].Star? && Touchy(ts[i + 1]) }

  /** Every byte that can occur between slashes. */
  ghost predicate TakesAll(t: Token, fl: Flags)
  {
    forall c: char :: IsByte(c) && !(fl.pathname && c == '/') ==> Takes(t, c, fl)
  }

  /** Whatever `t` takes, `u` takes too. */
  ghost predicate Within(t: Token, u: Token, fl: Flags)
  {
    forall c: char :: IsByte(c) && Takes(t, c, fl) ==> Takes(u, c, fl)
  }

  /** The first takes a period, and each takes what the one before it takes: they can move left over periods. */
  ghost predicate Slides(ts: seq<Token>, fl: Flags)
  {
    && (ts != [] ==> Takes(ts[0], '.', fl))
    && forall i, j :: 0 <= i < j < |ts| && j == i + 1 ==> Within(ts[i], ts[j], fl)
  }

  ghost predicate SlidesUpTo(ts: seq<Token>, fl: Flags, i: nat, j: nat)
  {
    i + 2 <= j < |ts| && ts[j].Star? && TakesAll(ts[i + 1], fl) && Slides(ts[i + 2..j], fl)
  }

  /** The '*' stands at a start, and up to a later '*' the tokens behind it can move left over periods. */
  ghost predicate Excused(ts: seq<Token>, fl: Flags, i: nat)
  {
    && i <= |ts| && (i == 0 || (fl.pathname && IsSlash(ts[i - 1])))
    && exists j: nat :: SlidesUpTo(ts, fl, i, j)
  }

  ghost predicate StarsSafe(ts: seq<Token>, fl: Flags)
  {
    forall i: nat :: Touches(ts, i) ==> Excused(ts, fl, i)
  }

  ghost predicate NoDoubleStar(ts: seq<Token>)
  {
    forall i, j :: 0 <= i < j < |ts| && j == i + 1 && ts[i].Star? ==> !ts[j].Star?
  }

  // ---------- one byte per token ----------

  /** How many tokens are no '*'. */
  function Singles(ts: seq<Token>): nat
  {
    if ts == [] then 0 else (if ts[0].Star? then 0 else 1) + Singles(ts[1..])
  }

  /** `r` gives every '*' nothing and every other token a byte. */
  ghost predicate Spells(ts: seq<Token>, r: string, fl: Flags)
  {
    if ts == [] then r == ""
    else if ts[0].Star? then Spells(ts[1..], r, fl)
    else r != "" && Takes(ts[0], r[0], fl) && Spells(ts[1..], r[1..], fl)
  }

  lemma SinglesStep(ts: seq<Token>)
    ensures Singles([]) == 0
    ensures ts != [] ==> Singles(ts) == (if ts[0].Star? then 0 else 1) + Singles(ts[1..])
  {
  }

  lemma {:induction false} SpellsLength(ts: seq<Token>, r: string, fl: Flags)
    requires Spells(ts, r, fl)
    ensures |r| == Singles(ts)
  {
    hide Takes;
    if ts != [] { SpellsLength(ts[1..], if ts[0].Star? then r else r[1..], fl); }
  }

  lemma {:induction false} ReadLength(ts: seq<Token>, s: string, fl: Flags, start: bool, how: Reading)
    requires Read(ts, s, fl, start, how)
    ensures |s| >= Singles(ts)
    decreases |ts|
  {
    hide Read, Guard, Accepts, Singles;
    SinglesStep(ts);
    if ts != [] {
      var k := ReadFirst(ts, s, fl, start, how);
      ReadLength(ts[1..], s[k..], fl, Anew(ts[0], fl, how), how);
    }
  }

  lemma WordIsByte(t: Token, s: string, k: nat, fl: Flags)
    requires k <= |s| && !t.Star? && Accepts(t, s[..k], fl)
    ensures k == 1 && Takes(t, s[0], fl)
  {
    hide InBracket;
    assert |s[..k]| == k;
    assert s[..1] == [s[0]];
  }

  lemma ByteIsWord(t: Token, s: string, fl: Flags)
    requires s != "" && Takes(t, s[0], fl)
    ensures Accepts(t, s[..1], fl)
  {
    hide Accepts;
    assert s[..1] == [s[0]];
  }

  /** What a string spells with its '*' words dropped. */
  lemma {:induction false} SpellOf(ts: seq<Token>, s: string, fl: Flags, start: bool, how: Reading) returns (r: string)
    requires Read(ts, s, fl, start, how) && IsCString(s)
    ensures Spells(ts, r, fl) && IsCString(r)
    ensures ts != [] && !ts[0].Star? ==> s != "" && r != "" && r[0] == s[0]
    decreases |ts|
  {
    hide Read, Accepts, Guard, Takes;
    if ts == [] {
      r := "";
    } else {
      var k := ReadFirst(ts, s, fl, start, how);
      var tail := SpellOf(ts[1..], s[k..], fl, Anew(ts[0], fl, how), how);
      if ts[0].Star? {
        r := tail;
      } else {
        WordIsByte(ts[0], s, k, fl);
        r := [s[0]] + tail;
        assert r[1..] == tail;
      }
    }
  }

  /** Another byte may be spelled where the token behind `a` takes it. */
  lemma {:induction false} Respell(a: seq<Token>, t: Token, b: seq<Token>, r: string, c: char, fl: Flags)
    requires Spells(a + [t] + b, r, fl) && Takes(t, c, fl)
    ensures Singles(a) < |r| && Spells(a + [t] + b, r[Singles(a) := c], fl)
    decreases |a|
  {
    hide Accepts;
    var ts := a + [t] + b;
    if a == [] {
      assert ts[1..] == b;
      assert r[0 := c][1..] == r[1..];
    } else {
      assert ts[1..] == a[1..] + [t] + b;
      if a[0].Star? {
        Respell(a[1..], t, b, r, c, fl);
      } else {
        Respell(a[1..], t, b, r[1..], c, fl);
        assert r[Singles(a) := c][1..] == r[1..][Singles(a[1..]) := c];
      }
    }
  }

  /** Between slashes and away from the start nothing is minded: what is spelled is meant. */
  lemma {:induction false} SpelledIsMeant(ts: seq<Token>, r: string, fl: Flags)
    requires NoSlash(ts, fl) && Spells(ts, r, fl)
    ensures Read(ts, r, fl, false, AsMeant)
  {
    hide Read, Takes, Accepts;
    if ts == [] {
      ReadEnd(r, fl, false, AsMeant);
    } else {
      var k := if ts[0].Star? then 0 else 1;
      assert r[0..] == r && r[..0] == "";
      SpelledIsMeant(ts[1..], r[k..], fl);
      if ts[0].Star? { EmptyWord(fl); } else { ByteIsWord(ts[0], r, fl); }
      ReadCons(ts, r, fl, false, AsMeant, k);
    }
  }

  lemma EmptyWord(fl: Flags)
    ensures Accepts(Star, "", fl)
  {
  }

  /** At a start only the first token can mind. */
  lemma SpelledAtStart(ts: seq<Token>, r: string, fl: Flags)
    requires ts != [] && NoSlash(ts, fl) && Spells(ts, r, fl) && Guard(ts[0], r, fl, true)
    ensures Read(ts, r, fl, true, AsMeant)
  {
    hide Read, Accepts, Guard, Spells;
    SpelledIsMeant(ts, r, fl);
    var k := ReadFirst(ts, r, fl, false, AsMeant);
    ReadCons(ts, r, fl, true, AsMeant, k);
  }

  /** A string with just one byte per token leaves no choice. */
  lemma {:induction false} Forced(a: seq<Token>, b: seq<Token>, s: string, fl: Flags, start: bool, how: Reading)
    requires a != [] && Read(a + b, s, fl, start, how) && |s| == Singles(a + b)
    ensures Singles(a) <= |s| && Read(b, s[Singles(a)..], fl, Anew(a[|a| - 1], fl, how), how)
    decreases |a|
  {
    hide Read, Accepts, Guard, Singles;
    var ts := a + b;
    SinglesStep(ts);
    SinglesStep(a);
    SinglesStep([]);
    var k := ReadFirst(ts, s, fl, start, how);
    assert ts[1..] == a[1..] + b;
    ReadLength(ts[1..], s[k..], fl, Anew(ts[0], fl, how), how);
    if |a| == 1 {
      assert a[1..] == [] && ts[1..] == b;
    } else {
      Forced(a[1..], b, s[k..], fl, Anew(ts[0], fl, how), how);
      assert s[k..][Singles(a[1..])..] == s[Singles(a)..];
    }
  }

  // ---------- the condition is necessary ----------

  /** A pattern between slashes is betrayed by `r`: it should match, and the code refuses it wherever it stands. */
  ghost predicate Betrays(ts: seq<Token>, r: string, fl: Flags)
  {
    IsCString(r) && Read(ts, r, fl, true, AsMeant) && forall start :: !Read(ts, r, fl, start, AsCoded)
  }

  lemma TouchyTakesDot(t: Token, fl: Flags)
    requires Touchy(t)
    ensures Takes(t, '.', fl)
  {
    hide InBracket;
  }

  lemma DotIsByte()
    ensures IsCString(".") && IsCString("a")
  {
  }

  /** The code gives a token behind a '*' no period, if that token is touchy. */
  lemma {:induction false} DotRefused(ts: seq<Token>, i: nat, s: string, fl: Flags, start: bool)
    requires fl.period && Touches(ts, i) && |s| == Singles(ts)
    requires Singles(ts[..i + 1]) < |s| && s[Singles(ts[..i + 1])] == '.'
    ensures !Read(ts, s, fl, start, AsCoded)
  {
    hide Read, Touchy, Singles;
    var a, b := ts[..i + 1], ts[i + 1..];
    assert ts == a + b;
    if Read(ts, s, fl, start, AsCoded) {
      Forced(a, b, s, fl, start, AsCoded);
      TouchyRefuses(b, s[Singles(a)..], fl, AsCoded);
    }
  }

  /** The spelling with a period for the token behind the `i`-th. */
  lemma {:induction false} DotSpelled(ts: seq<Token>, i: nat, r: string, fl: Flags) returns (q: string)
    requires Touches(ts, i) && Spells(ts, r, fl) && IsCString(r)
    ensures Singles(ts[..i + 1]) < |q| == |r| == Singles(ts) && q[Singles(ts[..i + 1])] == '.'
    ensures Spells(ts, q, fl) && IsCString(q) && (Singles(ts[..i + 1]) > 0 ==> q[0] == r[0])
  {
    hide Spells, Touchy, Takes;
    var a, t, b := ts[..i + 1], ts[i + 1], ts[i + 2..];
    assert ts == a + [t] + b;
    TouchyTakesDot(t, fl);
    Respell(a, t, b, r, '.', fl);
    q := r[Singles(a) := '.'];
    SpellsLength(ts, r, fl);
  }

  lemma {:induction false} SomeSingle(ts: seq<Token>, i: nat)
    requires NoDoubleStar(ts) && Touches(ts, i) && i > 0
    ensures Singles(ts[..i + 1]) > 0 && (ts[0].Star? ==> i > 1 && !ts[1].Star?)
  {
    hide Singles, Touchy;
    var a := ts[..i + 1];
    SinglesStep(a);
    SinglesStep(a[1..]);
    assert ts[0].Star? ==> !ts[1].Star?;
    assert a[1] == ts[1] && a[1..][0] == a[1];
  }

  /** A '*' further on: the string with just one byte per token, a period among them, is refused. */
  lemma {:induction false} LaterStarBetrays(ts: seq<Token>, i: nat, s: string, fl: Flags) returns (r: string)
    requires fl.period && NoSlash(ts, fl) && NoDoubleStar(ts) && Touches(ts, i) && i > 0
    requires Read(ts, s, fl, true, AsMeant) && IsCString(s)
    ensures Betrays(ts, r, fl)
  {
    hide Read, Spells, Singles, Touchy, Guard, Takes, NoDoubleStar, NoSlash;
    SomeSingle(ts, i);
    var r0 := SpellOf(ts, s, fl, true, AsMeant);
    if !ts[0].Star? {
      var k := ReadFirst(ts, s, fl, true, AsMeant);
      r := DotSpelled(ts, i, r0, fl);
      GuardElsewhere(ts[0], s, r, fl, true);
      SpelledAtStart(ts, r, fl);
      forall start ensures !Read(ts, r, fl, start, AsCoded) { DotRefused(ts, i, r, fl, start); }
    } else if e :| IsByte(e) && e != '.' && Takes(ts[1], e, fl) {
      var r1 := FirstRespelled(ts, r0, e, fl);
      r := DotSpelled(ts, i, r1, fl);
      StarGuard(r, fl);
      SpelledAtStart(ts, r, fl);
      forall start ensures !Read(ts, r, fl, start, AsCoded) { DotRefused(ts, i, r, fl, start); }
    } else {
      var q := DotSpelled(ts, i, r0, fl);
      r := "a" + q;
      OneByteMore(ts, i, q, fl);
    }
  }

  lemma StarGuard(r: string, fl: Flags)
    requires r == "" || r[0] != '.'
    ensures Guard(Star, r, fl, true)
  {
  }

  /** Behind a first '*', another first byte. */
  lemma {:induction false} FirstRespelled(ts: seq<Token>, r: string, e: char, fl: Flags) returns (q: string)
    requires |ts| > 1 && ts[0].Star? && Spells(ts, r, fl) && IsCString(r) && IsByte(e) && Takes(ts[1], e, fl)
    ensures Spells(ts, q, fl) && IsCString(q) && q != "" && q[0] == e
  {
    hide Spells, Takes, Singles;
    var a, b := ts[..1], ts[2..];
    assert ts == a + [ts[1]] + b;
    SinglesStep(a);
    SinglesStep([]);
    assert a[1..] == [];
    Respell(a, ts[1], b, r, e, fl);
    q := r[0 := e];
  }

  /** If the token behind a first '*' takes nothing but a period, one byte more for that '*' changes nothing. */
  lemma {:induction false} OneByteMore(ts: seq<Token>, i: nat, q: string, fl: Flags)
    requires fl.period && NoSlash(ts, fl) && |ts| > 1 && ts[0].Star? && !ts[1].Star? && !Takes(ts[1], 'a', fl)
    requires Touches(ts, i) && i > 0 && Spells(ts, q, fl) && IsCString(q) && |q| == Singles(ts)
    requires Singles(ts[..i + 1]) < |q| && q[Singles(ts[..i + 1])] == '.'
    ensures Betrays(ts, "a" + q, fl)
  {
    hide Read, Spells, Singles, Touchy, Takes, IsCString, Accepts;
    var r := "a" + q;
    DotIsByte();
    CStringParts("a", q);
    assert r[..1] == "a" && r[1..] == q && r[0..] == r;
    SpelledTail(ts, q, fl);
    StarGuard(r, fl);
    StarTakesA(fl);
    ReadCons(ts, r, fl, true, AsMeant, 1);
    forall start ensures !Read(ts, r, fl, start, AsCoded) {
      if Read(ts, r, fl, start, AsCoded) {
        var k := ReadFirst(ts, r, fl, start, AsCoded);
        SinglesStep(ts);
        ReadLength(ts[1..], r[k..], fl, true, AsCoded);
        if k == 0 {
          var l := ReadFirst(ts[1..], r, fl, true, AsCoded);
          WordIsByte(ts[1], r, l, fl);
        } else {
          TailRefused(ts, i, q, fl);
        }
      }
    }
  }

  lemma StarTakesA(fl: Flags)
    ensures Accepts(Star, "a", fl)
  {
  }

  lemma SpelledTail(ts: seq<Token>, q: string, fl: Flags)
    requires ts != [] && ts[0].Star? && NoSlash(ts, fl) && Spells(ts, q, fl)
    ensures Read(ts[1..], q, fl, false, AsMeant) && Anew(ts[0], fl, AsMeant) == false
  {
    hide Read, Takes;
    SpelledIsMeant(ts[1..], q, fl);
  }

  lemma {:induction false} TailRefused(ts: seq<Token>, i: nat, q: string, fl: Flags)
    requires fl.period && |ts| > 1 && ts[0].Star? && Touches(ts, i) && i > 0 && |q| == Singles(ts)
    requires Singles(ts[..i + 1]) < |q| && q[Singles(ts[..i + 1])] == '.'
    ensures !Read(ts[1..], q, fl, true, AsCoded)
  {
    hide Read, Touchy, Singles;
    var us := ts[1..];
    assert Touches(us, i - 1) && us[..i] == ts[..i + 1][1..];
    SinglesStep(ts);
    SinglesStep(ts[..i + 1]);
    DotRefused(us, i - 1, q, fl, true);
  }

  /** The first '*' of a pattern, given a byte `e` and then a period for the touchy token behind it. */
  lemma {:induction false} FirstStarBetrays(ts: seq<Token>, e: char, q: string, fl: Flags)
    requires fl.period && NoSlash(ts, fl) && Touches(ts, 0) && Spells(ts[2..], q, fl) && IsCString(q)
    requires IsByte(e) && e != '.' && !(fl.pathname && e == '/')
    requires !Takes(ts[1], e, fl) || !Read(ts[2..], "." + q, fl, false, AsCoded)
    ensures Betrays(ts, [e] + ("." + q), fl)
  {
    hide Read, Spells, Singles, Touchy, Takes, IsCString, Accepts, NoSlash;
    var x := "." + q;
    var r := [e] + x;
    FirstStarSpelled(ts, q, fl);
    ByteWord(e, fl);
    CStringParts([e], x);
    assert r[..1] == [e] && r[1..] == x && r[0..] == r && x[1..] == q;
    StarGuard(r, fl);
    ReadCons(ts, r, fl, true, AsMeant, 1);
    forall start ensures !Read(ts, r, fl, start, AsCoded) {
      if Read(ts, r, fl, start, AsCoded) {
        var k := ReadFirst(ts, r, fl, start, AsCoded);
        ReadLength(ts[1..], r[k..], fl, true, AsCoded);
        if k == 0 {
          FirstTaken(ts[1..], r, fl);
        } else {
          TouchyRefuses(ts[1..], x, fl, AsCoded);
        }
      }
    }
  }

  /** The reading of one byte, at the code's start behind a '*'. */
  lemma FirstTaken(us: seq<Token>, r: string, fl: Flags)
    requires us != [] && Touchy(us[0]) && Read(us, r, fl, true, AsCoded)
    ensures r != "" && Takes(us[0], r[0], fl) && Read(us[1..], r[1..], fl, false, AsCoded)
  {
    hide Read, Takes, InBracket;
    var l := ReadFirst(us, r, fl, true, AsCoded);
    WordIsByte(us[0], r, l, fl);
  }

  lemma ByteWord(e: char, fl: Flags)
    requires IsByte(e) && !(fl.pathname && e == '/')
    ensures Accepts(Star, [e], fl) && IsCString([e])
  {
  }

  lemma FirstStarSpelled(ts: seq<Token>, q: string, fl: Flags)
    requires NoSlash(ts, fl) && Touches(ts, 0) && Spells(ts[2..], q, fl) && IsCString(q)
    ensures Read(ts[1..], "." + q, fl, false, AsMeant) && IsCString("." + q) && |q| + 1 == Singles(ts[1..])
    ensures ts[1..][1..] == ts[2..] && !Anew(ts[0], fl, AsMeant)
  {
    hide Read, Takes, IsCString, Touchy;
    var us, x := ts[1..], "." + q;
    assert us[1..] == ts[2..] && x[1..] == q;
    TouchyTakesDot(us[0], fl);
    TouchyIsSingle(us[0]);
    SpelledIsMeant(us, x, fl);
    SpellsLength(us, x, fl);
    DotIsByte();
    CStringParts(".", q);
  }

  lemma TouchyIsSingle(t: Token)
    requires Touchy(t)
    ensures !t.Star? && !IsSlash(t)
  {
  }

  /** Tokens in front of the first '*' each read the byte in their place. */
  lemma {:induction false} InPlace(ts: seq<Token>, m: nat, s: string, fl: Flags, start: bool, how: Reading)
    requires m < |ts| && (forall i :: 0 <= i <= m ==> !ts[i].Star?) && Read(ts, s, fl, start, how)
    ensures m < |s| && Takes(ts[m], s[m], fl)
    decreases m
  {
    hide Read, Takes, Accepts, Guard;
    var k := ReadFirst(ts, s, fl, start, how);
    WordIsByte(ts[0], s, k, fl);
    if m > 0 { InPlace(ts[1..], m - 1, s[1..], fl, Anew(ts[0], fl, how), how); }
  }

  lemma {:induction false} SinglesOfPrefix(ts: seq<Token>, m: nat)
    requires m <= |ts| && forall i :: 0 <= i < m ==> !ts[i].Star?
    ensures Singles(ts[..m]) == m
  {
    hide Singles;
    SinglesStep(ts[..m]);
    if m > 0 {
      assert ts[..m][1..] == ts[1..][..m - 1];
      SinglesOfPrefix(ts[1..], m - 1);
    }
  }

  lemma {:induction false} StarFreeLength(ts: seq<Token>, s: string, fl: Flags, start: bool, how: Reading)
    requires (forall i :: 0 <= i < |ts| ==> !ts[i].Star?) && Read(ts, s, fl, start, how)
    ensures |s| == |ts|
    decreases |ts|
  {
    hide Read, Guard, Accepts;
    if ts == [] {
      ReadEnd(s, fl, start, how);
    } else {
      var k := ReadFirst(ts, s, fl, start, how);
      StarFreeLength(ts[1..], s[k..], fl, Anew(ts[0], fl, how), how);
    }
  }

  function NextStar(ts: seq<Token>): (n: nat)
    ensures n <= |ts| && (n < |ts| ==> ts[n].Star?) && forall i :: 0 <= i < n ==> !ts[i].Star?
  {
    if ts == [] || ts[0].Star? then 0
    else
      var n := NextStar(ts[1..]);
      assert forall i :: 0 < i < 1 + n ==> ts[i] == ts[1..][i - 1];
      1 + n
  }

  /** Unless there is a '*' to slide up to: a spelling that the code does not read with a period in front. */
  lemma {:induction false} Stuck(tail: seq<Token>, q: string, fl: Flags) returns (q': string)
    requires Spells(tail, q, fl) && IsCString(q)
    requires NextStar(tail) == |tail| || !Slides(tail[..NextStar(tail)], fl)
    ensures Spells(tail, q', fl) && IsCString(q') && !Read(tail, "." + q', fl, false, AsCoded)
  {
    hide Read, Spells, Singles, Takes, NextStar;
    var n := NextStar(tail);
    q' := q;
    if n == |tail| {
      assert tail[..n] == tail;
      SinglesOfPrefix(tail, n);
      SpellsLength(tail, q, fl);
      if Read(tail, "." + q, fl, false, AsCoded) { StarFreeLength(tail, "." + q, fl, false, AsCoded); }
    } else {
      var c := tail[..n];
      if c != [] && !Takes(c[0], '.', fl) {
        if Read(tail, "." + q, fl, false, AsCoded) { InPlace(tail, 0, "." + q, fl, false, AsCoded); }
      } else {
        var k :| 0 <= k < k + 1 < n && !Within(c[k], c[k + 1], fl);
        q' := StuckAt(tail, k, q, fl);
      }
    }
  }

  lemma {:induction false} StuckAt(tail: seq<Token>, k: nat, q: string, fl: Flags) returns (q': string)
    requires Spells(tail, q, fl) && IsCString(q) && k + 1 < |tail| && !Within(tail[k], tail[k + 1], fl)
    requires forall i :: 0 <= i <= k + 1 ==> !tail[i].Star?
    ensures Spells(tail, q', fl) && IsCString(q') && !Read(tail, "." + q', fl, false, AsCoded)
  {
    hide Read, Spells, Singles, Takes;
    var g: char :| IsByte(g) && Takes(tail[k], g, fl) && !Takes(tail[k + 1], g, fl);
    assert tail == tail[..k] + [tail[k]] + tail[k + 1..];
    SinglesOfPrefix(tail, k);
    Respell(tail[..k], tail[k], tail[k + 1..], q, g, fl);
    q' := q[k := g];
    assert ("." + q')[k + 1] == g;
    if Read(tail, "." + q', fl, false, AsCoded) { InPlace(tail, k + 1, "." + q', fl, false, AsCoded); }
  }

  lemma {:induction false} FirstStarWitness(ts: seq<Token>, s: string, fl: Flags) returns (r: string)
    requires fl.period && NoSlash(ts, fl) && Touches(ts, 0) && !Excused(ts, fl, 0)
    requires Read(ts, s, fl, true, AsMeant) && IsCString(s)
    ensures Betrays(ts, r, fl)
  {
    hide Read, Spells, Touchy, Takes, Slides, Betrays, NextStar, NoSlash;
    var tail := ts[2..];
    var r0 := SpellOf(ts, s, fl, true, AsMeant);
    var q := TailSpelled(ts, r0, fl);
    TouchyTakesDot(ts[1], fl);
    if e: char :| IsByte(e) && !(fl.pathname && e == '/') && !Takes(ts[1], e, fl) {
      FirstStarBetrays(ts, e, q, fl);
      r := [e] + ("." + q);
    } else {
      var j := 2 + NextStar(tail);
      assert ts[2..j] == tail[..NextStar(tail)];
      assert !SlidesUpTo(ts, fl, 0, j);
      var q' := Stuck(tail, q, fl);
      FirstStarBetrays(ts, 'a', q', fl);
      r := "a" + ("." + q');
    }
  }

  lemma TailSpelled(ts: seq<Token>, r: string, fl: Flags) returns (q: string)
    requires Touches(ts, 0) && Spells(ts, r, fl) && IsCString(r)
    ensures Spells(ts[2..], q, fl) && IsCString(q)
  {
    hide Takes, InBracket;
    q := r[1..];
    assert ts[1..][1..] == ts[2..];
    TouchyIsSingle(ts[1]);
  }

  /** Between slashes every '*' that is not excused is betrayed. */
  lemma {:induction false} SegmentBetrayed(ts: seq<Token>, s: string, fl: Flags) returns (r: string)
    requires fl.period && NoSlash(ts, fl) && NoDoubleStar(ts) && !StarsSafe(ts, fl)
    requires Read(ts, s, fl, true, AsMeant) && IsCString(s)
    ensures Betrays(ts, r, fl)
  {
    hide Read, Touches, Excused, Betrays, NoDoubleStar, NoSlash;
    var i: nat :| Touches(ts, i) && !Excused(ts, fl, i);
    if i > 0 {
      r := LaterStarBetrays(ts, i, s, fl);
    } else {
      r := FirstStarWitness(ts, s, fl);
    }
  }

  // ---------- and sufficient ----------

  /** Without a '*' in front of a touchy token the code reads what is meant. */
  lemma {:induction false} UntouchedRead(ts: seq<Token>, s: string, fl: Flags, start: bool, start': bool)
    requires Read(ts, s, fl, start, AsMeant) && NoDoubleStar(ts) && (forall i: nat :: !Touches(ts, i))
    requires start' ==> start || Harmless(ts)
    ensures Read(ts, s, fl, start', AsCoded)
    decreases |ts|
  {
    hide Guard, Accepts, Touchy, Read;
    if ts == [] {
      ReadEnd(s, fl, start, AsMeant);
      ReadEnd(s, fl, start', AsCoded);
    } else {
      var k := ReadFirst(ts, s, fl, start, AsMeant);
      GuardHarmless(ts, s, fl, start, start', k);
      UntouchedTail(ts);
      UntouchedRead(ts[1..], s[k..], fl, Anew(ts[0], fl, AsMeant), Anew(ts[0], fl, AsCoded));
      ReadCons(ts, s, fl, start', AsCoded, k);
    }
  }

  lemma UntouchedTail(ts: seq<Token>)
    requires ts != [] && NoDoubleStar(ts) && forall i: nat :: !Touches(ts, i)
    ensures NoDoubleStar(ts[1..]) && (forall i: nat :: !Touches(ts[1..], i)) && (ts[0].Star? ==> Harmless(ts[1..]))
  {
    hide Touchy;
    assert !Touches(ts, 0);
    forall i: nat ensures !Touches(ts[1..], i) { assert !Touches(ts, i + 1); }
  }

  /** One more byte in front, if the first token takes it: all move left by one, and the '*' takes what is left. */
  lemma {:induction false} Shift(c: seq<Token>, rest: seq<Token>, d: char, x: string, fl: Flags)
    requires NoSlash(c, fl) && IsCString(x) && Read(c + [Star] + rest, x, fl, false, AsMeant)
    requires (forall i, j :: 0 <= i < j < |c| && j == i + 1 ==> Within(c[i], c[j], fl)) &&
             (c != [] ==> Takes(c[0], d, fl))
    requires !(fl.pathname && d == '/')
    ensures Read(c + [Star] + rest, [d] + x, fl, false, AsMeant)
    decreases |c|
  {
    hide Read, Accepts, NoSlash, Within;
    var ts, s := c + [Star] + rest, [d] + x;
    var k := ReadFirst(ts, x, fl, false, AsMeant);
    if c == [] {
      assert s[..k + 1] == [d] + x[..k] && s[k + 1..] == x[k..];
      StarTakesMore(d, x[..k], fl);
      ReadCons(ts, s, fl, false, AsMeant, k + 1);
    } else {
      ShiftStep(c, rest, x, fl, k);
      assert ts[1..] == c[1..] + [Star] + rest;
      Shift(c[1..], rest, x[0], x[1..], fl);
      assert [x[0]] + x[1..] == x && s[1..] == x;
      ByteIsWord(c[0], s, fl);
      ReadCons(ts, s, fl, false, AsMeant, 1);
    }
  }

  lemma StarTakesMore(d: char, w: string, fl: Flags)
    requires Accepts(Star, w, fl) && !(fl.pathname && d == '/')
    ensures Accepts(Star, [d] + w, fl)
  {
  }

  lemma ShiftStep(c: seq<Token>, rest: seq<Token>, x: string, fl: Flags, k: nat)
    requires c != [] && NoSlash(c, fl) && IsCString(x) && k <= |x| && !c[0].Star? && Accepts(c[0], x[..k], fl)
    requires forall i, j :: 0 <= i < j < |c| && j == i + 1 ==> Within(c[i], c[j], fl)
    ensures k == 1 && !(fl.pathname && x[0] == '/') && (|c| > 1 ==> Takes(c[1], x[0], fl)) && NoSlash(c[1..], fl)
    ensures !Anew(c[0], fl, AsMeant)
  {
    hide Takes, Accepts;
    WordIsByte(c[0], x, k, fl);
    if fl.pathname { WordOfToken(c[0], x[..k], fl); }
    assert x[..1][0] == x[0];
    if |c| > 1 { assert Within(c[0], c[1], fl); }
  }

  /** The tokens behind the touchy one slide left over periods, up to a byte that is none. */
  lemma {:induction false} SlideLeft(c: seq<Token>, rest: seq<Token>, s: string, q: nat, fl: Flags) returns (q': nat)
    requires NoSlash(c, fl) && Slides(c, fl) && IsCString(s) && q < |s| && s[0] != '.'
    requires Read(c + [Star] + rest, s[q + 1..], fl, false, AsMeant)
    ensures q' <= q && s[q'] != '.' && Read(c + [Star] + rest, s[q' + 1..], fl, false, AsMeant)
  {
    hide Read, Takes, NoSlash;
    if s[q] != '.' {
      q' := q;
    } else {
      assert [s[q]] + s[q + 1..] == s[q..];
      Shift(c, rest, '.', s[q + 1..], fl);
      q' := SlideLeft(c, rest, s, q - 1, fl);
    }
  }

  /** An excused first '*': the reading with the touchy token on a byte that is no period. */
  lemma {:induction false} ExcusedRead(ts: seq<Token>, j: nat, s: string, fl: Flags, start: bool)
    requires fl.period && NoSlash(ts, fl) && NoDoubleStar(ts) && Touches(ts, 0) && SlidesUpTo(ts, fl, 0, j)
    requires (forall i: nat :: i > 0 ==> !Touches(ts, i)) && Read(ts, s, fl, true, AsMeant) && IsCString(s)
    ensures Read(ts, s, fl, start, AsCoded)
  {
    hide Read, Takes, Accepts, Touchy, Slides, NoDoubleStar;
    var c, rest, tail := ts[2..j], ts[j + 1..], ts[2..];
    assert tail == c + [Star] + rest && ts[1..][1..] == tail;
    TouchyIsSingle(ts[1]);
    var k := ReadFirst(ts, s, fl, true, AsMeant);
    var l := ReadFirst(ts[1..], s[k..], fl, false, AsMeant);
    assert s[k..][1..] == s[k + 1..];
    StarMeansNoDot(s, fl);
    var q := SlideLeft(c, rest, s, k, fl);
    TailUntouched(ts);
    UntouchedRead(tail, s[q + 1..], fl, false, false);
    if fl.pathname { SegmentText(ts, s, fl, true, AsMeant); }
    CodedFrom(ts, s, q, fl, start);
  }

  lemma StarMeansNoDot(s: string, fl: Flags)
    requires fl.period && Guard(Star, s, fl, true)
    ensures s != "" ==> s[0] != '.'
  {
  }

  lemma TailUntouched(ts: seq<Token>)
    requires |ts| >= 2 && NoDoubleStar(ts) && forall i: nat :: i > 0 ==> !Touches(ts, i)
    ensures NoDoubleStar(ts[2..]) && forall i: nat :: !Touches(ts[2..], i)
  {
    hide Touchy;
    forall i: nat ensures !Touches(ts[2..], i) { assert !Touches(ts, i + 2); }
  }

  lemma CodedFrom(ts: seq<Token>, s: string, q: nat, fl: Flags, start: bool)
    requires fl.period && Touches(ts, 0) && TakesAll(ts[1], fl) && q < |s| && s[q] != '.' && s[0] != '.' && IsCString(s)
    requires (fl.pathname ==> '/' !in s) && Read(ts[2..], s[q + 1..], fl, false, AsCoded)
    ensures Read(ts, s, fl, start, AsCoded)
  {
    hide Read, Takes, InBracket;
    var us, x := ts[1..], s[q..];
    assert us[1..] == ts[2..] && x[1..] == s[q + 1..] && x[0] == s[q] && IsByte(s[q]);
    ByteIsWord(us[0], x, fl);
    ReadCons(us, x, fl, true, AsCoded, 1);
    ReadCons(ts, s, fl, start, AsCoded, q);
  }

  lemma {:induction false} SegmentKept(ts: seq<Token>, s: string, fl: Flags, start: bool)
    requires fl.period && NoSlash(ts, fl) && NoDoubleStar(ts) && StarsSafe(ts, fl)
    requires Read(ts, s, fl, true, AsMeant) && IsCString(s)
    ensures Read(ts, s, fl, start, AsCoded)
  {
    hide Read, Touches, SlidesUpTo, NoDoubleStar;
    assert forall i: nat :: i > 0 ==> !Touches(ts, i);
    if Touches(ts, 0) {
      assert Excused(ts, fl, 0);
      var j: nat :| SlidesUpTo(ts, fl, 0, j);
      ExcusedRead(ts, j, s, fl, start);
    } else {
      UntouchedRead(ts, s, fl, true, start);
    }
  }
}
