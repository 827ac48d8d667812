/** Digit strings and the numbers they denote, and the strtol that reads them. */
module Numerals {
  import opened Memory
  import opened CStrings

  /** A 32-bit `long` after arithmetic: two's complement, wrapping. */
  function Wrap(x: int): (v: int)
    ensures -0x8000_0000 <= v < 0x8000_0000
  {
    Signed(x % TWO32)
  }

  predicate IsInt(x: int) { -0x8000_0000 <= x < 0x8000_0000 }

  predicate IsSpace(c: char)
  {
    c == ' ' || c == '\t' || c == '\n' || c == '\r' || c == '\U{0C}' || c == '\U{0B}'
  }

  // ---------- digits ----------

  function DigitChar(d: nat, upper: bool): char
    requires d < 36
  {
    if d < 10 then '0' + d as char else (if upper then 'A' else 'a') + (d - 10) as char
  }

  /** The value of a digit in bases up to 36, or -1. */
  function DigitValue(c: char): int
  {
    if '0' <= c <= '9' then c as int - '0' as int
    else if 'a' <= c <= 'z' then c as int - 'a' as int + 10
    else if 'A' <= c <= 'Z' then c as int - 'A' as int + 10
    else -1
  }

  predicate IsDigitOf(c: char, base: int) { 0 <= DigitValue(c) < base }

  predicate AllDigits(s: string, base: int)
  {
    forall i :: 0 <= i < |s| ==> IsDigitOf(s[i], base)
  }

  lemma DivMod(v: nat, base: nat)
    requires base >= 2
    ensures v == v / base * base + v % base && 0 <= v % base < base && 0 <= v / base <= v
    ensures v >= base ==> 0 < v / base < v
    ensures v < base ==> v / base == 0
  {
    var q, r := v / base, v % base;
    assert v == q * base + r;
    if q >= 1 { assert q * base >= q * 2; }
  }

  /** `v` written in `base`, most significant digit first. */
  function Digits(v: nat, base: nat, upper: bool): (r: string)
    requires 2 <= base <= 36
    ensures r != ""
  {
    DivMod(v, base);
    (if v < base then "" else Digits(v / base, base, upper)) + [DigitChar(v % base, upper)]
  }

  /** What one division contributes to the digits still owed. */
  lemma DigitsStep(u: nat, base: nat, upper: bool, suffix: string)
    requires 2 <= base <= 36
    ensures u % base < 36
    ensures Digits(u, base, upper) + suffix ==
            (if u / base == 0 then "" else Digits(u / base, base, upper)) + ([DigitChar(u % base, upper)] + suffix)
  {
    hide DigitChar;
    DivMod(u, base);
    var init, c := if u < base then "" else Digits(u / base, base, upper), DigitChar(u % base, upper);
    assert init + [c] + suffix == init + ([c] + suffix);
  }

  /** The number a digit string denotes. */
  function Value(s: string, base: int): int
  {
    if s == "" then 0 else Value(s[..|s| - 1], base) * base + DigitValue(s[|s| - 1])
  }

  lemma DigitCharValue(d: nat, upper: bool)
    requires d < 36
    ensures DigitValue(DigitChar(d, upper)) == d
  {
  }

  lemma ZeroDigits(base: nat, upper: bool)
    requires 2 <= base <= 36
    ensures Digits(0, base, upper) == "0"
  {
  }

  lemma ValueOfNothing(base: int)
    ensures Value("", base) == 0
  {
  }

  lemma ValueOfLast(s: string, c: char, base: int, v: int)
    requires Value(s, base) == v
    ensures Value(s + [c], base) == v * base + DigitValue(c)
  {
    assert (s + [c])[..|s|] == s;
  }

  lemma AllDigitsLast(s: string, c: char, base: int)
    requires AllDigits(s, base) && 0 <= DigitValue(c) < base
    ensures AllDigits(s + [c], base)
  {
    hide DigitValue;
  }

  /** Writing a number and reading its digits back. */
  lemma {:induction false} ValueOfDigits(v: nat, base: nat, upper: bool)
    requires 2 <= base <= 36
    ensures AllDigits(Digits(v, base, upper), base) && Value(Digits(v, base, upper), base) == v
  {
    hide Value, DigitChar, DigitValue;
    DivMod(v, base);
    DigitCharValue(v % base, upper);
    var init, c := if v < base then "" else Digits(v / base, base, upper), DigitChar(v % base, upper);
    if v >= base { ValueOfDigits(v / base, base, upper); } else { ValueOfNothing(base); }
    ValueOfLast(init, c, base, v / base);
    AllDigitsLast(init, c, base);
  }

  predicate IsDigitIn(c: char, upper: bool) { '0' <= c <= '9' || (if upper then 'A' <= c <= 'Z' else 'a' <= c <= 'z') }

  /** Letters of one case only, and no leading zero unless the number is zero. */
  lemma {:induction false} DigitsShape(v: nat, base: nat, upper: bool)
    requires 2 <= base <= 36
    ensures forall i :: 0 <= i < |Digits(v, base, upper)| ==> IsDigitIn(Digits(v, base, upper)[i], upper)
    ensures Digits(v, base, upper)[0] == '0' <==> v == 0
    ensures v == 0 ==> |Digits(v, base, upper)| == 1
  {
    hide IsDigitIn;
    DivMod(v, base);
    DigitShape(v % base, upper);
    if v >= base { DigitsShape(v / base, base, upper); }
  }

  lemma DigitShape(d: nat, upper: bool)
    requires d < 36
    ensures IsDigitIn(DigitChar(d, upper), upper) && (DigitChar(d, upper) == '0' <==> d == 0)
  {
  }

  /** Leading zeros do not count. */
  lemma {:induction false} ValueOfZeros(z: string, s: string, base: int)
    requires forall i :: 0 <= i < |z| ==> z[i] == '0'
    ensures Value(z + s, base) == Value(s, base)
  {
    var t := z + s;
    if s != "" {
      assert t[..|t| - 1] == z + s[..|s| - 1] && t[|t| - 1] == s[|s| - 1];
      ValueOfZeros(z, s[..|s| - 1], base);
    } else if z != "" {
      assert t[..|t| - 1] == z[..|z| - 1] + "";
      ValueOfZeros(z[..|z| - 1], "", base);
    }
  }

  // ---------- strtol ----------

  function SkipSpaces(s: string): (r: string)
    ensures |r| <= |s| && r == s[|s| - |r|..] && (r == "" || !IsSpace(r[0]))
  {
    if s != "" && IsSpace(s[0]) then SkipSpaces(s[1..]) else s
  }

  predicate IsHexPrefix(s: string) { |s| >= 2 && s[0] == '0' && (s[1] == 'x' || s[1] == 'X') }

  function BaseOf(s: string, base: int): int
  {
    if (base == 0 || base == 16) && IsHexPrefix(s) then 16
    else if base == 0 then (if s != "" && s[0] == '0' then 8 else 10)
    else base
  }

  function AfterSign(s: string): string { if s != "" && (s[0] == '-' || s[0] == '+') then s[1..] else s }

  function AfterPrefix(s: string, base: int): string
  {
    if (base == 0 || base == 16) && IsHexPrefix(s) then s[2..] else s
  }

  /** How many digits of the base lead the string. */
  function RunLength(s: string, base: int): (n: nat)
    ensures n <= |s| && AllDigits(s[..n], base) && (n == |s| || !IsDigitOf(s[n], base))
  {
    if s != "" && IsDigitOf(s[0], base) then
      var n := RunLength(s[1..], base);
      assert s[..1 + n] == [s[0]] + s[1..][..n];
      1 + n
    else 0
  }

  /** strtol's value and where it stops: the number denoted by the longest digit run, or nothing consumed. */
  function Strtol(s: string, base: int): (r: (int, string))
  {
    var t := SkipSpaces(s);
    var u := AfterSign(t);
    var b := BaseOf(u, base);
    var d := AfterPrefix(u, base);
    var n := RunLength(d, b);
    var v := Wrap(Value(d[..n], b));
    (if t != "" && t[0] == '-' then Wrap(-v) else v, if n == 0 then s else d[n..])
  }

  lemma WrapStep(a: int, b: int, d: int)
    ensures Wrap(Wrap(a) * b + d) == Wrap(a * b + d)
  {
    var w := Wrap(a);
    var q := (a - w) / TWO32;
    assert a == w + TWO32 * q;
    assert a * b + d == w * b + d + TWO32 * (q * b) by { assert (w + TWO32 * q) * b == w * b + TWO32 * (q * b); }
    WrapShift(w * b + d, q * b);
  }

  lemma WrapShift(x: int, q: int)
    ensures Wrap(x + TWO32 * q) == Wrap(x)
  {
    assert (x + TWO32 * q) % TWO32 == x % TWO32;
  }

  /** A number of 32 bits survives the detour through its magnitude or its unsigned form. */
  lemma ReadBack(value: int, neg: bool, v: nat)
    requires IsInt(value) && v == (if neg then -value else value % TWO32) && (neg ==> value < 0)
    ensures (if neg then Wrap(-Wrap(v)) else Wrap(v)) == value
  {
  }

  lemma SignBack(v: int)
    requires IsInt(v)
    ensures (if v < 0 then Wrap(-Wrap(-v)) else Wrap(v)) == v
  {
    hide Wrap;
    WrapOfInt(v);
    WrapOfInt(-v);
    WrapOfTop();
  }

  lemma WrapOfInt(x: int)
    ensures IsInt(x) ==> Wrap(x) == x
  {
  }

  lemma WrapOfTop()
    ensures Wrap(0x8000_0000) == -0x8000_0000
  {
  }

  lemma RunStep(s: string, base: int)
    requires s != ""
    ensures RunLength(s, base) == if IsDigitOf(s[0], base) then 1 + RunLength(s[1..], base) else 0
  {
  }

  lemma RunNone(base: int)
    ensures RunLength("", base) == 0
  {
  }

  lemma ValueStep(s: string, n: nat, base: int)
    requires n < |s|
    ensures Value(s[..n + 1], base) == Value(s[..n], base) * base + DigitValue(s[n])
    ensures Value(s[..0], base) == 0
  {
    assert s[..n + 1][..n] == s[..n] && s[..n + 1][n] == s[n];
  }

  /** The digit loop of strtol. */
  method ReadDigits(start: string, base: int) returns (val: int, s: string)
    ensures val == Wrap(Value(start[..RunLength(start, base)], base)) && s == start[RunLength(start, base)..]
  {
    hide Value, Wrap, RunLength, IsDigitOf;
    val, s := 0, start;
    ghost var n := 0;
    NoDigits(base);
    assert start[..0] == "";
    while s != ""
      invariant 0 <= n <= |start| && s == start[n..] && val == Wrap(Value(start[..n], base))
      invariant RunLength(start, base) == n + RunLength(s, base)
      decreases |s|
    {
      RunStep(s, base);
      DigitTest(s[0], base);
      var digit;
      if '0' <= s[0] <= '9' {
        digit := s[0] as int - '0' as int;
      } else if 'a' <= s[0] <= 'z' {
        digit := s[0] as int - 'a' as int + 10;
      } else if 'A' <= s[0] <= 'Z' {
        digit := s[0] as int - 'A' as int + 10;
      } else {
        return;
      }
      if digit >= base { return; }
      ValueStep(start, n, base);
      WrapStep(Value(start[..n], base), base, digit);
      val := Wrap(val * base + digit);
      s, n := s[1..], n + 1;
    }
    RunNone(base);
  }

  lemma DigitTest(c: char, base: int)
    ensures IsDigitOf(c, base) <==> 0 <= DigitValue(c) && DigitValue(c) < base
  {
  }

  lemma NoDigits(base: int)
    ensures Wrap(Value("", base)) == 0
  {
  }

  /** The decimal number in front, as the width and precision loops of printf and scanf read it. */
  method ReadDecimal(f: string) returns (v: int, g: string)
    ensures v == Value(f[..RunLength(f, 10)], 10) && g == f[RunLength(f, 10)..]
  {
    hide Value, RunLength;
    v, g := 0, f;
    ghost var n := 0;
    assert f[..0] == "";
    ValueOfNothing(10);
    while g != "" && '0' <= g[0] <= '9'
      invariant 0 <= n <= |f| && g == f[n..] && v == Value(f[..n], 10)
      invariant RunLength(f, 10) == n + RunLength(g, 10)
      decreases |g|
    {
      RunStep(g, 10);
      ValueStep(f, n, 10);
      v := v * 10 + (g[0] as int - '0' as int);
      g, n := g[1..], n + 1;
    }
    if g == "" { RunNone(10); } else { RunStep(g, 10); }
  }

  method SkipBlanks(nptr: string) returns (s: string)
    ensures s == SkipSpaces(nptr)
  {
    s := nptr;
    while s != "" && IsSpace(s[0])
      invariant SkipSpaces(s) == SkipSpaces(nptr)
      decreases |s|
    {
      s := s[1..];
    }
  }

  /** The base strtol settles on, and the digits behind a "0x". */
  method ChooseBase(s: string, base: int) returns (b: int, rest: string)
    ensures b == BaseOf(s, base) && rest == AfterPrefix(s, base)
  {
    b, rest := base, s;
    if (b == 0 || b == 16) && At(s, 0) == '0' && (At(s, 1) == 'x' || At(s, 1) == 'X') {
      rest, b := s[2..], 16;
    }
    if b == 0 {
      b := if At(s, 0) == '0' then 8 else 10;
    }
  }

  method StrtolMethod(nptr: string, base: int) returns (r: int, end: string)
    ensures (r, end) == Strtol(nptr, base)
  {
    hide Value, Wrap, RunLength, SkipSpaces, BaseOf, AfterPrefix;
    var s := SkipBlanks(nptr);
    var negative := false;
    if At(s, 0) == '-' {
      negative := true;
      s := s[1..];
    } else if At(s, 0) == '+' {
      s := s[1..];
    }
    var b, start := ChooseBase(s, base);
    var val, rest := ReadDigits(start, b);
    end := if |rest| == |start| then nptr else rest;
    r := if negative then Wrap(-val) else val;
  }

  // ---------- reading back a printed number ----------

  predicate AllOf(s: string, c: char) { forall i :: 0 <= i < |s| ==> s[i] == c }

  predicate Blank(s: string) { forall i :: 0 <= i < |s| ==> IsSpace(s[i]) }

  lemma {:induction false} SkipBlankPrefix(ws: string, s: string)
    requires Blank(ws) && (s == "" || !IsSpace(s[0]))
    ensures SkipSpaces(ws + s) == s
  {
    if ws == "" {
      assert ws + s == s;
    } else {
      assert (ws + s)[1..] == ws[1..] + s;
      SkipBlankPrefix(ws[1..], s);
    }
  }

  lemma {:induction false} RunOfDigits(ds: string, tail: string, base: int)
    requires AllDigits(ds, base) && (tail == "" || !IsDigitOf(tail[0], base))
    ensures RunLength(ds + tail, base) == |ds|
    ensures (ds + tail)[..|ds|] == ds && (ds + tail)[|ds|..] == tail
  {
    if ds == "" {
      assert ds + tail == tail;
    } else {
      assert (ds + tail)[1..] == ds[1..] + tail;
      RunOfDigits(ds[1..], tail, base);
    }
  }

  /** Behind the blanks, a sign and a digit run: strtol finds the number and stops behind it. */
  lemma {:induction false} StrtolAt(s: string, neg: bool, ds: string, tail: string, base: nat)
    requires SkipSpaces(s) == (if neg then "-" else "") + (ds + tail) && 2 <= base <= 36
    requires ds != "" && AllDigits(ds, base) && (tail == "" || !IsDigitOf(tail[0], base))
    requires base == 16 ==> !IsHexPrefix(ds + tail)
    ensures Strtol(s, base) == (if neg then Wrap(-Wrap(Value(ds, base))) else Wrap(Value(ds, base)), tail)
  {
    hide Value, Wrap, RunLength, SkipSpaces, AllDigits, IsHexPrefix;
    var d, t := ds + tail, SkipSpaces(s);
    FirstIsDigit(ds, base);
    assert d[0] == ds[0];
    assert AfterSign(t) == d by {
      if neg { assert t[1..] == d; } else { assert t == d; }
    }
    RunOfDigits(ds, tail, base);
  }

  /** Blanks, a sign, zeros and digits, whatever follows. */
  lemma {:induction false} StrtolReads(ws: string, neg: bool, zeros: string, v: nat, base: nat, upper: bool,
                                       tail: string)
    requires Blank(ws) && AllOf(zeros, '0') && 2 <= base <= 36
    requires tail == "" || (!IsDigitOf(tail[0], base) && (base == 16 ==> tail[0] != 'x' && tail[0] != 'X'))
    ensures Strtol(ws + ((if neg then "-" else "") + (zeros + Digits(v, base, upper) + tail)), base) ==
            (if neg then Wrap(-Wrap(v)) else Wrap(v), tail)
  {
    hide Value, Wrap, RunLength, SkipSpaces, Digits, Strtol, IsHexPrefix;
    var ds := zeros + Digits(v, base, upper);
    var t := (if neg then "-" else "") + (ds + tail);
    DigitsWithZeros(zeros, v, base, upper);
    FirstIsDigit(ds, base);
    assert t[0] == if neg then '-' else ds[0];
    SkipBlankPrefix(ws, t);
    if base == 16 { NoHexPrefix(ds, tail); }
    StrtolAt(ws + t, neg, ds, tail, base);
  }

  lemma DigitsWithZeros(zeros: string, v: nat, base: nat, upper: bool)
    requires AllOf(zeros, '0') && 2 <= base <= 36
    ensures AllDigits(zeros + Digits(v, base, upper), base) && Value(zeros + Digits(v, base, upper), base) == v
    ensures zeros + Digits(v, base, upper) != ""
  {
    ValueOfDigits(v, base, upper);
    ValueOfZeros(zeros, Digits(v, base, upper), base);
  }

  lemma FirstIsDigit(ds: string, base: int)
    requires ds != "" && AllDigits(ds, base)
    ensures !IsSpace(ds[0]) && ds[0] != '-' && ds[0] != '+' && !IsSpace('-')
  {
    assert IsDigitOf(ds[0], base);
  }

  lemma NoHexPrefix(ds: string, tail: string)
    requires ds != "" && AllDigits(ds, 16) && (tail == "" || (tail[0] != 'x' && tail[0] != 'X'))
    ensures !IsHexPrefix(ds + tail)
  {
    if |ds| >= 2 { assert IsDigitOf(ds[1], 16); }
  }
}
