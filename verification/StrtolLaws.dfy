/** Bases, prefixes and signs: what strtol makes of the forms of a number. */
module StrtolLaws {
  import opened Memory
  import opened Numerals

  predicate IsSign(sign: string) { sign == "" || sign == "-" || sign == "+" }

  /** The number with its sign, as a 32-bit long keeps it. */
  function Signed32(sign: string, v: int): int { if sign == "-" then Wrap(-Wrap(v)) else Wrap(v) }

  /** A digit or nothing that could be taken for a sign or a blank. */
  predicate PlainFront(u: string) { u == "" || (!IsSpace(u[0]) && u[0] != '-' && u[0] != '+') }

  lemma SignFront(sign: string, u: string)
    requires IsSign(sign) && PlainFront(u)
    ensures sign + u == "" || !IsSpace((sign + u)[0])
    ensures AfterSign(sign + u) == u && (sign == "-" <==> sign + u != "" && (sign + u)[0] == '-')
  {
    if sign == "" { assert sign + u == u; } else { assert (sign + u)[1..] == u; }
  }

  /** Behind blanks and a sign: the digits of the base that the prefix chooses. */
  lemma {:induction false} StrtolForm(ws: string, sign: string, u: string, base: int, b: int, ds: string, tail: string)
    requires Blank(ws) && IsSign(sign) && PlainFront(u)
    requires BaseOf(u, base) == b && AfterPrefix(u, base) == ds + tail
    requires AllDigits(ds, b) && (tail == "" || !IsDigitOf(tail[0], b))
    ensures
      var s := ws + (sign + u);
      Strtol(s, base) == (Signed32(sign, Value(ds, b)), if ds == "" then s else tail)
  {
    hide Value, Wrap, RunLength, SkipSpaces, BaseOf, AfterPrefix, AfterSign, AllDigits, IsDigitOf;
    SignFront(sign, u);
    SkipBlankPrefix(ws, sign + u);
    RunOfDigits(ds, tail, b);
  }

  lemma DigitFront(ds: string, base: int, tail: string)
    requires ds != "" && AllDigits(ds, base)
    ensures PlainFront(ds + tail) && (ds + tail)[0] == ds[0]
  {
    hide Value;
    FirstIsDigit(ds, base);
  }

  /** "0x" or "0X" in front means base 16, in base 0 and in base 16; alone it is no number, not even 0. */
  lemma {:induction false} HexForm(ws: string, sign: string, x: char, ds: string, tail: string, base: int)
    requires Blank(ws) && IsSign(sign) && (x == 'x' || x == 'X') && (base == 0 || base == 16)
    requires AllDigits(ds, 16) && (tail == "" || !IsDigitOf(tail[0], 16))
    ensures
      var s := ws + (sign + ("0" + [x] + (ds + tail)));
      Strtol(s, base) == (Signed32(sign, Value(ds, 16)), if ds == "" then s else tail)
  {
    hide Value, Strtol, Signed32, AllDigits, IsDigitOf;
    var u := "0" + [x] + (ds + tail);
    assert u[0] == '0' && u[1] == x && u[2..] == ds + tail;
    StrtolForm(ws, sign, u, base, 16, ds, tail);
  }

  /** A leading "0" means base 8 in base 0. */
  lemma {:induction false} OctalForm(ws: string, sign: string, ds: string, tail: string)
    requires Blank(ws) && IsSign(sign) && AllDigits(ds, 8)
    requires tail == "" || (!IsDigitOf(tail[0], 8) && (ds == "" ==> tail[0] != 'x' && tail[0] != 'X'))
    ensures Strtol(ws + (sign + ("0" + ds + tail)), 0) == (Signed32(sign, Value(ds, 8)), tail)
  {
    hide Value, Strtol, Signed32;
    var u, os := "0" + ds + tail, "0" + ds;
    assert u == os + tail && u[0] == '0';
    if ds != "" { assert u[1] == ds[0] && IsDigitOf(ds[0], 8); } else if tail != "" { assert u[1] == tail[0]; }
    assert AllDigits(os, 8);
    StrtolForm(ws, sign, u, 0, 8, os, tail);
    ValueOfZeros("0", ds, 8);
  }

  /** Anything else is decimal in base 0, as it is in base 10. */
  lemma {:induction false} DecimalForm(ws: string, sign: string, ds: string, tail: string, base: int)
    requires Blank(ws) && IsSign(sign) && ds != "" && AllDigits(ds, 10) && (tail == "" || !IsDigitOf(tail[0], 10))
    requires base == 10 || (base == 0 && ds[0] != '0')
    ensures Strtol(ws + (sign + (ds + tail)), base) == (Signed32(sign, Value(ds, 10)), tail)
  {
    hide Value, Strtol, Signed32, AllDigits, IsDigitOf;
    DigitFront(ds, 10, tail);
    StrtolForm(ws, sign, ds + tail, base, 10, ds, tail);
  }

  /** A '+' changes nothing, and a '-' negates. */
  lemma {:induction false} SignsMean(ws: string, ds: string, tail: string, base: nat)
    requires Blank(ws) && 2 <= base <= 36 && base != 16 && ds != "" && AllDigits(ds, base)
    requires tail == "" || !IsDigitOf(tail[0], base)
    ensures
      var (v, rest) := Strtol(ws + (ds + tail), base);
      && v == Wrap(Value(ds, base)) && rest == tail
      && Strtol(ws + ("+" + (ds + tail)), base) == (v, rest)
      && Strtol(ws + ("-" + (ds + tail)), base) == (Wrap(-v), rest)
  {
    hide Value, Strtol, Wrap, AllDigits, IsDigitOf;
    DigitFront(ds, base, tail);
    StrtolForm(ws, "", ds + tail, base, base, ds, tail);
    StrtolForm(ws, "+", ds + tail, base, base, ds, tail);
    StrtolForm(ws, "-", ds + tail, base, base, ds, tail);
    assert "" + (ds + tail) == ds + tail;
  }

  /** Without a digit the value is 0 and nothing is consumed, blanks and sign included. */
  lemma {:induction false} NoNumber(ws: string, sign: string, u: string, base: nat)
    requires Blank(ws) && IsSign(sign) && PlainFront(u) && (base == 0 || 2 <= base <= 36)
    requires u == "" || !IsDigitOf(u[0], if base == 0 then 10 else base)
    ensures Strtol(ws + (sign + u), base) == (0, ws + (sign + u))
  {
    hide Value, Strtol, IsDigitOf;
    var b := if base == 0 then 10 else base;
    ZeroIsDigit(b);
    assert "" + u == u;
    StrtolForm(ws, sign, u, base, b, "", u);
    ValueOfNothing(b);
  }

  lemma ZeroIsDigit(base: nat)
    requires base >= 2
    ensures IsDigitOf('0', base)
  {
  }
}
