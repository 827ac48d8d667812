/** What vsnprintf would write into an unbounded buffer. */
module PrintfSpec {
  import opened Memory
  import opened Numerals

  datatype Arg = IntArg(v: int) | StrArg(s: string) | NullArg

  // ---------- text of one conversion ----------

  function Repeat(c: char, n: int): (r: string)
    ensures |r| == (if n > 0 then n else 0) && forall i :: 0 <= i < |r| ==> r[i] == c
  {
    if n <= 0 then "" else [c] + Repeat(c, n - 1)
  }

  /** Text padded with blanks to a width. */
  function Padded(s: string, width: int, left: bool): string
  {
    var pad := Repeat(' ', width - |s|);
    if left then s + pad else pad + s
  }

  /** A number padded with blanks or zeros; zeros go between the sign and the digits. */
  function NumText(val: nat, base: nat, upper: bool, width: int, zero: bool, neg: bool, left: bool): string
    requires 2 <= base <= 36
  {
    var ds := Digits(val, base, upper);
    var body := (if neg then "-" else "") + ds;
    var n := width - |body|;
    if left then body + Repeat(' ', n)
    else if zero then (if neg then "-" else "") + (Repeat('0', n) + ds)
    else Repeat(' ', n) + body
  }

  /** Without width or flags a number is its sign and digits. */
  lemma PlainNumber(val: nat, base: nat, upper: bool, neg: bool)
    requires 2 <= base <= 36
    ensures NumText(val, base, upper, 0, false, neg, false) == (if neg then "-" else "") + Digits(val, base, upper)
  {
    hide Digits;
    var body := (if neg then "-" else "") + Digits(val, base, upper);
    assert Repeat(' ', 0 - |body|) == "" && "" + body == body;
  }

  /** A conversion character directly behind the '%'. */
  lemma PlainSpec(c: char, rest: string, args: seq<Arg>)
    requires !IsFlag(c) && !IsLengthMod(c) && !IsDigitOf(c, 10) && c != '*' && c != '.'
    ensures ParseSpec([c] + rest, args) == Spec(false, false, 0, -1, c, rest, args)
  {
    var f := [c] + rest;
    assert FlagRun(f) == 0 && RunLength(f, 10) == 0 && LengthRun(f) == 0;
    assert f[0..] == f && f[..0] == "" && f[1..] == rest && Value("", 10) == 0;
  }

  // ---------- directives ----------

  predicate IsFlag(c: char) { c == '-' || c == '0' || c == '+' || c == ' ' || c == '#' }

  predicate IsLengthMod(c: char) { c == 'l' || c == 'h' || c == 'z' || c == 'j' || c == 't' }

  function FlagRun(f: string): (n: nat)
    ensures n <= |f|
  {
    if f != "" && IsFlag(f[0]) then 1 + FlagRun(f[1..]) else 0
  }

  function LengthRun(f: string): (n: nat)
    ensures n <= |f|
  {
    if f != "" && IsLengthMod(f[0]) then 1 + LengthRun(f[1..]) else 0
  }

  datatype Field = BadField | Field(value: int, rest: string, args: seq<Arg>)

  /** A width or precision: a '*' takes the next argument, otherwise decimal digits. It must fit an int. */
  function NumberField(f: string, args: seq<Arg>): (r: Field)
    ensures r.Field? ==> |r.rest| <= |f| && IsInt(r.value)
  {
    if f != "" && f[0] == '*' then
      if args != [] && args[0].IntArg? && IsInt(args[0].v)
      then Field(args[0].v, f[1..], args[1..]) else BadField
    else
      var n := RunLength(f, 10);
      var v := Value(f[..n], 10);
      if IsInt(v) then Field(v, f[n..], args) else BadField
  }

  datatype Spec = BadSpec | Spec(left: bool, zero: bool, width: int, precision: int, conv: char, rest: string,
                                 args: seq<Arg>)

  /** The directive behind a '%'. */
  function ParseSpec(f: string, args: seq<Arg>): (r: Spec)
    ensures r.Spec? ==> |r.rest| < |f|
  {
    var n := FlagRun(f);
    var minus, zero := '-' in f[..n], '0' in f[..n];
    match NumberField(f[n..], args)
    case BadField => BadSpec
    case Field(w, g, args1) =>
      var p := if g != "" && g[0] == '.' then NumberField(g[1..], args1) else Field(-1, g, args1);
      match p
      case BadField => BadSpec
      case Field(precision, h, args2) =>
        var k := h[LengthRun(h)..];
        if k == "" || w == -0x8000_0000 then BadSpec
        else Spec(minus || w < 0, zero && !minus, if w < 0 then -w else w, precision, k[0], k[1..], args2)
  }

  predicate TakesInt(c: char) { c == 'c' || c == 'd' || c == 'i' || c == 'u' || c == 'x' || c == 'X' || c == 'o' }

  predicate TakesArg(c: char) { TakesInt(c) || c == 's' }

  /** The directive's argument is there and of its type; %p and %f are outside this model. */
  predicate SpecOk(d: Spec)
  {
    && d.Spec? && d.conv != 'p' && d.conv != 'f'
    && (TakesInt(d.conv) ==> d.args != [] && d.args[0].IntArg?)
    && (d.conv == 's' ==> d.args != [] && !d.args[0].IntArg? && (d.args[0].StrArg? ==> |d.args[0].s| < 0x8000_0000))
    && (d.conv == 'd' || d.conv == 'i' ==> IsInt(d.args[0].v))
  }

  function Limited(s: string, precision: int): string
  {
    if 0 <= precision < |s| then s[..precision] else s
  }

  function Expand(d: Spec): string
    requires SpecOk(d)
  {
    if d.conv == 'c' then Padded([(d.args[0].v % 256) as char], d.width, d.left)
    else if d.conv == 's' then
      Padded(Limited(if d.args[0].StrArg? then d.args[0].s else "(null)", d.precision), d.width, d.left)
    else if d.conv == 'd' || d.conv == 'i' then
      var v := d.args[0].v;
      NumText(if v < 0 then -v else v, 10, false, d.width, d.zero, v < 0, d.left)
    else if TakesInt(d.conv) then
      var base := if d.conv == 'u' then 10 else if d.conv == 'o' then 8 else 16;
      NumText(d.args[0].v % TWO32, base, d.conv == 'X', d.width, d.zero, false, d.left)
    else [d.conv]
  }

  function ArgsAfter(d: Spec): seq<Arg>
    requires SpecOk(d)
  {
    if TakesArg(d.conv) then d.args[1..] else d.args
  }

  // ---------- formats ----------

  predicate WellFormed(f: string, args: seq<Arg>)
    decreases |f|
  {
    if f == "" then true
    else if f[0] != '%' then WellFormed(f[1..], args)
    else if |f| == 1 then true
    else if f[1] == '%' then WellFormed(f[2..], args)
    else
      var d := ParseSpec(f[1..], args);
      SpecOk(d) && WellFormed(d.rest, ArgsAfter(d))
  }

  /** The whole output; a '%' that ends the format writes nothing. */
  function Render(f: string, args: seq<Arg>): string
    requires WellFormed(f, args)
    decreases |f|
  {
    if f == "" then ""
    else if f[0] != '%' then [f[0]] + Render(f[1..], args)
    else if |f| == 1 then ""
    else if f[1] == '%' then "%" + Render(f[2..], args)
    else
      var d := ParseSpec(f[1..], args);
      Expand(d) + Render(d.rest, ArgsAfter(d))
  }
}
