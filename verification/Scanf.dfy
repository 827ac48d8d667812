/** vsscanf: what each directive takes from the input and stores. */
module Scanf {
  import opened CStrings
  import opened Numerals

  datatype Stored = Number(v: int) | Text(s: string)

  // ---------- directives ----------

  datatype Conversion = BadConversion | Conversion(suppress: bool, width: int, size: int, conv: char, rest: string)

  /** The length modifier: 2 for ll, 1 for l, -1 for h, -2 for hh. */
  function SizeOf(f: string): (r: (int, string))
    ensures |r.1| <= |f|
  {
    if f == "" then (0, f)
    else if f[0] == 'l' then (if |f| > 1 && f[1] == 'l' then (2, f[2..]) else (1, f[1..]))
    else if f[0] == 'h' then (if |f| > 1 && f[1] == 'h' then (-2, f[2..]) else (-1, f[1..]))
    else (0, f)
  }

  /** The directive behind a '%'; it must end in a conversion character and its width must fit an int. */
  function ParseConversion(f: string): (r: Conversion)
    ensures r.Conversion? ==> |r.rest| < |f|
  {
    var suppress := f != "" && f[0] == '*';
    var g := if suppress then f[1..] else f;
    var n := RunLength(g, 10);
    var (size, h) := SizeOf(g[n..]);
    if h == "" || !IsInt(Value(g[..n], 10)) then BadConversion
    else Conversion(suppress, Value(g[..n], 10), size, h[0], h[1..])
  }

  predicate WellFormed(f: string)
    decreases |f|
  {
    if f == "" then true
    else if f[0] != '%' then WellFormed(f[1..])
    else if |f| == 1 then false
    else if f[1] == '%' then WellFormed(f[2..])
    else ParseConversion(f[1..]).Conversion? && WellFormed(ParseConversion(f[1..]).rest)
  }

  lemma {:induction false} WellFormedSkip(f: string)
    requires WellFormed(f)
    ensures WellFormed(SkipSpaces(f))
  {
    if f != "" && IsSpace(f[0]) { WellFormedSkip(f[1..]); }
  }

  predicate TakesInteger(c: char) { c == 'd' || c == 'i' || c == 'u' || c == 'x' || c == 'X' }

  function BaseOfConv(c: char): int { if c == 'x' || c == 'X' then 16 else if c == 'i' then 0 else 10 }

  /** The value as the destination's type keeps it. */
  function Narrow(v: int, size: int): int
  {
    if size == -1 then (v + 0x8000) % 0x1_0000 - 0x8000
    else if size == -2 then (v + 0x80) % 0x100 - 0x80
    else v
  }

  /** How many bytes %s takes, at most `limit` if that is not negative. */
  function WordLength(s: string, limit: int): (n: nat)
    ensures n <= |s|
  {
    if s == "" || IsSpace(s[0]) || limit == 0 then 0 else 1 + WordLength(s[1..], limit - 1)
  }

  datatype Outcome = Stop | Go(stores: seq<Stored>, counted: bool, rest: string)

  function Kept(d: Conversion, x: Stored): seq<Stored>
    requires d.Conversion?
  {
    if d.suppress then [] else [x]
  }

  /** %n and %c, which do not skip blanks. */
  function ConvertRaw(s: string, d: Conversion, total: nat): (r: Outcome)
    requires d.Conversion? && |s| <= total
    ensures r.Go? ==> |r.rest| <= |s|
  {
    if d.conv == 'n' then Go(Kept(d, Number(total - |s|)), false, s)
    else if s == "" then Stop
    else
      var n := if d.width > 0 then d.width else 1;
      var k := if n < |s| then n else |s|;
      Go(Kept(d, Text(s[..k])), true, s[k..])
  }

  function ConvertInteger(t: string, d: Conversion): (r: Outcome)
    requires d.Conversion?
    ensures r.Go? ==> |r.rest| <= |t|
  {
    StrtolConsumes(t, BaseOfConv(d.conv));
    var end := Strtol(t, BaseOfConv(d.conv));
    if |end.1| == |t| then Stop else Go(Kept(d, Number(Narrow(end.0, d.size))), true, end.1)
  }

  /** What one directive does to the input; `total` is the length of the whole input. */
  function Convert(s: string, d: Conversion, total: nat): (r: Outcome)
    requires d.Conversion? && |s| <= total
    ensures r.Go? ==> |r.rest| <= |s|
  {
    if d.conv == 'n' || d.conv == 'c' then ConvertRaw(s, d, total)
    else
      var t := SkipSpaces(s);
      if t == "" then Stop
      else if d.conv == 's' then
        var k := WordLength(t, if d.width == 0 then -1 else d.width);
        Go(Kept(d, Text(t[..k])), true, t[k..])
      else if TakesInteger(d.conv) then ConvertInteger(t, d)
      else Go([], false, t)
  }

  datatype Result = Result(matches: nat, stores: seq<Stored>)

  function Scan(s: string, f: string, total: nat): Result
    requires WellFormed(f) && |s| <= total
    decreases |f|
  {
    hide Convert, ParseConversion;
    if f == "" then Result(0, [])
    else if IsSpace(f[0]) then
      WellFormedSkip(f);
      Scan(SkipSpaces(s), SkipSpaces(f), total)
    else if f[0] != '%' then
      if At(s, 0) != f[0] || s == "" then Result(0, []) else Scan(s[1..], f[1..], total)
    else if f[1] == '%' then
      if At(s, 0) != '%' then Result(0, []) else Scan(s[1..], f[2..], total)
    else
      var d := ParseConversion(f[1..]);
      match Convert(s, d, total)
      case Stop => Result(0, [])
      case Go(stores, counted, rest) =>
        var r := Scan(rest, d.rest, total);
        Result(r.matches + if counted then 1 else 0, stores + r.stores)
  }

  lemma StrtolConsumes(s: string, base: int)
    ensures |Strtol(s, base).1| <= |s|
  {
  }

  // ---------- the scanner ----------

  method ReadConversion(format: string) returns (d: Conversion)
    requires ParseConversion(format).Conversion?
    ensures d == ParseConversion(format)
  {
    hide Value, RunLength;
    var f, suppress := format, false;
    if At(f, 0) == '*' {
      suppress := true;
      f := f[1..];
    }
    var width, g := ReadDecimal(f);
    var size := 0;
    if At(g, 0) == 'l' {
      size, g := 1, g[1..];
      if At(g, 0) == 'l' { size, g := 2, g[1..]; }
    } else if At(g, 0) == 'h' {
      size, g := -1, g[1..];
      if At(g, 0) == 'h' { size, g := -2, g[1..]; }
    }
    d := Conversion(suppress, width, size, g[0], g[1..]);
  }

  method TakeWord(s: string, width: int) returns (word: string, rest: string)
    requires width >= 0
    ensures
      var k := WordLength(s, if width == 0 then -1 else width);
      word == s[..k] && rest == s[k..]
  {
    word, rest := "", s;
    var taken := 0;
    ghost var limit := if width == 0 then -1 else width;
    while rest != "" && !IsSpace(rest[0]) && (width == 0 || taken < width)
      invariant 0 <= taken <= |s| && word == s[..taken] && rest == s[taken..] && (width > 0 ==> taken <= width)
      invariant WordLength(s, limit) == taken + WordLength(rest, limit - taken)
      decreases |rest|
    {
      word, rest, taken := word + [rest[0]], rest[1..], taken + 1;
    }
  }

  method DoConvert(input: string, d: Conversion, total: nat) returns (r: Outcome)
    requires d.Conversion? && |input| <= total && d.width >= 0
    ensures r == Convert(input, d, total)
  {
    hide Strtol, SkipSpaces, WordLength;
    if d.conv == 'n' {
      return Go(if d.suppress then [] else [Number(total - |input|)], false, input);
    }
    if d.conv == 'c' {
      var count := if d.width > 0 then d.width else 1;
      if input == "" { return Stop; }
      var k := if count < |input| then count else |input|;
      return Go(if d.suppress then [] else [Text(input[..k])], true, input[k..]);
    }
    var s := SkipBlanks(input);
    if s == "" { return Stop; }
    if d.conv == 's' {
      var word, rest := TakeWord(s, d.width);
      return Go(if d.suppress then [] else [Text(word)], true, rest);
    }
    if TakesInteger(d.conv) {
      var val, end := StrtolMethod(s, BaseOfConv(d.conv));
      if |end| == |s| { return Stop; }
      return Go(if d.suppress then [] else [Number(Narrow(val, d.size))], true, end);
    }
    r := Go([], false, s);
  }

  /** What is still to come is added to what has been found. */
  function Plus(matches: nat, stores: seq<Stored>, r: Result): Result
  {
    Result(matches + r.matches, stores + r.stores)
  }

  method Vsscanf(str: string, format: string) returns (matches: nat, stores: seq<Stored>)
    requires WellFormed(format)
    ensures Result(matches, stores) == Scan(str, format, |str|)
  {
    hide Convert, ParseConversion;
    matches, stores := 0, [];
    var s, f := str, format;
    PlusNothing(0, [], Scan(s, f, |str|));
    while f != ""
      invariant WellFormed(f) && |s| <= |str|
      invariant Plus(matches, stores, Scan(s, f, |str|)) == Scan(str, format, |str|)
      decreases |f|
    {
      PlusNothing(matches, stores, Result(0, []));
      if IsSpace(f[0]) {
        WellFormedSkip(f);
        f := SkipBlanks(f);
        s := SkipBlanks(s);
      } else if f[0] != '%' {
        if s == "" || s[0] != f[0] { return; }
        s, f := s[1..], f[1..];
      } else if f[1] == '%' {
        if At(s, 0) != '%' { return; }
        s, f := s[1..], f[2..];
      } else {
        var d := ReadConversion(f[1..]);
        WidthFits(f[1..]);
        var r := DoConvert(s, d, |str|);
        if r.Stop? { return; }
        PlusAssoc(matches, stores, r, Scan(r.rest, d.rest, |str|));
        stores := stores + r.stores;
        if r.counted { matches := matches + 1; }
        s, f := r.rest, d.rest;
      }
    }
    PlusNothing(matches, stores, Result(0, []));
  }

  lemma PlusNothing(matches: nat, stores: seq<Stored>, r: Result)
    ensures Plus(0, [], r) == r && Plus(matches, stores, Result(0, [])) == Result(matches, stores)
  {
    assert [] + r.stores == r.stores && stores + [] == stores;
  }

  lemma PlusAssoc(matches: nat, stores: seq<Stored>, o: Outcome, r: Result)
    requires o.Go?
    ensures Plus(matches, stores, Result(r.matches + if o.counted then 1 else 0, o.stores + r.stores)) ==
            Plus(matches + if o.counted then 1 else 0, stores + o.stores, r)
  {
    assert stores + (o.stores + r.stores) == stores + o.stores + r.stores;
  }

  lemma WidthFits(f: string)
    requires ParseConversion(f).Conversion?
    ensures ParseConversion(f).width >= 0
  {
    var g := if f != "" && f[0] == '*' then f[1..] else f;
    DigitsNonNegative(g[..RunLength(g, 10)], 10);
  }

  lemma {:induction false} DigitsNonNegative(s: string, base: int)
    requires AllDigits(s, base) && base > 0
    ensures Value(s, base) >= 0
  {
    hide Value, DigitValue;
    if s == "" {
      ValueOfNothing(base);
    } else {
      var init, c := s[..|s| - 1], s[|s| - 1];
      assert s == init + [c] && IsDigitOf(c, base);
      assert forall i :: 0 <= i < |init| ==> init[i] == s[i];
      DigitsNonNegative(init, base);
      ValueOfLast(init, c, base, Value(init, base));
      ProductNonNegative(Value(init, base), base);
    }
  }

  lemma ProductNonNegative(x: int, y: int)
    requires x >= 0 && y >= 0
    ensures x * y >= 0
  {
  }
}
