/** What a printf directive writes, said on its text: flags, width, precision and conversion. */
module FormatLaws {
  import opened Memory
  import opened Numerals
  import opened PrintfSpec
  import opened PrintfLaws

  function Max(a: int, b: int): int { if a < b then b else a }

  // ---------- padding ----------

  /** `t` fills a field of `width`: flush left or right, the rest blank. */
  ghost predicate Flush(r: string, t: string, width: int, left: bool)
  {
    && |r| == Max(width, |t|)
    && (if left then r[..|t|] == t else r[|r| - |t|..] == t)
    && forall i :: 0 <= i < |r| && (if left then |t| <= i else i < |r| - |t|) ==> r[i] == ' '
  }

  lemma PaddedIsFlush(s: string, width: int, left: bool)
    ensures Flush(Padded(s, width, left), s, width, left)
  {
    hide Repeat;
  }

  /** A number fills its field: zeros stand between the sign and the digits, blanks outside both. */
  ghost predicate NumberFlush(r: string, sign: string, ds: string, width: int, zero: bool, left: bool)
  {
    if zero && !left then
      && |r| == Max(width, |sign| + |ds|) && r[..|sign|] == sign && r[|r| - |ds|..] == ds
      && forall i :: |sign| <= i < |r| - |ds| ==> r[i] == '0'
    else Flush(r, sign + ds, width, left)
  }

  lemma {:induction false} NumTextIsFlush(val: nat, base: nat, upper: bool, width: int, zero: bool, neg: bool,
                                          left: bool)
    requires 2 <= base <= 36
    ensures NumberFlush(NumText(val, base, upper, width, zero, neg, left), if neg then "-" else "",
                        Digits(val, base, upper), width, zero, left)
  {
    hide Digits, Repeat;
    var sign, ds := if neg then "-" else "", Digits(val, base, upper);
    var r := NumText(val, base, upper, width, zero, neg, left);
    if zero && !left {
      var pad := Repeat('0', width - |sign + ds|);
      assert r == sign + (pad + ds) && |r| == |sign| + |pad| + |ds|;
      assert r[|r| - |ds|..] == ds;
    } else {
      PaddedIsFlush(sign + ds, width, left);
    }
  }

  // ---------- the text of a directive ----------

  predicate AllFrom(s: string, set': string) { forall i :: 0 <= i < |s| ==> s[i] in set' }

  function FieldText(n: nat): string { if n == 0 then "" else Digits(n, 10, false) }

  /** Flags, a width unless it is 0, a precision unless it is negative, and length modifiers. */
  function DirectiveText(flags: string, width: nat, precision: int, mods: string): string
  {
    flags + (FieldText(width) + (PrecisionText(precision) + mods))
  }

  function PrecisionText(n: int): string { if n < 0 then "" else "." + Digits(n, 10, false) }

  predicate IsConversion(c: char) { c !in "-0+ #lhzjt.*%" && !IsDigitOf(c, 10) }

  lemma {:induction false} FlagsRead(flags: string, g: string)
    requires AllFrom(flags, "-0+ #") && (g == "" || !IsFlag(g[0]))
    ensures FlagRun(flags + g) == |flags|
  {
    if flags == "" {
      assert flags + g == g;
    } else {
      assert (flags + g)[1..] == flags[1..] + g;
      FlagsRead(flags[1..], g);
    }
  }

  lemma {:induction false} ModsRead(mods: string, g: string)
    requires AllFrom(mods, "lhzjt") && (g == "" || !IsLengthMod(g[0]))
    ensures LengthRun(mods + g) == |mods|
  {
    if mods == "" {
      assert mods + g == g;
    } else {
      assert (mods + g)[1..] == mods[1..] + g;
      ModsRead(mods[1..], g);
    }
  }

  lemma FieldDigits(n: nat)
    ensures AllDigits(FieldText(n), 10) && Value(FieldText(n), 10) == n
    ensures FieldText(n) != "" ==> IsDigitOf(FieldText(n)[0], 10) && FieldText(n)[0] != '0'
  {
    hide Digits;
    ValueOfDigits(n, 10, false);
    DigitsShape(n, 10, false);
    if n == 0 { ValueOfNothing(10); } else { assert IsDigitOf(Digits(n, 10, false)[0], 10); }
  }

  lemma {:induction false} FieldRead(ds: string, n: nat, g: string, args: seq<Arg>)
    requires AllDigits(ds, 10) && Value(ds, 10) == n < 0x8000_0000
    requires g != "" && !IsDigitOf(g[0], 10) && (ds == "" ==> g[0] != '*')
    ensures NumberField(ds + g, args) == Field(n, g, args)
  {
    hide Value, RunLength;
    RunOfDigits(ds, g, 10);
    if ds != "" { assert IsDigitOf(ds[0], 10); }
  }

  /** Every directive reads as it is written. */
  lemma {:induction false} DirectiveRead(flags: string, width: nat, precision: int, mods: string, c: char, rest: string,
                                         args: seq<Arg>)
    requires AllFrom(flags, "-0+ #") && AllFrom(mods, "lhzjt") && IsConversion(c)
    requires width < 0x8000_0000 && -1 <= precision < 0x8000_0000
    ensures ParseSpec(DirectiveText(flags, width, precision, mods) + ([c] + rest), args) ==
            Spec('-' in flags, '0' in flags && '-' !in flags, width, precision, c, rest, args)
  {
    hide ParseSpec, FlagRun, LengthRun, NumberField, FieldText, PrecisionText, DirectiveText, AllFrom, IsDigitOf,
         IsConversion, IsFlag;
    var k := mods + ([c] + rest);
    var h := PrecisionText(precision) + k;
    var g := FieldText(width) + h;
    PrecisionRead(precision, mods, c, rest, args);
    WidthRead(width, h, args);
    FlagsRead(flags, g);
    DirectiveSplit(flags, width, precision, mods, [c] + rest);
    StagesRead(flags, g, width, h, precision, k, c, rest, args);
  }

  lemma DirectiveSplit(flags: string, width: nat, precision: int, mods: string, tail: string)
    ensures DirectiveText(flags, width, precision, mods) + tail ==
            flags + (FieldText(width) + (PrecisionText(precision) + (mods + tail)))
  {
    hide FieldText, PrecisionText;
  }

  /** From the stages of the reading to the whole. */
  lemma StagesRead(flags: string, g: string, width: nat, h: string, precision: int, k: string, c: char, rest: string,
                   args: seq<Arg>)
    requires FlagRun(flags + g) == |flags| && NumberField(g, args) == Field(width, h, args)
    requires h != "" && if h[0] == '.' then NumberField(h[1..], args) == Field(precision, k, args)
                        else precision == -1 && k == h
    requires k[LengthRun(k)..] == [c] + rest
    ensures ParseSpec(flags + g, args) ==
            Spec('-' in flags, '0' in flags && '-' !in flags, width, precision, c, rest, args)
  {
    hide FlagRun, LengthRun, NumberField;
    var f := flags + g;
    assert f[..|flags|] == flags && f[|flags|..] == g && ([c] + rest)[1..] == rest;
  }

  lemma {:induction false} WidthRead(width: nat, h: string, args: seq<Arg>)
    requires width < 0x8000_0000 && h != "" && !IsDigitOf(h[0], 10) && h[0] != '*' && !IsFlag(h[0])
    ensures NumberField(FieldText(width) + h, args) == Field(width, h, args)
    ensures !IsFlag((FieldText(width) + h)[0])
  {
    hide NumberField, FieldText, IsDigitOf;
    FieldDigits(width);
    FieldRead(FieldText(width), width, h, args);
    DigitIsNoFlag((FieldText(width) + h)[0]);
  }

  lemma {:induction false} PrecisionRead(precision: int, mods: string, c: char, rest: string, args: seq<Arg>)
    requires AllFrom(mods, "lhzjt") && IsConversion(c) && -1 <= precision < 0x8000_0000
    ensures
      var k := mods + ([c] + rest);
      var h := PrecisionText(precision) + k;
      && h != "" && !IsDigitOf(h[0], 10) && h[0] != '*' && !IsFlag(h[0])
      && (if h[0] == '.' then NumberField(h[1..], args) == Field(precision, k, args) else precision == -1 && k == h)
      && k[LengthRun(k)..] == [c] + rest
  {
    hide LengthRun, NumberField, Digits, AllFrom, IsDigitOf, IsConversion, PrecisionText, IsFlag;
    var k := mods + ([c] + rest);
    TailFront(mods, c, rest);
    ModsRead(mods, [c] + rest);
    assert k[|mods|..] == [c] + rest;
    DotRead(precision, k, args);
  }

  lemma {:induction false} DotRead(precision: int, k: string, args: seq<Arg>)
    requires -1 <= precision < 0x8000_0000 && k != ""
    requires !IsFlag(k[0]) && k[0] != '.' && k[0] != '*' && !IsDigitOf(k[0], 10)
    ensures
      var h := PrecisionText(precision) + k;
      && h != "" && !IsDigitOf(h[0], 10) && h[0] != '*' && !IsFlag(h[0])
      && if h[0] == '.' then NumberField(h[1..], args) == Field(precision, k, args) else precision == -1 && k == h
  {
    hide NumberField, Digits, IsDigitOf;
    var h := PrecisionText(precision) + k;
    DotIsNoDigit();
    if precision >= 0 {
      var ps := Digits(precision, 10, false);
      ValueOfDigits(precision, 10, false);
      assert h[0] == '.' && h[1..] == ps + k;
      FieldRead(ps, precision, k, args);
    } else {
      assert h == k;
    }
  }

  lemma DotIsNoDigit()
    ensures !IsDigitOf('.', 10)
  {
  }

  lemma DigitIsNoFlag(c: char)
    ensures IsDigitOf(c, 10) && c != '0' ==> !IsFlag(c)
  {
  }

  lemma TailFront(mods: string, c: char, rest: string)
    requires AllFrom(mods, "lhzjt") && IsConversion(c)
    ensures
      var k := mods + ([c] + rest);
      && (k[0] == 'l' || k[0] == 'h' || k[0] == 'z' || k[0] == 'j' || k[0] == 't' || k[0] == c)
      && !IsFlag(k[0]) && k[0] != '.' && k[0] != '*' && !IsDigitOf(k[0], 10) && !IsLengthMod(c)
  {
  }

  /** A '*' takes the width from the arguments; a negative one means '-'. */
  lemma {:induction false} StarRead(flags: string, w: int, c: char, rest: string, args: seq<Arg>)
    requires AllFrom(flags, "-0+ #") && IsConversion(c) && -0x8000_0000 < w < 0x8000_0000
    ensures ParseSpec(flags + ("*" + ([c] + rest)), [IntArg(w)] + args) ==
            Spec('-' in flags || w < 0, '0' in flags && '-' !in flags, if w < 0 then -w else w, -1, c, rest, args)
  {
    hide FlagRun, AllFrom;
    var k := [c] + rest;
    var g := "*" + k;
    var f := flags + g;
    FlagsRead(flags, g);
    assert f[..|flags|] == flags && f[|flags|..] == g && g[1..] == k && k[1..] == rest;
    assert ([IntArg(w)] + args)[1..] == args;
    assert LengthRun(k) == 0 && k[0..] == k;
  }

  /** A '*' behind the '.' takes the precision from the arguments; a negative one means none. */
  lemma {:induction false} StarPrecisionRead(flags: string, p: int, c: char, rest: string, args: seq<Arg>)
    requires AllFrom(flags, "-0+ #") && IsConversion(c) && IsInt(p)
    ensures ParseSpec(flags + (".*" + ([c] + rest)), [IntArg(p)] + args) ==
            Spec('-' in flags, '0' in flags && '-' !in flags, 0, p, c, rest, args)
    ensures p < 0 ==> forall s :: Limited(s, p) == s
  {
    hide ParseSpec, FlagRun, AllFrom, NumberField, LengthRun, IsConversion;
    var k, all := [c] + rest, [IntArg(p)] + args;
    var g := ".*" + k;
    FlagsRead(flags, g);
    NoWidth(g, all);
    assert g[1..] == "*" + k && ("*" + k)[1..] == k && all[1..] == args;
    ArgField("*" + k, p, all);
    NoMods(c, rest);
    StarStages(flags, g, p, c, rest, args);
  }

  lemma NoWidth(g: string, args: seq<Arg>)
    requires g != "" && g[0] == '.'
    ensures NumberField(g, args) == Field(0, g, args)
  {
    hide NumberField, Value, IsDigitOf;
    DotIsNoDigit();
    ValueOfNothing(10);
    assert "" + g == g;
    FieldRead("", 0, g, args);
  }

  lemma ArgField(f: string, p: int, args: seq<Arg>)
    requires f != "" && f[0] == '*' && args != [] && args[0] == IntArg(p) && IsInt(p)
    ensures NumberField(f, args) == Field(p, f[1..], args[1..])
  {
  }

  lemma NoMods(c: char, rest: string)
    requires IsConversion(c)
    ensures LengthRun([c] + rest) == 0
  {
  }

  lemma StarStages(flags: string, g: string, p: int, c: char, rest: string, args: seq<Arg>)
    requires FlagRun(flags + g) == |flags| && NumberField(g, [IntArg(p)] + args) == Field(0, g, [IntArg(p)] + args)
    requires g != "" && g[0] == '.' && NumberField(g[1..], [IntArg(p)] + args) == Field(p, [c] + rest, args)
    requires LengthRun([c] + rest) == 0
    ensures ParseSpec(flags + g, [IntArg(p)] + args) ==
            Spec('-' in flags, '0' in flags && '-' !in flags, 0, p, c, rest, args)
  {
    hide FlagRun, LengthRun, NumberField;
    var f := flags + g;
    assert f[..|flags|] == flags && f[|flags|..] == g && ([c] + rest)[0..] == [c] + rest && ([c] + rest)[1..] == rest;
  }

  // ---------- what one directive prints ----------

  /** A directive, then the rest of the format with the arguments that are left. */
  lemma {:induction false} RenderThen(text: string, c: char, rest: string, d: Spec, args: seq<Arg>)
    requires ParseSpec(text + ([c] + rest), args) == d && d.Spec? && d.rest == rest && SpecOk(d)
    requires (text + [c])[0] != '%' && WellFormed(rest, ArgsAfter(d))
    ensures WellFormed("%" + text + [c] + rest, args)
    ensures Render("%" + text + [c] + rest, args) == Expand(d) + Render(rest, ArgsAfter(d))
  {
    hide ParseSpec, Expand, SpecOk, ArgsAfter;
    var f := "%" + text + [c] + rest;
    assert f[1..] == text + ([c] + rest) && f[1] == (text + [c])[0];
  }

  lemma {:induction false} RenderOne(text: string, c: char, d: Spec, args: seq<Arg>)
    requires ParseSpec(text + [c], args) == d && d.Spec? && d.rest == "" && SpecOk(d)
    requires (text + [c])[0] != '%'
    ensures WellFormed("%" + text + [c], args) && Render("%" + text + [c], args) == Expand(d)
  {
    hide ParseSpec, Expand, SpecOk, ArgsAfter;
    var f := "%" + text + [c];
    assert [c] + "" == [c] && f + "" == f;
    RenderThen(text, c, "", d, args);
    assert Expand(d) + "" == Expand(d);
  }

  /** Directives take their arguments in order, and what they write is joined. */
  lemma {:induction false} DirectivesJoin(flags: string, width: nat, precision: int, mods: string, c: char, arg: Arg,
                                          rest: string, args: seq<Arg>)
    requires AllFrom(flags, "-0+ #") && AllFrom(mods, "lhzjt") && IsConversion(c) && TakesArg(c)
    requires width < 0x8000_0000 && -1 <= precision < 0x8000_0000 && WellFormed(rest, args)
    requires SpecOk(Spec('-' in flags, '0' in flags && '-' !in flags, width, precision, c, "", [arg]))
    ensures
      var f := "%" + DirectiveText(flags, width, precision, mods) + [c];
      && WellFormed(f, [arg]) && WellFormed(f + rest, [arg] + args)
      && Render(f + rest, [arg] + args) == Render(f, [arg]) + Render(rest, args)
  {
    hide ParseSpec, DirectiveText, Render, WellFormed, AllFrom, TakesArg, Padded, NumText, Limited, IsConversion;
    var text := DirectiveText(flags, width, precision, mods);
    var left, zero, all := '-' in flags, '0' in flags && '-' !in flags, [arg] + args;
    DirectivePrints(flags, width, precision, mods, c, arg);
    DirectiveRead(flags, width, precision, mods, c, rest, all);
    NoPercent(flags, width, precision, mods, c);
    assert all[0] == arg && all[1..] == args;
    RenderThen(text, c, rest, Spec(left, zero, width, precision, c, rest, all), all);
  }

  lemma {:induction false} DirectivePrints(flags: string, width: nat, precision: int, mods: string, c: char, arg: Arg)
    requires AllFrom(flags, "-0+ #") && AllFrom(mods, "lhzjt") && IsConversion(c)
    requires width < 0x8000_0000 && -1 <= precision < 0x8000_0000
    requires SpecOk(Spec('-' in flags, '0' in flags && '-' !in flags, width, precision, c, "", [arg]))
    ensures
      var f := "%" + DirectiveText(flags, width, precision, mods) + [c];
      WellFormed(f, [arg]) &&
      Render(f, [arg]) == Expand(Spec('-' in flags, '0' in flags && '-' !in flags, width, precision, c, "", [arg]))
  {
    hide ParseSpec, Expand, SpecOk, DirectiveText, Render, WellFormed, AllFrom;
    var text := DirectiveText(flags, width, precision, mods);
    DirectiveRead(flags, width, precision, mods, c, "", [arg]);
    assert [c] + "" == [c];
    NoPercent(flags, width, precision, mods, c);
    RenderOne(text, c, Spec('-' in flags, '0' in flags && '-' !in flags, width, precision, c, "", [arg]), [arg]);
  }

  lemma NoPercent(flags: string, width: nat, precision: int, mods: string, c: char)
    requires AllFrom(flags, "-0+ #") && AllFrom(mods, "lhzjt") && IsConversion(c)
    ensures (DirectiveText(flags, width, precision, mods) + [c])[0] != '%'
  {
    hide FieldText, Digits;
    FieldDigits(width);
    PercentIsNoDigit();
    var text := DirectiveText(flags, width, precision, mods);
    if flags != "" {
      assert text[0] == flags[0];
    } else if FieldText(width) != "" {
      assert text[0] == FieldText(width)[0];
    } else if precision >= 0 {
      assert text[0] == '.';
    } else {
      assert text == mods;
    }
  }

  lemma PercentIsNoDigit()
    ensures !IsDigitOf('%', 10)
  {
  }

  /** %s: the first bytes of the string, as many as the precision allows, in a field of the width. */
  lemma {:induction false} StringPrints(flags: string, width: nat, precision: int, mods: string, s: string)
    requires AllFrom(flags, "-0+ #") && AllFrom(mods, "lhzjt")
    requires width < 0x8000_0000 && -1 <= precision < 0x8000_0000 && |s| < 0x8000_0000
    ensures
      var f := "%" + DirectiveText(flags, width, precision, mods) + "s";
      var t := if 0 <= precision < |s| then s[..precision] else s;
      WellFormed(f, [StrArg(s)]) && Flush(Render(f, [StrArg(s)]), t, width, '-' in flags)
  {
    hide Padded, DirectiveText, Render, WellFormed, AllFrom, Flush;
    DirectivePrints(flags, width, precision, mods, 's', StrArg(s));
    PaddedIsFlush(Limited(s, precision), width, '-' in flags);
  }

  /** %c: one byte in a field of the width. */
  lemma {:induction false} CharPrints(flags: string, width: nat, mods: string, v: int)
    requires AllFrom(flags, "-0+ #") && AllFrom(mods, "lhzjt") && width < 0x8000_0000
    ensures
      var f := "%" + DirectiveText(flags, width, -1, mods) + "c";
      WellFormed(f, [IntArg(v)]) && Flush(Render(f, [IntArg(v)]), [(v % 256) as char], width, '-' in flags)
  {
    hide Padded, DirectiveText, Render, WellFormed, AllFrom, Flush;
    DirectivePrints(flags, width, -1, mods, 'c', IntArg(v));
    PaddedIsFlush([(v % 256) as char], width, '-' in flags);
  }

  /** The integer conversions: sign and digits in their base and case, filled up with zeros or blanks. */
  lemma {:induction false} NumberPrints(flags: string, width: nat, mods: string, c: char, v: int)
    requires AllFrom(flags, "-0+ #") && AllFrom(mods, "lhzjt") && width < 0x8000_0000
    requires c in "diuoxX" && (c in "di" ==> IsInt(v))
    ensures
      var f := "%" + DirectiveText(flags, width, -1, mods) + [c];
      var val := if c in "di" then (if v < 0 then -v else v) else v % 0x1_0000_0000;
      var base := if c == 'o' then 8 else if c in "xX" then 16 else 10;
      && WellFormed(f, [IntArg(v)])
      && NumberFlush(Render(f, [IntArg(v)]), if c in "di" && v < 0 then "-" else "", Digits(val, base, c == 'X'),
                     width, '0' in flags, '-' in flags)
  {
    hide NumText, DirectiveText, Render, WellFormed, AllFrom, Flush, Digits;
    DirectivePrints(flags, width, -1, mods, c, IntArg(v));
    var val := if c in "di" then (if v < 0 then -v else v) else v % 0x1_0000_0000;
    var base := if c == 'o' then 8 else if c in "xX" then 16 else 10;
    var neg, left := c in "di" && v < 0, '-' in flags;
    NumTextIsFlush(val, base, c == 'X', width, '0' in flags && !left, neg, left);
  }

  /** A NULL string prints as "(null)", cut and padded like any other. */
  lemma {:induction false} NullPrints(flags: string, width: nat, precision: int, mods: string)
    requires AllFrom(flags, "-0+ #") && AllFrom(mods, "lhzjt")
    requires width < 0x8000_0000 && -1 <= precision < 0x8000_0000
    ensures
      var f := "%" + DirectiveText(flags, width, precision, mods) + "s";
      && WellFormed(f, [NullArg]) && WellFormed(f, [StrArg("(null)")])
      && Render(f, [NullArg]) == Render(f, [StrArg("(null)")])
  {
    hide Padded, DirectiveText, Render, WellFormed, AllFrom;
    DirectivePrints(flags, width, precision, mods, 's', NullArg);
    DirectivePrints(flags, width, precision, mods, 's', StrArg("(null)"));
  }

  /** "%%" is a percent sign; a letter that is no conversion prints itself and takes no argument. */
  lemma {:induction false} OtherPrints(c: char, rest: string, args: seq<Arg>)
    requires c !in "-0+ #lhzjt*.csdiuxXopf" && !IsDigitOf(c, 10) && WellFormed(rest, args)
    ensures WellFormed("%" + [c] + rest, args) && Render("%" + [c] + rest, args) == [c] + Render(rest, args)
    ensures WellFormed("%", args) && Render("%", args) == ""
  {
    hide ParseSpec;
    var f := "%" + [c] + rest;
    assert f[1..] == [c] + rest && f[1] == c && f[2..] == rest;
    if c != '%' { PlainSpec(c, rest, args); }
  }
}
