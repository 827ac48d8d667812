/** What each scanf directive takes and stores, said on the text of the directive and of the input. */
module ScanLaws {
  import opened Memory
  import opened Numerals
  import opened StrtolLaws
  import opened Scanf
  import PrintfSpec
  import FormatLaws

  // ---------- the text of a directive ----------

  predicate IsModifier(mod: string) { mod == "" || mod == "l" || mod == "ll" || mod == "h" || mod == "hh" }

  function SizeCode(mod: string): int
  {
    if mod == "l" then 1 else if mod == "ll" then 2 else if mod == "h" then -1 else if mod == "hh" then -2 else 0
  }

  /** A '*' to suppress, a width unless it is 0, a length modifier, and the conversion. */
  function DirectiveText(suppress: bool, width: nat, mod: string, c: char): string
  {
    (if suppress then "*" else "") + (FormatLaws.FieldText(width) + (mod + [c]))
  }

  predicate IsConversion(c: char) { c !in "*lh%" && !IsDigitOf(c, 10) }

  lemma ModifierRead(mod: string, c: char, rest: string)
    requires IsModifier(mod) && IsConversion(c)
    ensures SizeOf(mod + ([c] + rest)) == (SizeCode(mod), [c] + rest)
    ensures !IsDigitOf((mod + ([c] + rest))[0], 10) && (mod + ([c] + rest))[0] != '*'
  {
    hide IsDigitOf;
    LettersAreNoDigits();
    var h := mod + ([c] + rest);
    if mod == "" {
      assert h == [c] + rest;
    } else if |mod| == 1 {
      assert h[1..] == [c] + rest && h[1] == c;
    } else {
      assert h[2..] == [c] + rest;
    }
  }

  lemma LettersAreNoDigits()
    ensures !IsDigitOf('l', 10) && !IsDigitOf('h', 10) && !IsDigitOf('*', 10)
  {
  }

  /** Every directive reads as it is written. */
  lemma {:induction false} DirectiveRead(suppress: bool, width: nat, mod: string, c: char, rest: string)
    requires width < 0x8000_0000 && IsModifier(mod) && IsConversion(c)
    ensures ParseConversion(DirectiveText(suppress, width, mod, c) + rest) ==
            Conversion(suppress, width, SizeCode(mod), c, rest)
  {
    hide FormatLaws.FieldText, SizeOf, RunLength, Value, IsDigitOf, IsConversion, SizeCode, ParseConversion,
         DirectiveText;
    var w, h := FormatLaws.FieldText(width), mod + ([c] + rest);
    FormatLaws.FieldDigits(width);
    ModifierRead(mod, c, rest);
    RunOfDigits(w, h, 10);
    LettersAreNoDigits();
    assert (w + h)[0] == if w == "" then h[0] else w[0];
    StagesRead(suppress, w, width, h, SizeCode(mod), c, rest);
    DirectiveSplit(suppress, width, mod, c, rest);
  }

  lemma DirectiveSplit(suppress: bool, width: nat, mod: string, c: char, rest: string)
    ensures DirectiveText(suppress, width, mod, c) + rest ==
            (if suppress then "*" else "") + (FormatLaws.FieldText(width) + (mod + ([c] + rest)))
  {
    hide FormatLaws.FieldText;
  }

  lemma StagesRead(suppress: bool, w: string, width: nat, h: string, size: int, c: char, rest: string)
    requires RunLength(w + h, 10) == |w| && Value(w, 10) == width < 0x8000_0000 && SizeOf(h) == (size, [c] + rest)
    requires w + h != "" && (w + h)[0] != '*'
    ensures ParseConversion((if suppress then "*" else "") + (w + h)) == Conversion(suppress, width, size, c, rest)
  {
    hide RunLength, Value, SizeOf;
    var g := w + h;
    var f := (if suppress then "*" else "") + g;
    if suppress { assert f[1..] == g; } else { assert f == g; }
    assert g[..|w|] == w && g[|w|..] == h && ([c] + rest)[1..] == rest;
  }

  /** A directive, then the rest of the format on the rest of the input; a directive that fails ends the scan. */
  lemma {:induction false} ScanThen(s: string, suppress: bool, width: nat, mod: string, c: char, f: string, total: nat)
    requires width < 0x8000_0000 && IsModifier(mod) && IsConversion(c) && |s| <= total && WellFormed(f)
    ensures WellFormed("%" + DirectiveText(suppress, width, mod, c) + f)
    ensures
      Scan(s, "%" + DirectiveText(suppress, width, mod, c) + f, total) ==
      match Convert(s, Conversion(suppress, width, SizeCode(mod), c, f), total)
      case Stop => Result(0, [])
      case Go(stores, counted, rest) => Plus(if counted then 1 else 0, stores, Scan(rest, f, total))
  {
    hide Convert, ParseConversion, SizeCode, DirectiveText;
    var t := DirectiveText(suppress, width, mod, c);
    var g := "%" + t + f;
    DirectiveRead(suppress, width, mod, c, f);
    DirectiveFront(suppress, width, mod, c);
    assert g[1..] == t + f && g[1] == t[0];
  }

  /** One directive is the whole format. */
  lemma {:induction false} ScanOne(s: string, suppress: bool, width: nat, mod: string, c: char, total: nat)
    requires width < 0x8000_0000 && IsModifier(mod) && IsConversion(c) && |s| <= total
    ensures WellFormed("%" + DirectiveText(suppress, width, mod, c))
    ensures
      Scan(s, "%" + DirectiveText(suppress, width, mod, c), total) ==
      match Convert(s, Conversion(suppress, width, SizeCode(mod), c, ""), total)
      case Stop => Result(0, [])
      case Go(stores, counted, rest) => Result(if counted then 1 else 0, stores)
  {
    hide Convert, ParseConversion, SizeCode, DirectiveText;
    ScanThen(s, suppress, width, mod, c, "", total);
    var f := "%" + DirectiveText(suppress, width, mod, c);
    var o := Convert(s, Conversion(suppress, width, SizeCode(mod), c, ""), total);
    assert f + "" == f;
    if o.Go? { assert o.stores + [] == o.stores; }
  }

  lemma DirectiveFront(suppress: bool, width: nat, mod: string, c: char)
    requires IsModifier(mod) && IsConversion(c)
    ensures
      var t := DirectiveText(suppress, width, mod, c);
      t != "" && t[0] != '%' && !IsSpace('%')
  {
    hide FormatLaws.FieldText;
    FormatLaws.FieldDigits(width);
    FormatLaws.PercentIsNoDigit();
    var w := FormatLaws.FieldText(width);
    var t := DirectiveText(suppress, width, mod, c);
    if !suppress {
      assert t == w + (mod + [c]);
      if w == "" { assert t == mod + [c]; } else { assert t[0] == w[0]; }
    }
  }

  // ---------- integers ----------

  lemma {:induction false} IntegerConverts(t: string, c: char, mod: string, v: int, rest: string, total: nat)
    requires c in "diuxX" && IsModifier(mod) && t != "" && !IsSpace(t[0]) && |t| <= total
    requires Strtol(t, if c in "xX" then 16 else if c == 'i' then 0 else 10) == (v, rest) && |rest| < |t|
    ensures Convert(t, Conversion(false, 0, SizeCode(mod), c, ""), total) ==
            Go([Number(Narrow(v, SizeCode(mod)))], true, rest)
  {
    hide Strtol, Narrow, SizeCode;
    assert SkipSpaces(t) == t;
  }

  /** Without a modifier the whole number is stored. */
  lemma {:induction false} IntegerScans(t: string, c: char, v: int, rest: string)
    requires c in "diuxX" && t != "" && !IsSpace(t[0])
    requires Strtol(t, if c in "xX" then 16 else if c == 'i' then 0 else 10) == (v, rest) && |rest| < |t|
    ensures WellFormed("%" + [c]) && Scan(t, "%" + [c], |t|) == Result(1, [Number(v)])
  {
    hide Strtol, Scan, WellFormed, Convert;
    IntegerConverts(t, c, "", v, rest, |t|);
    LetterIsConversion(c);
    ScanOne(t, false, 0, "", c, |t|);
    PlainText(c);
  }

  lemma LetterIsConversion(c: char)
    requires c in "diuxXscn"
    ensures IsConversion(c)
  {
  }

  lemma PlainText(c: char)
    ensures DirectiveText(false, 0, "", c) == [c]
  {
    assert "" + ("" + ("" + [c])) == [c];
  }

  lemma {:induction false} PrintedNumber(c: char, v: int)
    requires c in "diuxX" && (c in "di" ==> IsInt(v))
    ensures
      var val := if c in "di" then (if v < 0 then -v else v) else v % TWO32;
      && PrintfSpec.WellFormed("%" + [c], [PrintfSpec.IntArg(v)])
      && PrintfSpec.Render("%" + [c], [PrintfSpec.IntArg(v)]) ==
         (if c in "di" && v < 0 then "-" else "") + Digits(val, if c in "xX" then 16 else 10, c == 'X')
  {
    hide Digits, PrintfSpec.NumText, PrintfSpec.ParseSpec, PrintfSpec.Render, PrintfSpec.WellFormed;
    var val := if c in "di" then (if v < 0 then -v else v) else v % TWO32;
    PrintfSpec.PlainSpec(c, "", [PrintfSpec.IntArg(v)]);
    PrintfSpec.PlainNumber(val, if c in "xX" then 16 else 10, c == 'X', c in "di" && v < 0);
    assert [c] + "" == [c] && "" + [c] == [c] && "%" + "" + [c] == "%" + [c];
    var args := [PrintfSpec.IntArg(v)];
    FormatLaws.RenderOne("", c, PrintfSpec.Spec(false, false, 0, -1, c, "", args), args);
  }

  /** Each integer conversion reads back what it prints: every 32-bit number under d, i, u, x and X. */
  lemma {:induction false} ScanUndoesPrint(c: char, v: int)
    requires c in "diuxX" && (c in "di" ==> IsInt(v))
    ensures PrintfSpec.WellFormed("%" + [c], [PrintfSpec.IntArg(v)]) && WellFormed("%" + [c])
    ensures
      var text := PrintfSpec.Render("%" + [c], [PrintfSpec.IntArg(v)]);
      Scan(text, "%" + [c], |text|) == Result(1, [Number(Wrap(v))])
  {
    hide Digits, PrintfSpec.Render, PrintfSpec.WellFormed, Scan, WellFormed, Strtol, Wrap;
    var neg := c in "di" && v < 0;
    var val := if c in "di" then (if v < 0 then -v else v) else v % TWO32;
    var base, upper := if c in "xX" then 16 else 10, c == 'X';
    PrintedNumber(c, v);
    var ds, sign := Digits(val, base, upper), if neg then "-" else "";
    ReadBackIn(c, sign, val, base, upper);
    BackTo32(v, neg, val);
    IntegerScans(sign + ds, c, Wrap(v), "");
  }

  lemma BackTo32(v: int, neg: bool, val: int)
    requires if neg then IsInt(v) && val == -v else val == v || val == v % TWO32
    ensures Signed32(if neg then "-" else "", val) == Wrap(v)
  {
  }

  lemma {:induction false} ReadBackIn(c: char, sign: string, val: nat, base: nat, upper: bool)
    requires c in "diuxX" && (sign == "" || sign == "-") && base == if c in "xX" then 16 else 10
    ensures
      var t := sign + Digits(val, base, upper);
      && t != "" && !IsSpace(t[0])
      && Strtol(t, if c in "xX" then 16 else if c == 'i' then 0 else 10) == (Signed32(sign, val), "")
  {
    hide Digits, Strtol, Signed32, Value, AllDigits;
    var ds := Digits(val, base, upper);
    ValueOfDigits(val, base, upper);
    DigitsShape(val, base, upper);
    FirstIsDigit(ds, base);
    DigitFront(ds, base, "");
    var t := sign + ds;
    assert t[0] == if sign == "" then ds[0] else '-';
    assert ds + "" == ds && "" + t == t;
    if base == 16 {
      NoHexPrefix(ds, "");
      StrtolForm("", sign, ds, 16, 16, ds, "");
    } else if c == 'i' && val == 0 {
      assert ds == "0" && "0" + "" + "" == ds;
      NothingIsDigits();
      OctalForm("", sign, "", "");
      ValueOfNothing(8);
    } else {
      DecimalForm("", sign, ds, "", if c == 'i' then 0 else 10);
    }
  }

  lemma NothingIsDigits()
    ensures AllDigits("", 8)
  {
  }

  /** %i takes the base from the prefix; %x takes a "0x" or leaves it out. */
  lemma {:induction false} PrefixedScans(sign: string, x: char, hs: string, os: string)
    requires IsSign(sign) && (x == 'x' || x == 'X')
    requires hs != "" && AllDigits(hs, 16) && AllDigits(os, 8)
    ensures WellFormed("%i") && WellFormed("%x")
    ensures
      var hex, octal := sign + ("0" + [x] + hs), sign + ("0" + os);
      && Scan(hex, "%i", |hex|) == Result(1, [Number(Signed32(sign, Value(hs, 16)))])
      && Scan(hex, "%x", |hex|) == Result(1, [Number(Signed32(sign, Value(hs, 16)))])
      && Scan(octal, "%i", |octal|) == Result(1, [Number(Signed32(sign, Value(os, 8)))])
  {
    hide Strtol, Scan, WellFormed, Signed32, Value, AllDigits;
    var hex, octal := sign + ("0" + [x] + hs), sign + ("0" + os);
    assert hs + "" == hs && "" + hex == hex && "0" + os + "" == "0" + os && "" + octal == octal;
    HexForm("", sign, x, hs, "", 0);
    HexForm("", sign, x, hs, "", 16);
    OctalForm("", sign, os, "");
    SignFront(sign, "0" + [x] + hs);
    SignFront(sign, "0" + os);
    var i, h := 'i', 'x';
    IntegerScans(hex, i, Signed32(sign, Value(hs, 16)), "");
    IntegerScans(hex, h, Signed32(sign, Value(hs, 16)), "");
    IntegerScans(octal, i, Signed32(sign, Value(os, 8)), "");
    assert "%" + [i] == "%i" && "%" + [h] == "%x";
  }

  /** h keeps the value modulo 2^16 as a short, hh modulo 2^8 as a char, l and ll all of it. */
  lemma {:induction false} NarrowScans(t: string, c: char, mod: string, v: int, rest: string)
    requires c in "diuxX" && IsModifier(mod) && t != "" && !IsSpace(t[0])
    requires Strtol(t, if c in "xX" then 16 else if c == 'i' then 0 else 10) == (v, rest) && |rest| < |t|
    ensures WellFormed("%" + DirectiveText(false, 0, mod, c))
    ensures
      var r := Scan(t, "%" + DirectiveText(false, 0, mod, c), |t|);
      && r.matches == 1 && |r.stores| == 1 && r.stores[0].Number?
      && (mod == "h" ==> -0x8000 <= r.stores[0].v < 0x8000 && (r.stores[0].v - v) % 0x1_0000 == 0)
      && (mod == "hh" ==> -0x80 <= r.stores[0].v < 0x80 && (r.stores[0].v - v) % 0x100 == 0)
      && (mod != "h" && mod != "hh" ==> r.stores[0].v == v)
  {
    hide Strtol, Scan, WellFormed, Convert, DirectiveText;
    IntegerConverts(t, c, mod, v, rest, |t|);
    LetterIsConversion(c);
    ScanOne(t, false, 0, mod, c, |t|);
    NarrowMeans(v);
  }

  lemma NarrowMeans(v: int)
    ensures -0x8000 <= Narrow(v, -1) < 0x8000 && (Narrow(v, -1) - v) % 0x1_0000 == 0
    ensures -0x80 <= Narrow(v, -2) < 0x80 && (Narrow(v, -2) - v) % 0x100 == 0
  {
    hide Narrow;
    ShortMeans(v);
    CharMeans(v);
  }

  lemma ShortMeans(v: int)
    ensures -0x8000 <= Narrow(v, -1) < 0x8000 && (Narrow(v, -1) - v) % 0x1_0000 == 0
  {
    var q := (v + 0x8000) / 0x1_0000;
    assert Narrow(v, -1) - v == -0x1_0000 * q;
  }

  lemma CharMeans(v: int)
    ensures -0x80 <= Narrow(v, -2) < 0x80 && (Narrow(v, -2) - v) % 0x100 == 0
  {
    var q := (v + 0x80) / 0x100;
    assert Narrow(v, -2) - v == -0x100 * q;
  }

  // ---------- text ----------

  /** %s: behind the blanks, the bytes up to the next blank, and no more than the width. */
  lemma {:induction false} WordScans(ws: string, word: string, tail: string, width: nat)
    requires Blank(ws) && word != "" && (forall i :: 0 <= i < |word| ==> !IsSpace(word[i])) && width < 0x8000_0000
    requires width > 0 ==> |word| <= width
    requires tail == "" || IsSpace(tail[0]) || |word| == width
    ensures WellFormed("%" + DirectiveText(false, width, "", 's'))
    ensures
      var s := ws + (word + tail);
      Scan(s, "%" + DirectiveText(false, width, "", 's'), |s|) == Result(1, [Text(word)])
  {
    hide Scan, WellFormed, DirectiveText, WordLength, SkipSpaces, IsSpace;
    var s, t := ws + (word + tail), word + tail;
    assert t[0] == word[0];
    SkipBlankPrefix(ws, t);
    WordTaken(word, tail, if width == 0 then -1 else width);
    LetterIsConversion('s');
    assert t[..|word|] == word;
    ScanOne(s, false, width, "", 's', |s|);
  }

  lemma {:induction false} WordTaken(word: string, tail: string, limit: int)
    requires (forall i :: 0 <= i < |word| ==> !IsSpace(word[i])) && (limit >= 0 ==> |word| <= limit)
    requires tail == "" || IsSpace(tail[0]) || |word| == limit
    ensures WordLength(word + tail, limit) == |word|
    decreases |word|
  {
    hide IsSpace;
    var t := word + tail;
    if word == "" {
      assert t == tail;
    } else {
      assert t[0] == word[0] && t[1..] == word[1..] + tail;
      WordTaken(word[1..], tail, limit - 1);
    }
  }

  /** %c: the next bytes as they are, one or as many as the width; nothing at the end of the input. */
  lemma {:induction false} CharsScan(s: string, width: nat)
    requires width < 0x8000_0000
    ensures WellFormed("%" + DirectiveText(false, width, "", 'c'))
    ensures
      var n := if width == 0 then 1 else width;
      Scan(s, "%" + DirectiveText(false, width, "", 'c'), |s|) ==
      if s == "" then Result(0, []) else Result(1, [Text(if n < |s| then s[..n] else s)])
  {
    hide Scan, WellFormed, DirectiveText;
    LetterIsConversion('c');
    ScanOne(s, false, width, "", 'c', |s|);
    assert s[..|s|] == s;
  }

  /** %n: how many bytes have been consumed; it is no match. */
  lemma {:induction false} CountScans(text: string, s: string, total: nat)
    requires (forall i :: 0 <= i < |text| ==> text[i] != '%' && !IsSpace(text[i]) && text[i] != '\0')
    requires |text + s| <= total
    ensures WellFormed(text + "%n")
    ensures Scan(text + s, text + "%n", total) == Result(0, [Number(total - |s|)])
    decreases |text|
  {
    hide IsSpace, Convert, ParseConversion;
    var f := text + "%n";
    if text == "" {
      assert text + s == s && f == "%n";
      LetterIsConversion('n');
      PlainText('n');
      ScanOne(s, false, 0, "", 'n', total);
      CountConverts(s, total);
      assert "%" + "n" == "%n";
    } else {
      CountScans(text[1..], s, total);
      assert f[0] == text[0] && f[1..] == text[1..] + "%n" && (text + s)[0] == text[0];
      assert (text + s)[1..] == text[1..] + s;
    }
  }

  lemma CountConverts(s: string, total: nat)
    requires |s| <= total
    ensures Convert(s, Conversion(false, 0, 0, 'n', ""), total) == Go([Number(total - |s|)], false, s)
  {
  }

  /** A '*' stores nothing; it counts and moves on as the directive without it. */
  lemma {:induction false} SuppressedScans(s: string, width: nat, mod: string, c: char)
    requires width < 0x8000_0000 && IsModifier(mod) && IsConversion(c)
    ensures WellFormed("%" + DirectiveText(true, width, mod, c))
    ensures WellFormed("%" + DirectiveText(false, width, mod, c))
    ensures Scan(s, "%" + DirectiveText(true, width, mod, c), |s|) ==
            Result(Scan(s, "%" + DirectiveText(false, width, mod, c), |s|).matches, [])
    ensures
      var plain := Convert(s, Conversion(false, width, SizeCode(mod), c, ""), |s|);
      Convert(s, Conversion(true, width, SizeCode(mod), c, ""), |s|) ==
      if plain.Stop? then Stop else Go([], plain.counted, plain.rest)
  {
    hide Scan, WellFormed, DirectiveText, Strtol, SkipSpaces, WordLength, Narrow, SizeCode;
    ScanOne(s, true, width, mod, c, |s|);
    ScanOne(s, false, width, mod, c, |s|);
  }

  // ---------- text in the format ----------

  /** Other text must be there as it stands; where it is not, scanning ends. */
  lemma {:induction false} TextScans(text: string, s: string, f: string, total: nat)
    requires (forall i :: 0 <= i < |text| ==> text[i] != '%' && !IsSpace(text[i])) && WellFormed(f) && |s| <= total
    ensures WellFormed(text + f)
    ensures Scan(s, text + f, total) == if text <= s then Scan(s[|text|..], f, total) else Result(0, [])
    decreases |text|
  {
    hide IsSpace, Convert, ParseConversion;
    var g := text + f;
    if text == "" {
      assert g == f && s[0..] == s;
    } else {
      assert g[0] == text[0] && g[1..] == text[1..] + f;
      if s == "" || s[0] != text[0] {
        TextScans(text[1..], "", f, total);
      } else {
        TextScans(text[1..], s[1..], f, total);
        assert text <= s <==> text[1..] <= s[1..] by {
          assert text == [text[0]] + text[1..] && s == [s[0]] + s[1..];
        }
        if text <= s { assert s[1..][|text| - 1..] == s[|text|..]; }
      }
    }
  }

  /** Blanks in the format take any number of blanks of the input, none included. */
  lemma {:induction false} BlanksScan(ws: string, vs: string, s: string, f: string, total: nat)
    requires Blank(ws) && ws != "" && Blank(vs) && (s == "" || !IsSpace(s[0])) && (f == "" || !IsSpace(f[0]))
    requires WellFormed(f) && |vs + s| <= total
    ensures WellFormed(ws + f) && Scan(vs + s, ws + f, total) == Scan(s, f, total)
  {
    hide IsSpace, Convert, ParseConversion, SkipSpaces;
    SkipBlankPrefix(ws, f);
    SkipBlankPrefix(vs, s);
    BlanksFormed(ws, f);
    assert (ws + f)[0] == ws[0];
  }

  lemma {:induction false} BlanksFormed(ws: string, f: string)
    requires Blank(ws) && WellFormed(f)
    ensures WellFormed(ws + f)
  {
    hide ParseConversion;
    if ws == "" {
      assert ws + f == f;
    } else {
      BlanksFormed(ws[1..], f);
      assert (ws + f)[1..] == ws[1..] + f && IsSpace(ws[0]);
    }
  }

  /** "%%" must meet a percent sign. */
  lemma PercentScans(s: string, f: string, total: nat)
    requires WellFormed(f) && |s| <= total
    ensures WellFormed("%%" + f)
    ensures Scan(s, "%%" + f, total) == if s != "" && s[0] == '%' then Scan(s[1..], f, total) else Result(0, [])
  {
    hide Convert, ParseConversion;
    var g := "%%" + f;
    assert g[0] == '%' && g[1] == '%' && g[2..] == f;
  }

  // ---------- where scanning ends ----------

  /** A number that is not there, or an input that is all blank, ends the scan: later directives store nothing. */
  lemma {:induction false} MismatchEnds(ws: string, u: string, suppress: bool, width: nat, mod: string, c: char,
                                        f: string)
    requires width < 0x8000_0000 && IsModifier(mod) && IsConversion(c) && WellFormed(f)
    requires Blank(ws) && c != 'n' && c != 'c' && PlainFront(u)
    requires u == "" || (c in "diuxX" && !IsDigitOf(u[0], if c in "xX" then 16 else 10))
    ensures WellFormed("%" + DirectiveText(suppress, width, mod, c) + f)
    ensures Scan(ws + u, "%" + DirectiveText(suppress, width, mod, c) + f, |ws + u|) == Result(0, [])
  {
    hide Scan, WellFormed, DirectiveText, Strtol, SkipSpaces, IsDigitOf, IsConversion, SizeCode;
    ScanThen(ws + u, suppress, width, mod, c, f, |ws + u|);
    SkipBlankPrefix(ws, u);
    if u != "" {
      assert "" + u == u;
      NoNumber("", "", u, if c in "xX" then 16 else if c == 'i' then 0 else 10);
    }
  }

  /** A conversion vsscanf does not have skips blanks, stores nothing and is no match. */
  lemma {:induction false} OtherScans(ws: string, u: string, suppress: bool, width: nat, mod: string, c: char,
                                      f: string)
    requires width < 0x8000_0000 && IsModifier(mod) && IsConversion(c) && WellFormed(f)
    requires Blank(ws) && u != "" && !IsSpace(u[0]) && c !in "ncsdiuxX"
    ensures WellFormed("%" + DirectiveText(suppress, width, mod, c) + f)
    ensures
      Scan(ws + u, "%" + DirectiveText(suppress, width, mod, c) + f, |ws + u|) == Scan(u, f, |ws + u|)
  {
    hide Scan, WellFormed, DirectiveText, Strtol, SkipSpaces, IsDigitOf, IsConversion, SizeCode;
    ScanThen(ws + u, suppress, width, mod, c, f, |ws + u|);
    SkipBlankPrefix(ws, u);
    PlusNothing(0, [], Scan(u, f, |ws + u|));
  }
}
