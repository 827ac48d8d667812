/** sscanf undoes snprintf on formats made of %d, %% and text. */
module ScanPrint {
  import opened Numerals
  import PrintfSpec
  import Scanf

  /** A piece of a format: a byte of text, a literal '%' or a %d. */
  datatype Item = Byte(c: char) | Percent | Int

  function FormatOf(items: seq<Item>): string
  {
    if items == [] then ""
    else (match items[0] case Byte(c) => [c] case Percent => "%%" case Int => "%d") + FormatOf(items[1..])
  }

  /** Text bytes are not '%'. */
  ghost predicate PlainText(items: seq<Item>)
  {
    forall i :: 0 <= i < |items| && items[i].Byte? ==> items[i].c != '%'
  }

  /** Printed directly behind a number, the item would run into it. */
  predicate Glues(x: Item) { x.Int? || (x.Byte? && IsDigitOf(x.c, 10)) }

  /** No %d is followed directly by a digit or by another %d. */
  ghost predicate Separated(items: seq<Item>)
  {
    PlainText(items) && forall i, j :: 0 <= i < j < |items| && j == i + 1 && items[i].Int? ==> !Glues(items[j])
  }

  function CountInts(items: seq<Item>): nat
  {
    if items == [] then 0 else (if items[0].Int? then 1 else 0) + CountInts(items[1..])
  }

  function Args(vals: seq<int>): (r: seq<PrintfSpec.Arg>)
    ensures |r| == |vals|
  {
    if vals == [] then [] else [PrintfSpec.IntArg(vals[0])] + Args(vals[1..])
  }

  function Numbers(vals: seq<int>): seq<Scanf.Stored>
  {
    if vals == [] then [] else [Scanf.Number(vals[0])] + Numbers(vals[1..])
  }

  predicate AllInts(vals: seq<int>) { forall i :: 0 <= i < |vals| ==> IsInt(vals[i]) }

  /** What is printed. */
  function Printed(items: seq<Item>, vals: seq<int>): string
    requires CountInts(items) == |vals|
  {
    if items == [] then ""
    else match items[0]
         case Byte(c) => [c] + Printed(items[1..], vals)
         case Percent => "%" + Printed(items[1..], vals)
         case Int => Decimal(vals[0]) + Printed(items[1..], vals[1..])
  }

  function Decimal(v: int): string
  {
    (if v < 0 then "-" else "") + Digits(if v < 0 then -v else v, 10, false)
  }

  // ---------- printing ----------

  lemma PlainD(rest: string, v: int, args: seq<PrintfSpec.Arg>)
    requires IsInt(v)
    ensures
      var d := PrintfSpec.ParseSpec("d" + rest, [PrintfSpec.IntArg(v)] + args);
      && PrintfSpec.SpecOk(d) && d.rest == rest && PrintfSpec.ArgsAfter(d) == args
      && PrintfSpec.Expand(d) == Decimal(v)
  {
    hide Digits, PrintfSpec.ParseSpec, PrintfSpec.NumText;
    PrintfSpec.PlainSpec('d', rest, [PrintfSpec.IntArg(v)] + args);
    PrintfSpec.PlainNumber(if v < 0 then -v else v, 10, false, v < 0);
  }

  lemma {:induction false} RenderPrinted(items: seq<Item>, vals: seq<int>)
    requires PlainText(items) && CountInts(items) == |vals| && AllInts(vals)
    ensures PrintfSpec.WellFormed(FormatOf(items), Args(vals))
    ensures PrintfSpec.Render(FormatOf(items), Args(vals)) == Printed(items, vals)
  {
    hide PrintfSpec.ParseSpec, PrintfSpec.Expand, PrintfSpec.SpecOk;
    if items != [] {
      assert PlainText(items[1..]);
      var f, rest := FormatOf(items), FormatOf(items[1..]);
      match items[0] {
        case Byte(c) =>
          assert f[0] == c && f[1..] == rest;
          RenderPrinted(items[1..], vals);
        case Percent =>
          assert f[0] == '%' && f[1] == '%' && f[2..] == rest;
          RenderPrinted(items[1..], vals);
        case Int =>
          assert f[0] == '%' && f[1] == 'd' && f[1..] == "d" + rest;
          RenderPrinted(items[1..], vals[1..]);
          PlainD(rest, vals[0], Args(vals[1..]));
      }
    }
  }

  // ---------- scanning ----------

  lemma ScanD(rest: string)
    ensures Scanf.ParseConversion("d" + rest) == Scanf.Conversion(false, 0, 0, 'd', rest)
  {
    var f := "d" + rest;
    assert RunLength(f, 10) == 0 && f[0..] == f && f[..0] == "" && Value("", 10) == 0 && f[1..] == rest;
  }

  lemma {:induction false} FormatScans(items: seq<Item>)
    requires PlainText(items)
    ensures Scanf.WellFormed(FormatOf(items))
  {
    hide Scanf.ParseConversion;
    if items != [] {
      assert PlainText(items[1..]);
      FormatScans(items[1..]);
      var f, rest := FormatOf(items), FormatOf(items[1..]);
      match items[0] {
        case Byte(c) => assert f[0] == c && f[1..] == rest;
        case Percent => assert f[0] == '%' && f[1] == '%' && f[2..] == rest;
        case Int =>
          assert f[0] == '%' && f[1] == 'd' && f[1..] == "d" + rest;
          ScanD(rest);
      }
    }
  }

  /** The items behind a run of blank text. */
  function BehindBlanks(items: seq<Item>): (r: seq<Item>)
    ensures |r| <= |items| && r == items[|items| - |r|..]
    ensures r == [] || !(r[0].Byte? && IsSpace(r[0].c))
    ensures CountInts(r) == CountInts(items)
  {
    if items != [] && items[0].Byte? && IsSpace(items[0].c) then BehindBlanks(items[1..]) else items
  }

  lemma DecimalHead(v: int)
    ensures Decimal(v) != "" && !IsSpace(Decimal(v)[0])
  {
    var u := if v < 0 then -v else v;
    ValueOfDigits(u, 10, false);
    FirstIsDigit(Digits(u, 10, false), 10);
  }

  lemma BehindStep(items: seq<Item>)
    ensures BehindBlanks(items) ==
            if items != [] && items[0].Byte? && IsSpace(items[0].c) then BehindBlanks(items[1..]) else items
  {
  }

  lemma FormatHead(items: seq<Item>)
    ensures items == [] ==> FormatOf(items) == ""
    ensures items != [] ==>
              var f := FormatOf(items);
              f != "" && if items[0].Byte? then f[0] == items[0].c && f[1..] == FormatOf(items[1..]) else f[0] == '%'
  {
  }

  lemma PrintedHead(items: seq<Item>, vals: seq<int>)
    requires CountInts(items) == |vals|
    ensures items == [] ==> Printed(items, vals) == ""
    ensures items != [] && items[0].Byte? ==>
              var s := Printed(items, vals);
              s != "" && s[0] == items[0].c && s[1..] == Printed(items[1..], vals)
    ensures items != [] && !items[0].Byte? ==> Printed(items, vals) != "" && !IsSpace(Printed(items, vals)[0])
  {
    hide IsSpace, Decimal;
    PercentIsNoSpace();
    if items != [] && items[0].Int? { DecimalHead(vals[0]); }
  }

  lemma {:induction false} SkipFormat(items: seq<Item>)
    ensures SkipSpaces(FormatOf(items)) == FormatOf(BehindBlanks(items))
  {
    hide IsSpace, SkipSpaces, FormatOf, BehindBlanks;
    PercentIsNoSpace();
    FormatHead(items);
    SkipStep(FormatOf(items));
    BehindStep(items);
    if items != [] { SkipFormat(items[1..]); }
  }

  lemma {:induction false} SkipPrinted(items: seq<Item>, vals: seq<int>)
    requires CountInts(items) == |vals|
    ensures SkipSpaces(Printed(items, vals)) == Printed(BehindBlanks(items), vals)
  {
    hide IsSpace, SkipSpaces, Printed, BehindBlanks;
    PrintedHead(items, vals);
    SkipStep(Printed(items, vals));
    BehindStep(items);
    if items != [] && items[0].Byte? { SkipPrinted(items[1..], vals); }
  }

  /** Blanks in the format and in the output are skipped together. */
  lemma {:induction false} SkipTogether(items: seq<Item>, vals: seq<int>)
    requires CountInts(items) == |vals|
    ensures SkipSpaces(FormatOf(items)) == FormatOf(BehindBlanks(items))
    ensures SkipSpaces(Printed(items, vals)) == Printed(BehindBlanks(items), vals)
  {
    SkipFormat(items);
    SkipPrinted(items, vals);
  }

  lemma PercentIsNoSpace()
    ensures !IsSpace('%')
  {
  }

  lemma SkipStep(s: string)
    ensures SkipSpaces(s) == if s != "" && IsSpace(s[0]) then SkipSpaces(s[1..]) else s
  {
  }

  /** Behind a %d nothing printed extends the number. */
  lemma {:induction false} NumberEnds(items: seq<Item>, vals: seq<int>)
    requires CountInts(items) == |vals| && items != [] && items[0].Int? && (|items| > 1 ==> !Glues(items[1]))
    ensures
      var tail := Printed(items[1..], vals[1..]);
      tail == "" || !IsDigitOf(tail[0], 10)
  {
    if |items| > 1 {
      assert items[1..][0] == items[1];
    }
  }

  lemma {:induction false} StrtolDecimal(v: int, tail: string)
    requires IsInt(v) && (tail == "" || !IsDigitOf(tail[0], 10))
    ensures Strtol(Decimal(v) + tail, 10) == (v, tail)
  {
    hide Digits, Strtol, Value, SkipSpaces, Wrap, AllDigits, IsDigitOf, IsHexPrefix, IsSpace, Decimal;
    var u := if v < 0 then -v else v;
    var ds, t := Digits(u, 10, false), Decimal(v) + tail;
    ValueOfDigits(u, 10, false);
    DecimalHead(v);
    assert t[0] == Decimal(v)[0];
    SkipStep(t);
    SignInFront(v, tail);
    StrtolAt(t, v < 0, ds, tail, 10);
    SignBack(v);
  }

  lemma SignInFront(v: int, tail: string)
    ensures Decimal(v) + tail == (if v < 0 then "-" else "") + (Digits(if v < 0 then -v else v, 10, false) + tail)
  {
    hide Digits;
  }

  lemma SeparatedMeans(items: seq<Item>)
    requires Separated(items)
    ensures PlainText(items) && (|items| > 1 && items[0].Int? ==> !Glues(items[1]))
  {
  }

  lemma SeparatedSuffix(items: seq<Item>, k: nat)
    requires Separated(items) && k <= |items|
    ensures Separated(items[k..])
  {
  }

  // One turn of the scanner, on text that agrees with the format.

  lemma ScanText(c: char, s: string, f: string, total: nat)
    requires !IsSpace(c) && c != '%' && Scanf.WellFormed([c] + f) && Scanf.WellFormed(f) && |s| < total
    ensures Scanf.Scan([c] + s, [c] + f, total) == Scanf.Scan(s, f, total)
  {
    hide IsSpace, Scanf.ParseConversion, Scanf.Convert, SkipSpaces, Scanf.WellFormed;
    assert ([c] + s)[1..] == s && ([c] + f)[1..] == f;
  }

  lemma ScanPercent(s: string, f: string, total: nat)
    requires Scanf.WellFormed("%%" + f) && Scanf.WellFormed(f) && |s| < total
    ensures Scanf.Scan("%" + s, "%%" + f, total) == Scanf.Scan(s, f, total)
  {
    hide Scanf.ParseConversion, Scanf.Convert, SkipSpaces, Scanf.WellFormed;
    assert ("%" + s)[1..] == s && ("%%" + f)[2..] == f;
  }

  lemma ScanBlank(s: string, f: string, total: nat)
    requires f != "" && IsSpace(f[0]) && Scanf.WellFormed(f) && Scanf.WellFormed(SkipSpaces(f)) && |s| <= total
    ensures Scanf.Scan(s, f, total) == Scanf.Scan(SkipSpaces(s), SkipSpaces(f), total)
  {
    hide IsSpace, Scanf.ParseConversion, Scanf.Convert, SkipSpaces, Scanf.WellFormed;
  }

  lemma ScanNumber(v: int, s: string, f: string, total: nat)
    requires IsInt(v) && (s == "" || !IsDigitOf(s[0], 10)) && |Decimal(v) + s| <= total
    requires Scanf.WellFormed("%d" + f) && Scanf.WellFormed(f)
    ensures
      var r := Scanf.Scan(s, f, total);
      Scanf.Scan(Decimal(v) + s, "%d" + f, total) == Scanf.Result(r.matches + 1, [Scanf.Number(v)] + r.stores)
  {
    hide IsSpace, Decimal, Scanf.ParseConversion, Scanf.Convert, SkipSpaces, Scanf.WellFormed;
    assert ("%d" + f)[1..] == "d" + f;
    PercentIsNoSpace();
    ScanD(f);
    ConvertDecimal(v, s, f, total);
  }

  lemma {:induction false} ScanPrinted(items: seq<Item>, vals: seq<int>, total: nat)
    requires Separated(items) && CountInts(items) == |vals| && AllInts(vals) && |Printed(items, vals)| <= total
    ensures Scanf.WellFormed(FormatOf(items))
    ensures Scanf.Scan(Printed(items, vals), FormatOf(items), total) == Scanf.Result(|vals|, Numbers(vals))
    decreases |items|
  {
    hide Scanf.Scan, Scanf.WellFormed, IsSpace, Decimal, Separated, SkipSpaces, PlainText, Glues;
    SeparatedMeans(items);
    FormatScans(items);
    if items == [] {
      ScanNothing(total);
    } else {
      var rest := items[1..];
      SeparatedSuffix(items, 1);
      match items[0] {
        case Byte(c) =>
          if IsSpace(c) {
            var b := BehindBlanks(items);
            SkipTogether(items, vals);
            SeparatedSuffix(items, |items| - |b|);
            ShorterBehindBlanks(items, vals);
            ScanPrinted(b, vals, total);
            ScanBlank(Printed(items, vals), FormatOf(items), total);
          } else {
            FirstItem(items);
            ScanPrinted(rest, vals, total);
            ScanText(c, Printed(rest, vals), FormatOf(rest), total);
          }
        case Percent =>
          ScanPrinted(rest, vals, total);
          ScanPercent(Printed(rest, vals), FormatOf(rest), total);
        case Int =>
          NumberEnds(items, vals);
          ScanPrinted(rest, vals[1..], total);
          ScanNumber(vals[0], Printed(rest, vals[1..]), FormatOf(rest), total);
      }
    }
  }

  lemma ScanNothing(total: nat)
    ensures Scanf.WellFormed("") && Scanf.Scan("", "", total) == Scanf.Result(0, [])
  {
  }

  lemma FirstItem(items: seq<Item>)
    requires PlainText(items) && items != []
    ensures items[0].Byte? ==> items[0].c != '%'
    ensures PlainText(items[1..])
  {
  }

  lemma ShorterBehindBlanks(items: seq<Item>, vals: seq<int>)
    requires items != [] && items[0].Byte? && IsSpace(items[0].c) && CountInts(items) == |vals|
    ensures |BehindBlanks(items)| < |items|
    ensures |Printed(BehindBlanks(items), vals)| <= |Printed(items, vals)|
  {
    SkipTogether(items, vals);
  }

  lemma ConvertDecimal(v: int, tail: string, rest: string, total: nat)
    requires IsInt(v) && (tail == "" || !IsDigitOf(tail[0], 10)) && |Decimal(v) + tail| <= total
    ensures Scanf.Convert(Decimal(v) + tail, Scanf.Conversion(false, 0, 0, 'd', rest), total) ==
            Scanf.Go([Scanf.Number(v)], true, tail)
  {
    hide Strtol, Decimal, SkipSpaces, IsSpace, Scanf.WordLength;
    var s := Decimal(v) + tail;
    DecimalHead(v);
    assert s[0] == Decimal(v)[0] && |s| > |tail|;
    SkipStep(s);
    StrtolDecimal(v, tail);
  }

  /** sscanf, given what snprintf has printed and the same format, recovers every value. */
  lemma {:induction false} SscanfUndoesSnprintf(items: seq<Item>, vals: seq<int>)
    requires Separated(items) && CountInts(items) == |vals| && AllInts(vals)
    ensures PrintfSpec.WellFormed(FormatOf(items), Args(vals)) && Scanf.WellFormed(FormatOf(items))
    ensures
      var text := PrintfSpec.Render(FormatOf(items), Args(vals));
      Scanf.Scan(text, FormatOf(items), |text|) == Scanf.Result(|vals|, Numbers(vals))
  {
    RenderPrinted(items, vals);
    ScanPrinted(items, vals, |Printed(items, vals)|);
  }
}
