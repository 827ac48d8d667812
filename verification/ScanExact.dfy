/** Exactly which formats sscanf reads back. */
module ScanExact {
  import opened Numerals
  import opened ScanPrint
  import PrintfSpec
  import Scanf

  /** sscanf, with the same format, gets every value back from what snprintf printed. */
  ghost predicate Recovers(items: seq<Item>, vals: seq<int>)
    requires PlainText(items) && CountInts(items) == |vals| && AllInts(vals)
  {
    RenderPrinted(items, vals);
    FormatScans(items);
    var text := PrintfSpec.Render(FormatOf(items), Args(vals));
    Scanf.Scan(text, FormatOf(items), |text|) == Scanf.Result(|vals|, Numbers(vals))
  }

  // ---------- a number that runs into the next item ----------

  lemma {:induction false} ParityOfValue(s: string, base: int)
    requires s != "" && base % 2 == 0
    ensures Value(s, base) % 2 == DigitValue(s[|s| - 1]) % 2
  {
    hide DigitValue, Value;
    var t, c := s[..|s| - 1], s[|s| - 1];
    var x := Value(t, base);
    assert s == t + [c];
    ValueOfLast(t, c, base, x);
    EvenProduct(x, base);
    EvenSum(x * base, DigitValue(c));
  }

  lemma EvenSum(a: int, d: int)
    requires a % 2 == 0
    ensures (a + d) % 2 == d % 2
  {
  }

  lemma EvenProduct(x: int, y: int)
    requires y % 2 == 0
    ensures x * y % 2 == 0
  {
    assert y == 2 * (y / 2);
    assert x * y == 2 * (x * (y / 2));
  }

  lemma WrapKeepsParity(x: int)
    ensures Wrap(x) % 2 == x % 2
  {
  }

  /** What strtol makes of the digit `c` printed in front of more digits. */
  lemma {:induction false} GluedNumber(c: char, tail: string)
    requires IsDigitOf(c, 10) && tail != "" && IsDigitOf(tail[0], 10)
    ensures
      var n := RunLength(tail, 10);
      && n > 0 && Strtol([c] + tail, 10).0 % 2 == DigitValue(tail[n - 1]) % 2
      && |Strtol([c] + tail, 10).1| <= |tail|
  {
    hide Strtol, Value, Wrap, DigitValue;
    var n := RunLength(tail, 10);
    var ds, rest, s := [c] + tail[..n], tail[n..], [c] + tail;
    assert s == "" + (ds + rest);
    DigitIsNoSpace(c);
    assert SkipSpaces(s) == s;
    StrtolAt(s, false, ds, rest, 10);
    ParityOfValue(ds, 10);
    WrapKeepsParity(Value(ds, 10));
  }

  lemma DigitIsNoSpace(c: char)
    requires IsDigitOf(c, 10)
    ensures !IsSpace(c)
  {
  }

  /** The value, 1 or 2, that is not read back in front of `tail`. */
  function Unlucky(tail: string): (v: int)
    ensures v == 1 || v == 2
  {
    if Strtol("1" + tail, 10).0 == 1 then 2 else 1
  }

  lemma {:induction false} UnluckyIsLost(tail: string)
    requires tail != "" && IsDigitOf(tail[0], 10)
    ensures Decimal(Unlucky(tail)) == (if Unlucky(tail) == 1 then "1" else "2")
    ensures
      var s := Decimal(Unlucky(tail)) + tail;
      Strtol(s, 10).0 != Unlucky(tail) && |Strtol(s, 10).1| < |s|
  {
    hide Strtol;
    GluedNumber('1', tail);
    GluedNumber('2', tail);
    assert Decimal(1) == "1" && Decimal(2) == "2";
  }

  lemma {:induction false} ScanGlued(tail: string, f: string, total: nat)
    requires tail != "" && IsDigitOf(tail[0], 10) && |Decimal(Unlucky(tail)) + tail| <= total
    requires Scanf.WellFormed("%d" + f)
    ensures
      var r := Scanf.Scan(Decimal(Unlucky(tail)) + tail, "%d" + f, total);
      r.stores != [] && r.stores[0] != Scanf.Number(Unlucky(tail))
  {
    hide IsSpace, Decimal, Strtol, Unlucky, Scanf.ParseConversion, SkipSpaces, Scanf.WellFormed;
    var v, s := Unlucky(tail), Decimal(Unlucky(tail)) + tail;
    assert ("%d" + f)[1..] == "d" + f;
    PercentIsNoSpace();
    ScanD(f);
    UnluckyIsLost(tail);
    DecimalHead(v);
    assert s[0] == Decimal(v)[0];
    SkipStep(s);
  }

  // ---------- values that betray a format ----------

  function Zeros(n: nat): (r: seq<int>)
    ensures |r| == n && AllInts(r)
  {
    seq(n, _ => 0)
  }

  /** Values that show what goes wrong at the first number that runs into the next item. */
  function Spoiler(items: seq<Item>): (vals: seq<int>)
    ensures |vals| == CountInts(items) && AllInts(vals)
  {
    if items == [] then []
    else if !items[0].Int? then Spoiler(items[1..])
    else if |items| > 1 && Glues(items[1]) then
      var rest := Zeros(CountInts(items[1..]));
      [Unlucky(Printed(items[1..], rest))] + rest
    else [0] + Spoiler(items[1..])
  }

  lemma {:induction false} SpoilerBehindBlanks(items: seq<Item>)
    ensures Spoiler(BehindBlanks(items)) == Spoiler(items)
  {
    if items != [] && items[0].Byte? { SpoilerBehindBlanks(items[1..]); }
  }

  lemma {:induction false} GluedFurtherOn(items: seq<Item>)
    requires PlainText(items) && !Separated(items)
    ensures items != [] && PlainText(items[1..])
    ensures !items[0].Int? || !(|items| > 1 && Glues(items[1])) ==> !Separated(items[1..])
  {
    hide Glues;
    var i :| 0 <= i < i + 1 < |items| && items[i].Int? && Glues(items[i + 1]);
    if i > 0 { assert items[1..][i - 1] == items[i] && items[1..][i] == items[i + 1]; }
  }

  lemma {:induction false} GluedBehindBlanks(items: seq<Item>)
    requires PlainText(items) && !Separated(items)
    ensures PlainText(BehindBlanks(items)) && !Separated(BehindBlanks(items))
  {
    hide PlainText, Separated;
    GluedFurtherOn(items);
    if items[0].Byte? { GluedBehindBlanks(items[1..]); }
  }

  lemma {:induction false} StartsWithDigit(x: Item, rest: seq<Item>, vals: seq<int>)
    requires Glues(x) && |vals| == CountInts([x] + rest) && vals == Zeros(|vals|)
    ensures
      var t := Printed([x] + rest, vals);
      t != "" && IsDigitOf(t[0], 10)
  {
    assert ([x] + rest)[1..] == rest;
    assert Decimal(0) == "0";
  }

  lemma SameHead<T>(x: T, a: seq<T>, b: seq<T>)
    ensures [x] + a == [x] + b ==> a == b
  {
    assert ([x] + a)[1..] == a && ([x] + b)[1..] == b;
  }

  lemma {:induction false} GluedFails(items: seq<Item>, total: nat)
    requires PlainText(items) && |items| > 1 && items[0].Int? && Glues(items[1])
    requires |Printed(items, Spoiler(items))| <= total
    ensures Scanf.WellFormed(FormatOf(items))
    ensures Scanf.Scan(Printed(items, Spoiler(items)), FormatOf(items), total).stores != Numbers(Spoiler(items))
  {
    hide Scanf.Scan, Scanf.WellFormed, Decimal, PlainText, Glues, Unlucky;
    FormatScans(items);
    var rest, vals := items[1..], Spoiler(items);
    assert rest == [items[1]] + items[2..] && vals[1..] == Zeros(CountInts(rest));
    StartsWithDigit(items[1], items[2..], vals[1..]);
    ScanGlued(Printed(rest, vals[1..]), FormatOf(rest), total);
  }

  lemma {:induction false} SpoilerFails(items: seq<Item>, total: nat)
    requires PlainText(items) && !Separated(items) && |Printed(items, Spoiler(items))| <= total
    ensures Scanf.WellFormed(FormatOf(items))
    ensures Scanf.Scan(Printed(items, Spoiler(items)), FormatOf(items), total).stores != Numbers(Spoiler(items))
    decreases |items|
  {
    hide Scanf.Scan, Scanf.WellFormed, IsSpace, Decimal, Separated, SkipSpaces, PlainText, Glues, Unlucky;
    FormatScans(items);
    GluedFurtherOn(items);
    var rest, vals := items[1..], Spoiler(items);
    match items[0] {
      case Byte(c) =>
        if IsSpace(c) {
          GluedBehindBlanks(items);
          SkipTogether(items, vals);
          SpoilerBehindBlanks(items);
          ShorterBehindBlanks(items, vals);
          SpoilerFails(BehindBlanks(items), total);
          ScanBlank(Printed(items, vals), FormatOf(items), total);
        } else {
          FirstItem(items);
          SpoilerFails(rest, total);
          ScanText(c, Printed(rest, vals), FormatOf(rest), total);
        }
      case Percent =>
        SpoilerFails(rest, total);
        ScanPercent(Printed(rest, vals), FormatOf(rest), total);
      case Int =>
        if |items| > 1 && Glues(items[1]) {
          GluedFails(items, total);
        } else {
          assert vals[1..] == Spoiler(rest) && vals[0] == 0;
          NumberEnds(items, vals);
          SpoilerFails(rest, total);
          ScanNumber(0, Printed(rest, vals[1..]), FormatOf(rest), total);
          SameHead(Scanf.Number(0), Scanf.Scan(Printed(rest, vals[1..]), FormatOf(rest), total).stores,
                   Numbers(vals[1..]));
        }
    }
  }

  /**
   The condition is exact: a format of text, %% and %d gives every list of values back if and only if
   no %d is followed directly by a digit or by another %d.
   */
  lemma {:induction false} RecoversExactly(items: seq<Item>)
    requires PlainText(items)
    ensures Separated(items) <==>
            forall vals :: CountInts(items) == |vals| && AllInts(vals) ==> Recovers(items, vals)
  {
    if Separated(items) {
      forall vals | CountInts(items) == |vals| && AllInts(vals) ensures Recovers(items, vals) {
        SscanfUndoesSnprintf(items, vals);
      }
    } else {
      var vals := Spoiler(items);
      RenderPrinted(items, vals);
      SpoilerFails(items, |Printed(items, vals)|);
      assert !Recovers(items, vals);
    }
  }
}
