/** inet_aton and inet_ntoa. */
module Net {
  import opened Memory
  import opened CStrings
  import opened Numerals
  import PrintfSpec
  import Printf
  import Vsnprintf

  // ---------- words as bits ----------

  /** Bitwise or. */
  function Or(x: nat, y: nat): (r: nat)
    decreases x + y
  {
    if x == 0 && y == 0 then 0
    else 2 * Or(x / 2, y / 2) + if x % 2 == 1 || y % 2 == 1 then 1 else 0
  }

  function Shl(x: Word, k: nat): Word { x * Pow2(k) % TWO32 }

  lemma {:induction false} OrZero(y: nat)
    ensures Or(0, y) == y && Or(y, 0) == y
  {
    if y > 0 { OrZero(y / 2); }
  }

  /** Fields that do not overlap add up. */
  lemma {:induction false} OrDisjoint(x: nat, k: nat, y: nat)
    requires y < Pow2(k)
    ensures Or(x * Pow2(k), y) == x * Pow2(k) + y
  {
    if k == 0 {
      OrZero(x);
    } else {
      var h := x * Pow2(k - 1);
      assert x * Pow2(k) == 2 * h;
      OrDisjoint(x, k - 1, y / 2);
      if x * Pow2(k) == 0 && y == 0 { OrZero(0); }
    }
  }

  /** An or stays below a power of two exactly when both operands do. */
  lemma {:induction false} OrBound(x: nat, y: nat, k: nat)
    ensures Or(x, y) < Pow2(k) <==> x < Pow2(k) && y < Pow2(k)
  {
    OrNonZero(x, y);
    if k > 0 && !(x == 0 && y == 0) { OrBound(x / 2, y / 2, k - 1); }
  }

  lemma {:induction false} OrNonZero(x: nat, y: nat)
    ensures Or(x, y) == 0 <==> x == 0 && y == 0
    decreases x + y
  {
    if !(x == 0 && y == 0) { OrNonZero(x / 2, y / 2); }
  }

  lemma {:induction false} OrCommutes(x: nat, y: nat)
    ensures Or(x, y) == Or(y, x)
    decreases x + y
  {
    if !(x == 0 && y == 0) { OrCommutes(x / 2, y / 2); }
  }

  lemma SmallPowers()
    ensures Pow2(8) == 0x100 && Pow2(16) == 0x1_0000 && Pow2(24) == 0x100_0000
  {
    assert Pow2(4) == 16;
    assert Pow2(8) == 256;
    assert Pow2(12) == 4096;
    assert Pow2(16) == 65536;
    assert Pow2(20) == 1048576;
  }

  /** Four bytes, most significant first. */
  function Quad(a: int, b: int, c: int, d: int): int { a * 0x100_0000 + b * 0x1_0000 + c * 0x100 + d }

  predicate IsByte(b: int) { 0 <= b < 256 }

  lemma Byte0(h: int, d: int)
    requires IsByte(d)
    ensures (0x100 * h + d) / 0x100 == h && (0x100 * h + d) % 0x100 == d
  {
  }

  lemma {:induction false} QuadBounds(a: int, b: int, c: int, d: int)
    requires IsByte(a) && IsByte(b) && IsByte(c) && IsByte(d)
    ensures 0 <= Quad(a, b, c, d) < TWO32
    ensures
      var w := Quad(a, b, c, d);
      w / 0x100_0000 == a && w / 0x1_0000 % 0x100 == b && w / 0x100 % 0x100 == c && w % 0x100 == d
  {
    var x := 0x100 * a + b;
    var y := 0x100 * x + c;
    var w := 0x100 * y + d;
    assert w == Quad(a, b, c, d);
    Byte0(a, b);
    Byte0(x, c);
    Byte0(y, d);
    DivTwice(w);
  }

  lemma DivTwice(w: int)
    ensures w / 0x1_0000 == w / 0x100 / 0x100 && w / 0x100_0000 == w / 0x100 / 0x100 / 0x100
  {
    var p, q := w / 0x100, w / 0x100 / 0x100;
    assert w == 0x1_0000 * q + 0x100 * (p % 0x100) + w % 0x100;
    var r := q / 0x100;
    assert w == 0x100_0000 * r + 0x1_0000 * (q % 0x100) + 0x100 * (p % 0x100) + w % 0x100;
  }

  /** Bytes shifted to their places and or-ed together. */
  lemma {:induction false} OrOfBytes(a: nat, b: nat, c: nat, d: nat)
    requires IsByte(a) && IsByte(b) && IsByte(c) && IsByte(d)
    ensures Or(Or(Or(a * 0x100_0000, b * 0x1_0000), c * 0x100), d) == Quad(a, b, c, d)
  {
    hide Or, Pow2;
    SmallPowers();
    OrDisjoint(a, 24, b * 0x1_0000);
    OrDisjoint(a * 0x100 + b, 16, c * 0x100);
    OrDisjoint(a * 0x1_0000 + b * 0x100 + c, 8, d);
  }

  lemma {:induction false} OrOfBytesUpwards(a: nat, b: nat, c: nat, d: nat)
    requires IsByte(a) && IsByte(b) && IsByte(c) && IsByte(d)
    ensures Or(Or(Or(d, c * 0x100), b * 0x1_0000), a * 0x100_0000) == Quad(a, b, c, d)
  {
    hide Or, Pow2;
    SmallPowers();
    OrCommutes(d, c * 0x100);
    OrDisjoint(c, 8, d);
    OrCommutes(c * 0x100 + d, b * 0x1_0000);
    OrDisjoint(b, 16, c * 0x100 + d);
    OrCommutes(b * 0x1_0000 + c * 0x100 + d, a * 0x100_0000);
    OrDisjoint(a, 24, b * 0x1_0000 + c * 0x100 + d);
  }

  function Htonl(h: Word): Word
  {
    Or(Or(Or(h / 0x100_0000, h / 0x1_0000 % 0x100 * 0x100), h / 0x100 % 0x100 * 0x1_0000),
       h % 0x100 * 0x100_0000) % TWO32
  }

  lemma BelowTwo32(w: int)
    requires 0 <= w < TWO32
    ensures w % TWO32 == w
  {
  }

  /** htonl reverses the four bytes. */
  lemma {:induction false} HtonlReverses(a: int, b: int, c: int, d: int)
    requires IsByte(a) && IsByte(b) && IsByte(c) && IsByte(d)
    ensures 0 <= Quad(a, b, c, d) < TWO32 && Htonl(Quad(a, b, c, d)) == Quad(d, c, b, a)
  {
    hide Or, Quad;
    QuadBounds(a, b, c, d);
    QuadBounds(d, c, b, a);
    OrOfBytesUpwards(d, c, b, a);
    BelowTwo32(Quad(d, c, b, a));
  }

  // ---------- inet_aton ----------

  predicate IsDecimal(c: char) { '0' <= c <= '9' }

  predicate IsHex(c: char) { IsDecimal(c) || 'a' <= c <= 'f' || 'A' <= c <= 'F' }

  function HexValue(c: char): int
    requires IsHex(c) && !IsDecimal(c)
  {
    if 'a' <= c <= 'f' then c as int - 'a' as int + 10 else c as int - 'A' as int + 10
  }

  datatype Part = Part(val: Word, n: nat, rest: string)

  /** The base a part is read in; a leading '0' is taken as a prefix and not counted. */
  function PartBase(cp: string): (r: (int, string))
    ensures |r.1| <= |cp|
  {
    if cp != "" && cp[0] == '0' then
      (if |cp| > 1 && (cp[1] == 'x' || cp[1] == 'X') then (16, cp[2..]) else (8, cp[1..]))
    else (10, cp)
  }

  /** Digits of a part; base 8 takes any decimal digit. */
  function PartDigits(cp: string, base: int, val: Word, n: nat): (r: Part)
    ensures |r.rest| <= |cp|
    decreases |cp|
  {
    if cp != "" && IsDecimal(cp[0]) then
      PartDigits(cp[1..], base, (val * base + (cp[0] as int - '0' as int)) % TWO32, n + 1)
    else if cp != "" && base == 16 && IsHex(cp[0]) then
      PartDigits(cp[1..], base, Or(val * 16 % TWO32, HexValue(cp[0])) % TWO32, n + 1)
    else Part(val, n, cp)
  }

  function ReadPart(cp: string): (r: Part)
    ensures |r.rest| <= |cp|
  {
    var (base, rest) := PartBase(cp);
    PartDigits(rest, base, 0, 0)
  }

  datatype Parts = Invalid | Parts(values: seq<Word>)

  /** Up to four parts separated by dots, ended by a blank or the end of the text. */
  function ReadParts(cp: string, before: seq<Word>): (r: Parts)
    requires |before| <= 3
    ensures r.Parts? ==> 1 <= |r.values| <= 4
    decreases |cp|
  {
    var p := ReadPart(cp);
    if p.rest != "" && p.rest[0] == '.' then
      if |before| >= 3 || p.n == 0 then Invalid else ReadParts(p.rest[1..], before + [p.val])
    else if p.rest != "" && !IsSpace(p.rest[0]) then Invalid
    else if p.n == 0 then Invalid
    else Parts(before + [p.val])
  }

  datatype Address = NoAddress | Address(sAddr: Word)

  /** The parts put together, each in the bytes the dotted notation gives it. */
  function Assemble(vs: seq<Word>): Address
    requires 1 <= |vs| <= 4
  {
    if |vs| == 1 then Address(Htonl(vs[0]))
    else if |vs| == 2 then
      if vs[1] > 0xff_ffff then NoAddress else Address(Htonl(Or(Shl(vs[0], 24), vs[1]) % TWO32))
    else if |vs| == 3 then
      if vs[2] > 0xffff then NoAddress else Address(Htonl(Or(Or(Shl(vs[0], 24), Shl(vs[1], 16)), vs[2]) % TWO32))
    else if Or(Or(Or(vs[0], vs[1]), vs[2]), vs[3]) > 0xff then NoAddress
    else Address(Htonl(Or(Or(Or(Shl(vs[0], 24), Shl(vs[1], 16)), Shl(vs[2], 8)), vs[3]) % TWO32))
  }

  function Aton(cp: string): Address
  {
    match ReadParts(cp, [])
    case Invalid => NoAddress
    case Parts(vs) => Assemble(vs)
  }

  method ScanPart(cp0: string) returns (p: Part)
    ensures p == ReadPart(cp0)
  {
    var cp, base := cp0, 10;
    if At(cp, 0) == '0' {
      cp := cp[1..];
      if At(cp, 0) == 'x' || At(cp, 0) == 'X' {
        base, cp := 16, cp[1..];
      } else {
        base := 8;
      }
    }
    var val: Word, n: nat := 0, 0;
    while cp != ""
      invariant PartDigits(cp, base, val, n) == ReadPart(cp0)
      decreases |cp|
    {
      if IsDecimal(cp[0]) {
        val := (val * base + (cp[0] as int - '0' as int)) % TWO32;
      } else if base == 16 && IsHex(cp[0]) {
        val := Or(val * 16 % TWO32, HexValue(cp[0])) % TWO32;
      } else {
        break;
      }
      cp, n := cp[1..], n + 1;
    }
    p := Part(val, n, cp);
  }

  method InetAton(text: string) returns (r: Address)
    ensures r == Aton(text)
  {
    hide ReadPart, Htonl, Or;
    var cp := text;
    var parts: seq<Word> := [];
    var p;
    while true
      invariant |parts| <= 3 && ReadParts(cp, parts) == ReadParts(text, [])
      decreases |cp|
    {
      p := ScanPart(cp);
      if At(p.rest, 0) == '.' {
        if |parts| >= 3 || p.n == 0 { return NoAddress; }
        parts := parts + [p.val];
        cp := p.rest[1..];
      } else {
        break;
      }
    }
    if p.rest != "" && !IsSpace(p.rest[0]) { return NoAddress; }
    if p.n == 0 { return NoAddress; }
    parts := parts + [p.val];
    r := Assemble(parts);
  }

  // ---------- inet_ntoa ----------

  function Dotted(os: seq<Word>): string
    requires os != []
  {
    Digits(os[0], 10, false) + if |os| == 1 then "" else "." + Dotted(os[1..])
  }

  /** The bytes of an address in memory order. */
  function Octets(sAddr: Word): (os: seq<Word>)
    ensures |os| == 4 && forall i :: 0 <= i < 4 ==> IsByte(os[i])
  {
    [sAddr % 0x100, sAddr / 0x100 % 0x100, sAddr / 0x1_0000 % 0x100, sAddr / 0x100_0000]
  }

  function DottedFormat(k: nat): string
    requires k > 0
  {
    "%u" + if k == 1 then "" else "." + DottedFormat(k - 1)
  }

  function DottedArgs(os: seq<Word>): seq<PrintfSpec.Arg>
  {
    if os == [] then [] else [PrintfSpec.IntArg(os[0])] + DottedArgs(os[1..])
  }

  lemma PlainU(rest: string, v: nat, args: seq<PrintfSpec.Arg>)
    requires v < TWO32
    ensures
      var d := PrintfSpec.ParseSpec("u" + rest, [PrintfSpec.IntArg(v)] + args);
      && PrintfSpec.SpecOk(d) && d.rest == rest && PrintfSpec.ArgsAfter(d) == args
      && PrintfSpec.Expand(d) == Digits(v, 10, false)
  {
    hide Digits, PrintfSpec.ParseSpec, PrintfSpec.NumText;
    PrintfSpec.PlainSpec('u', rest, [PrintfSpec.IntArg(v)] + args);
    PrintfSpec.PlainNumber(v, 10, false, false);
    assert "" + Digits(v, 10, false) == Digits(v, 10, false);
  }

  lemma {:induction false} RenderDotted(os: seq<Word>)
    requires os != [] && forall i :: 0 <= i < |os| ==> IsByte(os[i])
    ensures PrintfSpec.WellFormed(DottedFormat(|os|), DottedArgs(os))
    ensures PrintfSpec.Render(DottedFormat(|os|), DottedArgs(os)) == Dotted(os)
  {
    hide PrintfSpec.ParseSpec, PrintfSpec.Expand, PrintfSpec.SpecOk, Digits;
    var f := DottedFormat(|os|);
    var tail := if |os| == 1 then "" else "." + DottedFormat(|os| - 1);
    assert f[0] == '%' && f[1] == 'u' && f[1..] == "u" + tail;
    PlainU(tail, os[0], DottedArgs(os[1..]));
    if |os| > 1 {
      RenderDotted(os[1..]);
      assert tail[0] == '.' && tail[1..] == DottedFormat(|os| - 1);
    }
  }

  lemma {:induction false} DottedLength(os: seq<Word>)
    requires os != [] && forall i :: 0 <= i < |os| ==> IsByte(os[i])
    ensures |Dotted(os)| <= 4 * |os| - 1
  {
    hide Digits;
    assert Printf.Power(10, 3) == 1000;
    Printf.DigitsLength(os[0], 10, false, 3);
    if |os| > 1 { DottedLength(os[1..]); }
  }

  lemma FormatText()
    ensures DottedFormat(4) == "%u.%u.%u.%u"
  {
    assert DottedFormat(1) == "%u";
    assert DottedFormat(2) == "%u.%u";
    assert DottedFormat(3) == "%u.%u.%u";
  }

  /** The 18-byte buffer always holds the whole text. */
  method InetNtoa(sAddr: Word) returns (buf: array<char>)
    ensures fresh(buf) && buf.Length == 18
    ensures
      var n := |Dotted(Octets(sAddr))|;
      n <= 15 && buf[..n] == Dotted(Octets(sAddr)) && buf[n] == '\0'
  {
    hide Dotted, PrintfSpec.Render, PrintfSpec.WellFormed;
    buf := new char[18];
    var os := Octets(sAddr);
    RenderDotted(os);
    DottedLength(os);
    FormatText();
    var n := Vsnprintf.Vsnprintf(buf, 18, "%u.%u.%u.%u", DottedArgs(os));
  }

  // ---------- round trip ----------

  /** A digit the loop takes in the base; base 8 takes 8 and 9 as well. */
  predicate IsPartDigit(c: char, base: int) { IsDecimal(c) || (base == 16 && IsHex(c)) }

  lemma {:induction false} DigitsOfPart(ds: string, k: nat, tail: string, base: int)
    requires (base == 8 || base == 10 || base == 16) && k <= |ds| && (tail == "" || !IsPartDigit(tail[0], base))
    requires forall i :: 0 <= i < |ds| ==> IsPartDigit(ds[i], base)
    ensures PartDigits(ds[k..] + tail, base, Value(ds[..k], base) % TWO32, k) ==
            Part(Value(ds, base) % TWO32, |ds|, tail)
    decreases |ds| - k
  {
    hide Value, Or, PartDigits;
    var cp := ds[k..] + tail;
    if k == |ds| {
      assert cp == tail && ds[..k] == ds;
      PartDone(tail, base, Value(ds, base) % TWO32, k);
    } else {
      assert IsPartDigit(ds[k], base) && cp[0] == ds[k] && cp[1..] == ds[k + 1..] + tail;
      ValueStep(ds, k, base);
      PartStep(cp, base, Value(ds[..k], base), k);
      DigitsOfPart(ds, k + 1, tail, base);
    }
  }

  lemma PartDone(cp: string, base: int, val: Word, n: nat)
    requires cp == "" || !IsPartDigit(cp[0], base)
    ensures PartDigits(cp, base, val, n) == Part(val, n, cp)
  {
  }

  lemma {:induction false} PartStep(cp: string, base: int, v: int, n: nat)
    requires (base == 8 || base == 10 || base == 16) && cp != "" && IsPartDigit(cp[0], base)
    ensures PartDigits(cp, base, v % TWO32, n) ==
            PartDigits(cp[1..], base, (v * base + DigitValue(cp[0])) % TWO32, n + 1)
  {
    hide Or;
    ModTimes(v, base, DigitValue(cp[0]));
    if !IsDecimal(cp[0]) { HexStep(v % TWO32, DigitValue(cp[0])); }
  }

  lemma FieldBits(v: nat, p: nat, q: nat)
    requires p > 0 && p * q == TWO32
    ensures v * q % TWO32 == v % p * q
  {
    var h, l := v / p, v % p;
    assert v * q == TWO32 * h + l * q by {
      assert v == p * h + l;
      Spread(p, h, l, q);
    }
    assert 0 <= l * q < TWO32 by { assert l * q < p * q; }
  }

  lemma Spread(p: int, h: int, l: int, q: int)
    ensures (p * h + l) * q == (p * q) * h + l * q
  {
  }

  /** Shifting by four and or-ing a hexadecimal digit is multiplying and adding. */
  lemma {:induction false} HexStep(val: Word, h: nat)
    requires h < 16
    ensures Or(val * 16 % TWO32, h) % TWO32 == (val * 16 + h) % TWO32
  {
    hide Or;
    var x := val % 0x1000_0000;
    FieldBits(val, 0x1000_0000, 16);
    assert Pow2(4) == 16;
    OrDisjoint(x, 4, h);
    assert val * 16 + h == x * 16 + h + TWO32 * (val / 0x1000_0000);
  }

  lemma ModTimes(v: int, base: int, d: int)
    ensures (v % TWO32 * base + d) % TWO32 == (v * base + d) % TWO32
  {
    var q, r := v / TWO32, v % TWO32;
    assert v * base + d == r * base + d + TWO32 * (q * base) by {
      assert (r + TWO32 * q) * base == r * base + TWO32 * (q * base);
    }
  }

  /** A printed octet is read back, except that a lone "0" leaves no digits to count. */
  lemma {:induction false} PartOfOctet(o: nat, tail: string)
    requires IsByte(o) && (tail == "" || tail[0] == '.')
    ensures
      var p := ReadPart(Digits(o, 10, false) + tail);
      p.rest == tail && (p.n == 0 <==> o == 0) && p.val == o
  {
    hide Digits, Value;
    var ds := Digits(o, 10, false);
    var cp := ds + tail;
    assert cp[0] == ds[0];
    DigitsShape(o, 10, false);
    ValueOfDigits(o, 10, false);
    if o == 0 {
      ZeroDigits(10, false);
      assert cp[1..] == tail;
    } else {
      assert ds[0..] == ds && ds[..0] == "";
      ValueOfNothing(10);
      assert forall i :: 0 <= i < |ds| ==> IsDigitOf(ds[i], 10);
      DigitsOfPart(ds, 0, tail, 10);
    }
  }

  ghost predicate NoZero(os: seq<Word>) { forall i :: 0 <= i < |os| ==> os[i] != 0 }

  lemma {:induction false} PartsOfDotted(os: seq<Word>, before: seq<Word>)
    requires os != [] && (forall i :: 0 <= i < |os| ==> IsByte(os[i])) && |before| + |os| <= 4
    ensures ReadParts(Dotted(os), before) == if NoZero(os) then Parts(before + os) else Invalid
    decreases |os|
  {
    hide Digits, ReadPart;
    var tail := if |os| == 1 then "" else "." + Dotted(os[1..]);
    PartOfOctet(os[0], tail);
    if |os| == 1 {
      assert before + os == before + [os[0]];
    } else {
      assert tail[1..] == Dotted(os[1..]);
      PartsOfDotted(os[1..], before + [os[0]]);
      assert before + [os[0]] + os[1..] == before + os;
      assert NoZero(os) <==> os[0] != 0 && NoZero(os[1..]) by {
        assert forall i :: 0 < i < |os| ==> os[i] == os[1..][i - 1];
        assert forall i :: 0 <= i < |os| - 1 ==> os[1..][i] == os[i + 1];
      }
    }
  }

  lemma ShiftedBytes(a: Word, b: Word, c: Word)
    requires IsByte(a) && IsByte(b) && IsByte(c)
    ensures Shl(a, 24) == a * 0x100_0000 && Shl(b, 16) == b * 0x1_0000 && Shl(c, 8) == c * 0x100
  {
    hide Pow2;
    SmallPowers();
  }

  lemma {:induction false} OrIsByte(a: nat, b: nat, c: nat, d: nat)
    requires IsByte(a) && IsByte(b) && IsByte(c) && IsByte(d)
    ensures Or(Or(Or(a, b), c), d) <= 0xff
  {
    hide Or, Pow2;
    SmallPowers();
    OrBound(a, b, 8);
    OrBound(Or(a, b), c, 8);
    OrBound(Or(Or(a, b), c), d, 8);
  }

  lemma {:induction false} FourParts(a: Word, b: Word, c: Word, d: Word)
    requires IsByte(a) && IsByte(b) && IsByte(c) && IsByte(d)
    ensures 0 <= Quad(d, c, b, a) < TWO32 && Assemble([a, b, c, d]) == Address(Quad(d, c, b, a))
  {
    hide Or, Htonl, Shl, Quad;
    OrIsByte(a, b, c, d);
    ShiftedBytes(a, b, c);
    OrOfBytes(a, b, c, d);
    QuadBounds(a, b, c, d);
    QuadBounds(d, c, b, a);
    HtonlReverses(a, b, c, d);
  }

  lemma OctetsQuad(sAddr: Word)
    ensures
      var os := Octets(sAddr);
      Quad(os[3], os[2], os[1], os[0]) == sAddr
  {
    DivTwice(sAddr);
    var x := sAddr / 0x100;
    var y := x / 0x100;
    assert sAddr == 0x100 * x + sAddr % 0x100 && x == 0x100 * y + x % 0x100 && y == 0x100 * (y / 0x100) + y % 0x100;
  }

  /** inet_aton undoes inet_ntoa exactly for the addresses without a zero octet, and rejects the text of all others. */
  lemma {:induction false} AtonOfNtoa(sAddr: Word)
    ensures Aton(Dotted(Octets(sAddr))) == if NoZero(Octets(sAddr)) then Address(sAddr) else NoAddress
  {
    hide Dotted, ReadParts, Assemble, Octets, Quad;
    var os := Octets(sAddr);
    PartsOfDotted(os, []);
    FourParts(os[0], os[1], os[2], os[3]);
    OctetsQuad(sAddr);
    assert [] + os == os == [os[0], os[1], os[2], os[3]];
  }
}
