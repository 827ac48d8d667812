/** The address forms inet_aton accepts: one to four numbers in three notations, and what they add up to. */
module NetLaws {
  import opened Memory
  import opened Numerals
  import opened Net

  // ---------- numbers in three notations ----------

  datatype Numeral = Dec(ds: string) | Oct(ds: string) | Hex(x: char, ds: string)

  function Base(n: Numeral): int { match n case Dec(_) => 10 case Oct(_) => 8 case Hex(_, _) => 16 }

  predicate Proper(n: Numeral)
  {
    && n.ds != "" && (forall i :: 0 <= i < |n.ds| ==> IsPartDigit(n.ds[i], Base(n)))
    && (n.Dec? ==> n.ds[0] != '0') && (n.Hex? ==> n.x == 'x' || n.x == 'X')
  }

  function Text(n: Numeral): string
  {
    match n
    case Dec(ds) => ds
    case Oct(ds) => "0" + ds
    case Hex(x, ds) => "0" + [x] + ds
  }

  function Val(n: Numeral): Word { Value(n.ds, Base(n)) % TWO32 }

  /** Nothing, or a byte that the number cannot go on with. */
  predicate Ends(n: Numeral, tail: string) { tail == "" || !IsPartDigit(tail[0], Base(n)) }

  /** A number is read to its end in the base its prefix names. */
  lemma {:induction false} NumeralRead(n: Numeral, tail: string)
    requires Proper(n) && Ends(n, tail)
    ensures ReadPart(Text(n) + tail) == Part(Val(n), |n.ds|, tail)
  {
    hide Value, PartDigits, ReadPart, Text, IsPartDigit;
    var ds := n.ds;
    PrefixRead(n, tail);
    assert ds[0..] == ds && ds[..0] == "";
    ValueOfNothing(Base(n));
    DigitsOfPart(ds, 0, tail, Base(n));
  }

  lemma PrefixRead(n: Numeral, tail: string)
    requires Proper(n)
    ensures ReadPart(Text(n) + tail) == PartDigits(n.ds + tail, Base(n), 0, 0)
  {
    hide PartDigits;
    var cp, ds := Text(n) + tail, n.ds;
    match n {
      case Dec(_) => assert cp == ds + tail && cp[0] == ds[0];
      case Oct(_) => assert cp[0] == '0' && cp[1] == ds[0] && cp[1..] == ds + tail;
      case Hex(x, _) => assert cp[0] == '0' && cp[1] == x && cp[2..] == ds + tail;
    }
  }

  // ---------- dotted numbers ----------

  function Joined(ns: seq<Numeral>): string
    requires ns != []
  {
    Text(ns[0]) + if |ns| == 1 then "" else "." + Joined(ns[1..])
  }

  function Vals(ns: seq<Numeral>): (vs: seq<Word>)
    ensures |vs| == |ns|
  {
    if ns == [] then [] else [Val(ns[0])] + Vals(ns[1..])
  }

  /** A blank or the end may follow an address; another byte, or a dot without a number behind it, spoils it. */
  predicate Closes(tail: string) { tail == "" || IsSpace(tail[0]) }

  predicate Spoils(tail: string)
  {
    tail != "" && !IsSpace(tail[0]) && (tail[0] == '.' ==> |tail| == 1 || !IsDecimal(tail[1]))
  }

  /** Up to four dotted numbers are read as they stand; more, or anything else behind them, is refused. */
  lemma {:induction false} JoinedRead(ns: seq<Numeral>, tail: string, before: seq<Word>)
    requires ns != [] && (forall i :: 0 <= i < |ns| ==> Proper(ns[i])) && |before| <= 3
    requires Ends(ns[|ns| - 1], tail) && (Closes(tail) || Spoils(tail))
    ensures ReadParts(Joined(ns) + tail, before) ==
            if |before| + |ns| <= 4 && Closes(tail) then Parts(before + Vals(ns)) else Invalid
    decreases |ns|
  {
    hide *;
    var v := Val(ns[0]);
    JoinedStep(ns, tail);
    ValsStep(ns, before);
    if |ns| == 1 {
      LastPart(ns[0], tail, before);
    } else {
      InnerPart(ns[0], Joined(ns[1..]) + tail, before);
      if |before| < 3 {
        assert forall i :: 0 <= i < |ns| - 1 ==> ns[1..][i] == ns[i + 1];
        JoinedRead(ns[1..], tail, before + [v]);
      }
    }
  }

  lemma LastPart(n: Numeral, tail: string, before: seq<Word>)
    requires Proper(n) && |before| <= 3 && Ends(n, tail) && (Closes(tail) || Spoils(tail))
    ensures ReadParts(Text(n) + tail, before) == if Closes(tail) then Parts(before + [Val(n)]) else Invalid
  {
    hide Text, Val, ReadPart, IsDecimal;
    if tail != "" && tail[0] == '.' {
      assert tail == "." + tail[1..];
      InnerPart(n, tail[1..], before);
      if |before| < 3 { NoPart(tail[1..], before + [Val(n)]); }
    } else {
      NumeralRead(n, tail);
    }
  }

  /** Where no digit stands there is no part. */
  lemma NoPart(cp: string, before: seq<Word>)
    requires |before| <= 3 && (cp == "" || !IsDecimal(cp[0]))
    ensures ReadParts(cp, before) == Invalid
  {
  }

  lemma InnerPart(n: Numeral, cp: string, before: seq<Word>)
    requires Proper(n) && |before| <= 3
    ensures ReadParts(Text(n) + ("." + cp), before) ==
            if |before| == 3 then Invalid else ReadParts(cp, before + [Val(n)])
  {
    hide Text, Val, ReadPart;
    NumeralRead(n, "." + cp);
    assert ("." + cp)[1..] == cp;
  }

  lemma ValsStep(ns: seq<Numeral>, before: seq<Word>)
    requires ns != []
    ensures before + Vals(ns) == before + [Val(ns[0])] + Vals(ns[1..]) && (|ns| == 1 ==> Vals(ns) == [Val(ns[0])])
  {
    hide Val;
    Regroup(before, [Val(ns[0])], Vals(ns[1..]));
  }

  lemma Regroup<T>(a: seq<T>, b: seq<T>, c: seq<T>)
    ensures a + (b + c) == a + b + c
  {
  }

  lemma JoinedStep(ns: seq<Numeral>, tail: string)
    requires ns != []
    ensures
      Joined(ns) + tail == Text(ns[0]) + if |ns| == 1 then tail else "." + (Joined(ns[1..]) + tail)
  {
    hide Text;
    if |ns| == 1 {
      assert Joined(ns) == Text(ns[0]);
    } else {
      Regroup(Text(ns[0]), "." + Joined(ns[1..]), tail);
      Regroup(".", Joined(ns[1..]), tail);
    }
  }

  // ---------- what the numbers add up to ----------

  /** Fields that share their upper part are or-ed there. */
  lemma {:induction false} OrShifted(x: nat, y: nat, k: nat, z: nat)
    requires z < Pow2(k)
    ensures Or(x * Pow2(k), y * Pow2(k) + z) == Or(x, y) * Pow2(k) + z
  {
    hide Or;
    if k > 0 {
      var p := Pow2(k - 1);
      var a, b := x * p, y * p + z / 2;
      TwiceSum(x, y, p, z);
      OrStep(2 * a, 2 * b + z % 2);
      OrShifted(x, y, k - 1, z / 2);
      assert 2 * (Or(x, y) * p) == Or(x, y) * Pow2(k) by { assert 2 * (Or(x, y) * p) == Or(x, y) * (2 * p); }
    }
  }

  lemma TwiceSum(x: nat, y: nat, p: nat, z: nat)
    ensures x * (2 * p) == 2 * (x * p) && y * (2 * p) + z == 2 * (y * p + z / 2) + z % 2
  {
  }

  lemma OrStep(x: nat, y: nat)
    ensures Or(x, y) == 2 * Or(x / 2, y / 2) + if x % 2 == 1 || y % 2 == 1 then 1 else 0
  {
    if x == 0 && y == 0 { OrZero(0); }
  }

  /** The address whose bytes in memory are a, b, c, d. */
  lemma {:induction false} AddressOf(a: int, b: int, c: int, d: int)
    requires IsByte(a) && IsByte(b) && IsByte(c) && IsByte(d)
    ensures 0 <= Quad(a, b, c, d) < TWO32 && Octets(Htonl(Quad(a, b, c, d))) == [a, b, c, d]
  {
    hide Or, Htonl, Quad;
    HtonlReverses(a, b, c, d);
    QuadBounds(a, b, c, d);
    QuadBounds(d, c, b, a);
  }

  lemma WordBytes(v: Word)
    ensures v == Quad(v / 0x100_0000, v / 0x1_0000 % 0x100, v / 0x100 % 0x100, v % 0x100)
    ensures IsByte(v / 0x100_0000) && IsByte(v / 0x1_0000 % 0x100) && IsByte(v / 0x100 % 0x100) && IsByte(v % 0x100)
  {
    DivTwice(v);
  }

  /** "a": the number is the address, most significant byte first. */
  lemma {:induction false} OnePart(v: Word)
    ensures
      var r := Assemble([v]);
      r.Address? && Octets(r.sAddr) == [v / 0x100_0000, v / 0x1_0000 % 0x100, v / 0x100 % 0x100, v % 0x100]
  {
    hide Or, Htonl, Quad, Octets;
    WordBytes(v);
    AddressOf(v / 0x100_0000, v / 0x1_0000 % 0x100, v / 0x100 % 0x100, v % 0x100);
  }

  lemma ShiftedField(v: Word)
    ensures Shl(v, 24) == v % 0x100 * 0x100_0000 && Shl(v, 16) == v % 0x1_0000 * 0x1_0000
  {
    hide Pow2;
    SmallPowers();
    FieldBits(v, 0x100, 0x100_0000);
    FieldBits(v, 0x1_0000, 0x1_0000);
  }

  /** "a.b": one byte and a number of three. */
  lemma {:induction false} TwoParts(a: Word, b: Word)
    ensures
      var r := Assemble([a, b]);
      && (r.Address? <==> b <= 0xff_ffff)
      && (r.Address? ==> Octets(r.sAddr) == [a % 0x100, b / 0x1_0000, b / 0x100 % 0x100, b % 0x100])
  {
    hide Or, Htonl, Octets, Shl, Quad;
    if b <= 0xff_ffff {
      TwoFields(a, b);
      AddressOf(a % 0x100, b / 0x1_0000, b / 0x100 % 0x100, b % 0x100);
    }
  }

  lemma {:induction false} TwoFields(a: Word, b: Word)
    requires b <= 0xff_ffff
    ensures IsByte(b / 0x1_0000)
    ensures Or(Shl(a, 24), b) == Quad(a % 0x100, b / 0x1_0000, b / 0x100 % 0x100, b % 0x100)
  {
    hide Or, Shl, Pow2;
    SmallPowers();
    ShiftedField(a);
    OrDisjoint(a % 0x100, 24, b);
    WordBytes(b);
    assert b / 0x1_0000 % 0x100 == b / 0x1_0000;
  }

  /** "a.b.c": two bytes and a number of two; what `b` has above one byte is or-ed into the first. */
  lemma {:induction false} ThreeParts(a: Word, b: Word, c: Word)
    ensures
      var r := Assemble([a, b, c]);
      && (r.Address? <==> c <= 0xffff)
      && (r.Address? ==> Octets(r.sAddr) == [Or(a % 0x100, b / 0x100 % 0x100), b % 0x100, c / 0x100, c % 0x100])
      && (b < 0x100 ==> Or(a % 0x100, b / 0x100 % 0x100) == a % 0x100)
  {
    hide Or, Htonl, Octets, Shl, Quad;
    OrZero(a % 0x100);
    if c <= 0xffff {
      var t := Or(a % 0x100, b / 0x100 % 0x100);
      ThreeFields(a, b, c);
      AddressOf(t, b % 0x100, c / 0x100, c % 0x100);
    }
  }

  lemma {:induction false} ThreeFields(a: Word, b: Word, c: Word)
    requires c <= 0xffff
    ensures
      var t := Or(a % 0x100, b / 0x100 % 0x100);
      IsByte(t) && Or(Or(Shl(a, 24), Shl(b, 16)), c) == Quad(t, b % 0x100, c / 0x100, c % 0x100)
  {
    hide Or, Shl, Pow2;
    var x, hi, lo := a % 0x100, b / 0x100 % 0x100, b % 0x100;
    var t := Or(x, hi);
    SmallPowers();
    OrBound(x, hi, 8);
    ShiftedField(a);
    ShiftedField(b);
    HighLow(b);
    OrShifted(x, hi, 24, lo * 0x1_0000);
    OrDisjoint(t * 0x100 + lo, 16, c);
  }

  lemma HighLow(b: Word)
    ensures b % 0x1_0000 * 0x1_0000 == b / 0x100 % 0x100 * 0x100_0000 + b % 0x100 * 0x1_0000
  {
    assert b % 0x1_0000 == b / 0x100 % 0x100 * 0x100 + b % 0x100;
  }

  /** "a.b.c.d": four bytes, refused if any is none. */
  lemma {:induction false} FourPartsMean(a: Word, b: Word, c: Word, d: Word)
    ensures
      var r := Assemble([a, b, c, d]);
      && (r.Address? <==> a < 256 && b < 256 && c < 256 && d < 256)
      && (r.Address? ==> Octets(r.sAddr) == [a, b, c, d])
  {
    hide Or, Htonl, Octets, Assemble;
    AllBytes(a, b, c, d);
    if a < 256 && b < 256 && c < 256 && d < 256 {
      FourParts(a, b, c, d);
      HtonlReverses(a, b, c, d);
      AddressOf(a, b, c, d);
    }
  }

  lemma {:induction false} AllBytes(a: Word, b: Word, c: Word, d: Word)
    ensures Assemble([a, b, c, d]).Address? <==> a < 256 && b < 256 && c < 256 && d < 256
  {
    hide Or, Htonl;
    SmallPowers();
    OrBound(a, b, 8);
    OrBound(Or(a, b), c, 8);
    OrBound(Or(Or(a, b), c), d, 8);
  }

  /** Every text of dotted numbers, whatever their notation, is the address its numbers assemble to. */
  lemma {:induction false} AtonOfNumerals(ns: seq<Numeral>, tail: string)
    requires ns != [] && (forall i :: 0 <= i < |ns| ==> Proper(ns[i]))
    requires Ends(ns[|ns| - 1], tail) && (Closes(tail) || Spoils(tail))
    ensures Aton(Joined(ns) + tail) == if |ns| <= 4 && Closes(tail) then Assemble(Vals(ns)) else NoAddress
  {
    hide ReadParts, Assemble, Joined, Closes, Spoils, Ends, Proper;
    JoinedRead(ns, tail, []);
    assert [] + Vals(ns) == Vals(ns);
  }
}
