/** Reading printed numbers back with strtol. */
module PrintfLaws {
  import opened Memory
  import opened Numerals
  import opened PrintfSpec

  function BaseOfConv(c: char): nat
    requires TakesInt(c) && c != 'c'
  {
    if c == 'x' || c == 'X' then 16 else if c == 'o' then 8 else 10
  }

  lemma Blanks(n: int)
    ensures Blank(Repeat(' ', n)) && AllOf(Repeat('0', n), '0')
  {
  }

  /** A formatted number is blanks, sign, zeros, digits, blanks. */
  lemma {:induction false} NumTextShape(val: nat, base: nat, upper: bool, width: int, zero: bool, neg: bool, left: bool)
      returns (ws: string, zeros: string, tail: string)
    requires 2 <= base <= 36
    ensures Blank(ws) && AllOf(zeros, '0') && Blank(tail)
    ensures NumText(val, base, upper, width, zero, neg, left) ==
            ws + ((if neg then "-" else "") + (zeros + Digits(val, base, upper) + tail))
  {
    hide Digits, Repeat;
    var ds := Digits(val, base, upper);
    var sign := if neg then "-" else "";
    var n := width - |sign + ds|;
    Blanks(n);
    ws, zeros, tail := "", "", "";
    if left {
      tail := Repeat(' ', n);
      assert sign + ds + tail == "" + (sign + ("" + ds + tail));
    } else if zero {
      zeros := Repeat('0', n);
      assert sign + (zeros + ds) == "" + (sign + (zeros + ds + ""));
    } else {
      ws := Repeat(' ', n);
      assert ws + (sign + ds) == ws + (sign + ("" + ds + ""));
    }
  }

  /** Every integer conversion, at any width and flags, is undone by strtol in its base; only padding is left. */
  lemma {:induction false} StrtolUndoesConversion(d: Spec)
    requires SpecOk(d) && TakesInt(d.conv) && d.conv != 'c'
    ensures
      var (v, rest) := Strtol(Expand(d), BaseOfConv(d.conv));
      v == Wrap(d.args[0].v) && Blank(rest)
  {
    hide Strtol, Digits, NumText, Wrap;
    var v, base := d.args[0].v, BaseOfConv(d.conv);
    var signed := d.conv == 'd' || d.conv == 'i';
    var neg := signed && v < 0;
    var val := if signed then (if v < 0 then -v else v) else v % TWO32;
    var ws, zeros, tail := NumTextShape(val, base, d.conv == 'X', d.width, d.zero, neg, d.left);
    if tail != "" { assert IsSpace(tail[0]); }
    StrtolReads(ws, neg, zeros, val, base, d.conv == 'X', tail);
    ValueBack(v, signed);
  }

  lemma ValueBack(v: int, signed: bool)
    requires signed ==> IsInt(v)
    ensures
      var neg := signed && v < 0;
      var val := if signed then (if v < 0 then -v else v) else v % TWO32;
      (if neg then Wrap(-Wrap(val)) else Wrap(val)) == Wrap(v)
  {
  }
}
