/** Bounded output, and the format_num that writes numbers with it. */
module Printf {
  import opened Memory
  import opened Numerals
  import opened PrintfSpec

  // ---------- writing behind a bound ----------

  function Min(a: int, b: int): int { if a < b then a else b }

  /**
   From `out` on, as much of `t` as leaves one of the `rem` bytes for the terminator has been written,
   and nothing else has changed.
   */
  ghost predicate Wrote(s: seq<char>, s': seq<char>, out: nat, rem: nat, t: string, out': nat, rem': nat)
  {
    && 1 <= rem && out + rem <= |s| == |s'|
    && var k := Min(|t|, rem - 1);
       && out' == out + k && rem' == rem - k
       && s' == s[..out] + t[..k] + s[out + k..]
  }

  lemma WroteNothing(s: seq<char>, out: nat, rem: nat)
    requires 1 <= rem && out + rem <= |s|
    ensures Wrote(s, s, out, rem, "", out, rem)
  {
    assert s == s[..out] + "" + s[out..];
  }

  /** Two writes in a row are one write of the concatenation. */
  lemma {:induction false} WroteBoth(s0: seq<char>, s1: seq<char>, s2: seq<char>, out: nat, rem: nat, t1: string,
                                     out1: nat, rem1: nat, t2: string, out2: nat, rem2: nat)
    requires Wrote(s0, s1, out, rem, t1, out1, rem1) && Wrote(s1, s2, out1, rem1, t2, out2, rem2)
    ensures Wrote(s0, s2, out, rem, t1 + t2, out2, rem2) && 1 <= rem2 && out2 + rem2 == out + rem
  {
    var k1, k2 := out1 - out, out2 - out1;
    assert (t1 + t2)[..k1 + k2] == t1[..k1] + t2[..k2];
    assert s1[..out1] == s0[..out] + t1[..k1];
    assert s1[out1 + k2..] == s0[out + k1 + k2..];
  }

  /** A full buffer takes no more. */
  lemma WroteFull(s: seq<char>, s': seq<char>, out: nat, rem: nat, t: string, out': nat, rem': nat, more: string)
    requires Wrote(s, s', out, rem, t, out', rem') && rem' == 1
    ensures Wrote(s, s', out, rem, t + more, out', rem')
  {
    assert (t + more)[..rem - 1] == t[..rem - 1];
  }

  method Put(buf: array<char>, out: nat, rem: nat, c: char) returns (out': nat, rem': nat)
    requires 1 <= rem && out + rem <= buf.Length
    modifies buf
    ensures Wrote(old(buf[..]), buf[..], out, rem, [c], out', rem')
  {
    out', rem' := out, rem;
    if rem > 1 {
      buf[out] := c;
      out', rem' := out + 1, rem - 1;
    }
  }

  method Fill(buf: array<char>, out: nat, rem: nat, c: char, n: int) returns (out': nat, rem': nat)
    requires 1 <= rem && out + rem <= buf.Length
    modifies buf
    ensures Wrote(old(buf[..]), buf[..], out, rem, Repeat(c, n), out', rem')
    ensures 1 <= rem' && out' + rem' == out + rem
  {
    hide Wrote, Repeat;
    out', rem' := out, rem;
    var left := n;
    ghost var s0, done := buf[..], "";
    WroteNothing(s0, out, rem);
    while left > 0
      invariant Wrote(s0, buf[..], out, rem, done, out', rem') && 1 <= rem' && out' + rem' == out + rem
      invariant done + Repeat(c, left) == Repeat(c, n)
    {
      ghost var s1, o1, r1 := buf[..], out', rem';
      out', rem' := Put(buf, out', rem', c);
      WroteBoth(s0, s1, buf[..], out, rem, done, o1, r1, [c], out', rem');
      RepeatStep(c, left, done);
      done := done + [c];
      left := left - 1;
    }
    RepeatNone(c, left);
    assert done + "" == done;
  }

  lemma RepeatStep(c: char, n: int, done: string)
    requires n > 0
    ensures done + Repeat(c, n) == done + [c] + Repeat(c, n - 1)
  {
  }

  lemma RepeatNone(c: char, n: int)
    requires n <= 0
    ensures Repeat(c, n) == ""
  {
  }

  method PutString(buf: array<char>, out: nat, rem: nat, s: string) returns (out': nat, rem': nat)
    requires 1 <= rem && out + rem <= buf.Length
    modifies buf
    ensures Wrote(old(buf[..]), buf[..], out, rem, s, out', rem') && 1 <= rem' && out' + rem' == out + rem
  {
    hide Wrote;
    out', rem' := out, rem;
    ghost var s0 := buf[..];
    WroteNothing(s0, out, rem);
    for i := 0 to |s|
      invariant Wrote(s0, buf[..], out, rem, s[..i], out', rem') && 1 <= rem' && out' + rem' == out + rem
    {
      ghost var s1, o1, r1 := buf[..], out', rem';
      out', rem' := Put(buf, out', rem', s[i]);
      WroteBoth(s0, s1, buf[..], out, rem, s[..i], o1, r1, [s[i]], out', rem');
      assert s[..i + 1] == s[..i] + [s[i]];
    }
    assert s[..|s|] == s;
  }

  // ---------- format_num ----------

  /** `t` stands backwards in the first `i` slots. */
  ghost predicate Backwards(slots: array<char>, i: nat, t: string)
    reads slots
  {
    |t| == i <= slots.Length && forall k :: 0 <= k < i ==> slots[k] == t[i - 1 - k]
  }

  method PutBackwards(buf: array<char>, out: nat, rem: nat, slots: array<char>, n: nat, ghost t: string)
      returns (out': nat, rem': nat)
    requires 1 <= rem && out + rem <= buf.Length && buf != slots && Backwards(slots, n, t)
    modifies buf
    ensures Wrote(old(buf[..]), buf[..], out, rem, t, out', rem') && 1 <= rem' && out' + rem' == out + rem
  {
    hide Wrote;
    out', rem' := out, rem;
    ghost var s0 := buf[..];
    WroteNothing(s0, out, rem);
    var i := n;
    while i > 0
      invariant 0 <= i <= n && Backwards(slots, n, t)
      invariant Wrote(s0, buf[..], out, rem, t[..n - i], out', rem') && 1 <= rem' && out' + rem' == out + rem
    {
      i := i - 1;
      ghost var s1, o1, r1 := buf[..], out', rem';
      out', rem' := Put(buf, out', rem', slots[i]);
      WroteBoth(s0, s1, buf[..], out, rem, t[..n - i - 1], o1, r1, [slots[i]], out', rem');
      assert t[..n - i] == t[..n - i - 1] + [slots[i]];
    }
    assert t[..n] == t;
  }

  function Power(base: nat, k: nat): nat { if k == 0 then 1 else base * Power(base, k - 1) }

  lemma ScaleUp(p: nat, q: nat, base: nat)
    requires p <= q
    ensures base * p <= q * base
  {
  }

  lemma {:induction false} DigitsLength(v: nat, base: nat, upper: bool, k: nat)
    requires 2 <= base <= 36 && v < Power(base, k) && k >= 1
    ensures |Digits(v, base, upper)| <= k
  {
    DivMod(v, base);
    if v >= base {
      assert k > 1;
      var p := Power(base, k - 1);
      if v / base >= p { ScaleUp(p, v / base, base); }
      DigitsLength(v / base, base, upper, k - 1);
    }
  }

  /** A 32-bit number in base 8, 10 or 16 has at most 11 digits. */
  lemma AtMostElevenDigits(v: nat, base: nat, upper: bool)
    requires v < TWO32 && (base == 8 || base == 10 || base == 16)
    ensures |Digits(v, base, upper)| <= 11 && (base == 10 ==> |Digits(v, base, upper)| <= 10)
  {
    assert Power(8, 4) == 4096 && Power(10, 4) == 10000 && Power(16, 4) == 65536;
    assert Power(8, 8) == 16777216 && Power(10, 8) == 100000000 && Power(16, 8) == 4294967296;
    assert Power(8, 11) == 8589934592 && Power(10, 10) == 10000000000;
    if base == 8 { DigitsLength(v, 8, upper, 11); }
    else if base == 10 { DigitsLength(v, 10, upper, 10); }
    else { DigitsLength(v, 16, upper, 8); }
  }

  /** The digit loop: `i` slots of the 32 are used. */
  method CollectDigits(slots: array<char>, v: nat, base: nat, upper: bool) returns (i: nat)
    requires v < TWO32 && (base == 8 || base == 10 || base == 16) && slots.Length == 32
    modifies slots
    ensures Backwards(slots, i, Digits(v, base, upper)) && i <= 11
  {
    hide Digits;
    AtMostElevenDigits(v, base, upper);
    ZeroDigits(base, upper);
    i := 0;
    if v == 0 {
      slots[0] := '0';
      return 1;
    }
    var table := if upper then "0123456789ABCDEF" else "0123456789abcdef";
    var val: nat := v;
    ghost var suffix, text := "", Digits(v, base, upper);
    assert text + suffix == text;
    while val > 0
      invariant Backwards(slots, i, suffix) && text == (if val == 0 then "" else Digits(val, base, upper)) + suffix
      decreases val
    {
      DivMod(val, base);
      DigitsStep(val, base, upper, suffix);
      TableDigit(table, upper, val % base);
      slots[i] := table[val % base];
      suffix := [DigitChar(val % base, upper)] + suffix;
      i, val := i + 1, val / base;
    }
  }

  lemma TableDigit(table: string, upper: bool, d: nat)
    requires d < 16 && table == if upper then "0123456789ABCDEF" else "0123456789abcdef"
    ensures table[d] == DigitChar(d, upper)
  {
  }

  method FillThenPut(buf: array<char>, out: nat, rem: nat, c: char, n: int, slots: array<char>, i: nat, ghost t: string)
      returns (out': nat, rem': nat)
    requires 1 <= rem && out + rem <= buf.Length && buf != slots && Backwards(slots, i, t)
    modifies buf
    ensures Wrote(old(buf[..]), buf[..], out, rem, Repeat(c, n) + t, out', rem') && 1 <= rem' &&
            out' + rem' == out + rem
  {
    hide Wrote, Repeat;
    ghost var s0 := buf[..];
    var o, r := Fill(buf, out, rem, c, n);
    ghost var s1 := buf[..];
    out', rem' := PutBackwards(buf, o, r, slots, i, t);
    WroteBoth(s0, s1, buf[..], out, rem, Repeat(c, n), o, r, t, out', rem');
  }

  method PutThenFill(buf: array<char>, out: nat, rem: nat, c: char, n: int, slots: array<char>, i: nat, ghost t: string)
      returns (out': nat, rem': nat)
    requires 1 <= rem && out + rem <= buf.Length && buf != slots && Backwards(slots, i, t)
    modifies buf
    ensures Wrote(old(buf[..]), buf[..], out, rem, t + Repeat(c, n), out', rem') && 1 <= rem' &&
            out' + rem' == out + rem
  {
    hide Wrote, Repeat;
    ghost var s0 := buf[..];
    var o, r := PutBackwards(buf, out, rem, slots, i, t);
    ghost var s1 := buf[..];
    out', rem' := Fill(buf, o, r, c, n);
    WroteBoth(s0, s1, buf[..], out, rem, t, o, r, Repeat(c, n), out', rem');
  }

  method FormatNum(buf: array<char>, out: nat, rem: nat, val: nat, base: nat, upper: bool, width: int, zero: bool,
                   neg: bool, left: bool)
      returns (out': nat, rem': nat)
    requires 1 <= rem && out + rem <= buf.Length && val < TWO32 && (base == 8 || base == 10 || base == 16)
    modifies buf
    ensures Wrote(old(buf[..]), buf[..], out, rem, NumText(val, base, upper, width, zero, neg, left), out', rem')
    ensures 1 <= rem' && out' + rem' == out + rem
  {
    hide Wrote, Digits, Repeat, NumText;
    var slots := new char[32];
    var i := CollectDigits(slots, val, base, upper);
    ghost var ds := Digits(val, base, upper);
    ghost var body := (if neg then "-" else "") + ds;
    if neg {
      slots[i] := '-';
      i := i + 1;
    }
    assert Backwards(slots, i, body);
    var padCount := if width > i then width - i else 0;
    NumTextCases(val, base, upper, width, zero, neg, left, padCount);
    if left {
      out', rem' := PutThenFill(buf, out, rem, ' ', padCount, slots, i, body);
    } else if zero && neg {
      ghost var s0 := buf[..];
      var o, r := Put(buf, out, rem, '-');
      PutBounds(s0, buf[..], out, rem, '-', o, r);
      ghost var s1 := buf[..];
      assert Backwards(slots, i - 1, ds);
      out', rem' := FillThenPut(buf, o, r, '0', padCount, slots, i - 1, ds);
      WroteBoth(s0, s1, buf[..], out, rem, "-", o, r, Repeat('0', padCount) + ds, out', rem');
    } else {
      out', rem' := FillThenPut(buf, out, rem, if zero then '0' else ' ', padCount, slots, i, body);
    }
  }

  lemma PutBounds(s: seq<char>, s': seq<char>, out: nat, rem: nat, c: char, out': nat, rem': nat)
    requires Wrote(s, s', out, rem, [c], out', rem')
    ensures 1 <= rem' && out' + rem' == out + rem
  {
  }

  lemma {:induction false} NumTextCases(val: nat, base: nat, upper: bool, width: int, zero: bool, neg: bool,
                                        left: bool, pad: nat)
    requires 2 <= base <= 36
    requires
      var n := |Digits(val, base, upper)| + if neg then 1 else 0;
      pad == if width > n then width - n else 0
    ensures
      var ds := Digits(val, base, upper);
      var body := (if neg then "-" else "") + ds;
      NumText(val, base, upper, width, zero, neg, left) ==
      if left then body + Repeat(' ', pad)
      else if zero && neg then "-" + (Repeat('0', pad) + ds)
      else Repeat(if zero then '0' else ' ', pad) + body
  {
    hide Digits;
    var ds := Digits(val, base, upper);
    var n := width - |ds| - if neg then 1 else 0;
    assert Repeat(' ', pad) == Repeat(' ', n) && Repeat('0', pad) == Repeat('0', n);
    assert "" + ds == ds && "" + (Repeat('0', n) + ds) == Repeat('0', n) + ds;
  }
}
