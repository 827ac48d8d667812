/** itoa: digits are written backwards and then reversed in place; strtol reads them back. */
module Itoa {
  import opened Memory
  import opened Numerals

  /** The text of `value`; only base 10 shows a sign, other bases show the 32-bit pattern. */
  function Text(value: int, base: nat): (r: string)
    requires IsInt(value) && 2 <= base <= 36
    ensures r != ""
  {
    if value < 0 && base == 10 then "-" + Digits(-value, 10, false) else Digits(value % TWO32, base, false)
  }

  /** Least significant digit first, from `low` on. */
  method WriteBackwards(str: array<char>, low: nat, u: nat, base: nat) returns (ptr: nat)
    requires 2 <= base <= 36 && low + |Digits(u, base, false)| <= str.Length
    modifies str
    ensures ptr == low + |Digits(u, base, false)|
    ensures forall i :: low <= i < ptr ==> str[i] == Digits(u, base, false)[ptr - 1 - i]
    ensures forall i :: 0 <= i < str.Length && !(low <= i < ptr) ==> str[i] == old(str[i])
  {
    hide Digits;
    var uval: nat := u;
    ptr := low;
    ghost var suffix := "";
    ghost var text := Digits(u, base, false);
    assert text + suffix == text;
    var done := false;
    while !done
      invariant ptr == low + |suffix| <= str.Length
      invariant text == (if done then "" else Digits(uval, base, false)) + suffix
      invariant forall i :: low <= i < ptr ==> str[i] == suffix[ptr - 1 - i]
      invariant forall i :: 0 <= i < str.Length && !(low <= i < ptr) ==> str[i] == old(str[i])
      decreases !done, uval
    {
      DigitsStep(uval, base, false, suffix);
      DivMod(uval, base);
      var rem := uval % base;
      str[ptr] := if rem < 10 then '0' + rem as char else 'a' + (rem - 10) as char;
      suffix := [DigitChar(rem, false)] + suffix;
      ptr := ptr + 1;
      uval := uval / base;
      done := uval == 0;
    }
  }

  method ReverseBetween(str: array<char>, low: nat, end: nat)
    requires low < end <= str.Length
    modifies str
    ensures forall i :: low <= i < end ==> str[i] == old(str[low + end - 1 - i])
    ensures forall i :: 0 <= i < str.Length && !(low <= i < end) ==> str[i] == old(str[i])
  {
    var l, p := low, end - 1;
    while l < p
      invariant low <= l && l + p == low + end - 1 && l <= p + 1
      invariant forall i :: low <= i < l || p < i < end ==> str[i] == old(str[low + end - 1 - i])
      invariant forall i :: 0 <= i < str.Length && !(low <= i < l || p < i < end) ==> str[i] == old(str[i])
      decreases p - l
    {
      str[l], str[p] := str[p], str[l];
      l, p := l + 1, p - 1;
    }
  }

  method Itoa(value: int, str: array<char>, base: int)
    requires IsInt(value) && str.Length > if 2 <= base <= 36 then |Text(value, base)| else 0
    modifies str
    ensures !(2 <= base <= 36) ==> str[0] == '\0' && forall i :: 0 < i < str.Length ==> str[i] == old(str[i])
    ensures 2 <= base <= 36 ==>
              var n := |Text(value, base)|;
              && str[..n] == Text(value, base) && str[n] == '\0'
              && forall i :: n < i < str.Length ==> str[i] == old(str[i])
  {
    hide Digits;
    if base < 2 || base > 36 {
      str[0] := '\0';
      return;
    }
    var low, uval := 0, value % TWO32;
    if value < 0 && base == 10 {
      str[0] := '-';
      low, uval := 1, (-value) % TWO32;
    }
    var ptr := WriteBackwards(str, low, uval, base);
    str[ptr] := '\0';
    ReverseBetween(str, low, ptr);
    assert forall i :: low <= i < ptr ==> str[i] == Digits(uval, base, false)[i - low];
  }

  /** strtol undoes itoa, for every 32-bit value and every base. */
  lemma {:induction false} StrtolUndoesItoa(value: int, base: nat)
    requires IsInt(value) && 2 <= base <= 36
    ensures Strtol(Text(value, base), base) == (value, "")
  {
    hide Digits, Strtol;
    var neg := value < 0 && base == 10;
    var v := if neg then -value else value % TWO32;
    StrtolReads("", neg, "", v, base, false, "");
    var ds := Digits(v, base, false);
    var sign := if neg then "-" else "";
    assert "" + ds + "" == ds && "" + (sign + ds) == sign + ds;
    assert sign + ds == Text(value, base);
    ReadBack(value, neg, v);
  }

  /** A sign only for negative numbers in base 10, lower-case digits, and no leading zero. */
  lemma {:induction false} TextShape(value: int, base: nat)
    requires IsInt(value) && 2 <= base <= 36
    ensures
      var t, k := Text(value, base), if value < 0 && base == 10 then 1 else 0;
      && (t[0] == '-' <==> k == 1) && |t| > k && (t[k] == '0' <==> value == 0)
      && (forall i :: k <= i < |t| ==> IsDigitIn(t[i], false))
  {
    hide Digits;
    var u := if value < 0 && base == 10 then -value else value % TWO32;
    DigitsShape(u, base, false);
    var ds := Digits(u, base, false);
    assert IsDigitIn(ds[0], false);
  }
}
