/** vsnprintf: the format interpreter. */
module Vsnprintf {
  import opened Memory
  import opened Numerals
  import opened PrintfSpec
  import opened Printf

  // ---------- reading a directive ----------

  method ReadFlags(f: string) returns (left: bool, zero: bool, g: string)
    ensures g == f[FlagRun(f)..] && left == ('-' in f[..FlagRun(f)])
    ensures zero == ('0' in f[..FlagRun(f)] && !left)
  {
    g, left, zero := f, false, false;
    ghost var n := 0;
    while g != "" && IsFlag(g[0])
      invariant 0 <= n <= |f| && g == f[n..] && FlagRun(f) == n + FlagRun(g)
      invariant left == ('-' in f[..n]) && zero == ('0' in f[..n])
      decreases |g|
    {
      assert f[..n + 1] == f[..n] + [g[0]];
      if g[0] == '-' { left := true; } else if g[0] == '0' { zero := true; }
      g, n := g[1..], n + 1;
    }
    if left { zero := false; }
  }

  /** A width or precision that is known to be in range. */
  method ReadField(f: string, args: seq<Arg>) returns (v: int, g: string, rest: seq<Arg>)
    requires NumberField(f, args).Field?
    ensures NumberField(f, args) == Field(v, g, rest)
  {
    hide Value, RunLength;
    if f != "" && f[0] == '*' {
      return args[0].v, f[1..], args[1..];
    }
    v, g := ReadDecimal(f);
    rest := args;
  }

  method SkipLength(f: string) returns (g: string)
    ensures g == f[LengthRun(f)..]
  {
    g := f;
    ghost var n := 0;
    while g != "" && IsLengthMod(g[0])
      invariant 0 <= n <= |f| && g == f[n..] && LengthRun(f) == n + LengthRun(g)
      decreases |g|
    {
      g, n := g[1..], n + 1;
    }
  }

  method ReadSpec(f: string, args: seq<Arg>) returns (d: Spec)
    requires ParseSpec(f, args).Spec?
    ensures d == ParseSpec(f, args)
  {
    hide NumberField, FlagRun, LengthRun;
    var left, zero, g := ReadFlags(f);
    var width, h, args1 := ReadField(g, args);
    if width < 0 {
      left, width := true, -width;
    }
    var precision, k, args2 := -1, h, args1;
    if h != "" && h[0] == '.' {
      precision, k, args2 := ReadField(h[1..], args1);
    }
    k := SkipLength(k);
    d := Spec(left, zero, width, precision, k[0], k[1..], args2);
  }

  // ---------- writing a directive ----------

  method PutPadded(buf: array<char>, out: nat, rem: nat, s: string, width: int, left: bool)
      returns (out': nat, rem': nat)
    requires 1 <= rem && out + rem <= buf.Length
    modifies buf
    ensures Wrote(old(buf[..]), buf[..], out, rem, Padded(s, width, left), out', rem') && 1 <= rem' &&
            out' + rem' == out + rem
  {
    hide Wrote, Repeat;
    ghost var s0 := buf[..];
    var pad := width - |s|;
    if left {
      var o, r := PutString(buf, out, rem, s);
      ghost var s1 := buf[..];
      out', rem' := Fill(buf, o, r, ' ', pad);
      WroteBoth(s0, s1, buf[..], out, rem, s, o, r, Repeat(' ', pad), out', rem');
    } else {
      var o, r := Fill(buf, out, rem, ' ', pad);
      ghost var s1 := buf[..];
      out', rem' := PutString(buf, o, r, s);
      WroteBoth(s0, s1, buf[..], out, rem, Repeat(' ', pad), o, r, s, out', rem');
    }
  }

  method PutSpec(buf: array<char>, out: nat, rem: nat, d: Spec) returns (out': nat, rem': nat)
    requires SpecOk(d) && 1 <= rem && out + rem <= buf.Length
    modifies buf
    ensures Wrote(old(buf[..]), buf[..], out, rem, Expand(d), out', rem') && 1 <= rem' && out' + rem' == out + rem
  {
    hide Wrote, NumText, Padded;
    match d.conv {
      case 'c' =>
        out', rem' := PutPadded(buf, out, rem, [(d.args[0].v % 256) as char], d.width, d.left);
      case 's' =>
        var s := if d.args[0].StrArg? then d.args[0].s else "(null)";
        var len := |s|;
        if d.precision >= 0 && len > d.precision { len := d.precision; }
        assert s[..|s|] == s;
        out', rem' := PutPadded(buf, out, rem, s[..len], d.width, d.left);
      case 'd' =>
        out', rem' := PutSigned(buf, out, rem, d);
      case 'i' =>
        out', rem' := PutSigned(buf, out, rem, d);
      case 'u' =>
        out', rem' := FormatNum(buf, out, rem, d.args[0].v % TWO32, 10, false, d.width, d.zero, false, d.left);
      case 'x' =>
        out', rem' := FormatNum(buf, out, rem, d.args[0].v % TWO32, 16, false, d.width, d.zero, false, d.left);
      case 'X' =>
        out', rem' := FormatNum(buf, out, rem, d.args[0].v % TWO32, 16, true, d.width, d.zero, false, d.left);
      case 'o' =>
        out', rem' := FormatNum(buf, out, rem, d.args[0].v % TWO32, 8, false, d.width, d.zero, false, d.left);
      case _ =>
        ghost var s0 := buf[..];
        out', rem' := Put(buf, out, rem, d.conv);
        PutBounds(s0, buf[..], out, rem, d.conv, out', rem');
    }
  }

  method PutSigned(buf: array<char>, out: nat, rem: nat, d: Spec) returns (out': nat, rem': nat)
    requires SpecOk(d) && (d.conv == 'd' || d.conv == 'i') && 1 <= rem && out + rem <= buf.Length
    modifies buf
    ensures Wrote(old(buf[..]), buf[..], out, rem, Expand(d), out', rem') && 1 <= rem' && out' + rem' == out + rem
  {
    hide Wrote, NumText;
    var v := d.args[0].v;
    var negative, uval := false, v % TWO32;
    if v < 0 {
      negative, uval := true, (-v) % TWO32;
    }
    out', rem' := FormatNum(buf, out, rem, uval, 10, false, d.width, d.zero, negative, d.left);
  }

  // ---------- the interpreter ----------

  /** One round of the loop: a literal byte, a "%%" or a directive, whose text is `piece`. */
  method Round(str: array<char>, out: nat, rem: nat, f: string, args: seq<Arg>)
      returns (out': nat, rem': nat, f': string, args': seq<Arg>, ghost piece: string)
    requires 1 <= rem && out + rem <= str.Length && f != "" && f != "%" && WellFormed(f, args)
    modifies str
    ensures Wrote(old(str[..]), str[..], out, rem, piece, out', rem') && 1 <= rem' && out' + rem' == out + rem
    ensures |f'| < |f| && WellFormed(f', args') && Render(f, args) == piece + Render(f', args')
  {
    hide Wrote, Expand, ParseSpec;
    ghost var s0 := str[..];
    args' := args;
    if f[0] != '%' {
      piece := [f[0]];
      out', rem' := Put(str, out, rem, f[0]);
      PutBounds(s0, str[..], out, rem, f[0], out', rem');
      f' := f[1..];
    } else if f[1] == '%' {
      piece := "%";
      out', rem' := Put(str, out, rem, '%');
      PutBounds(s0, str[..], out, rem, '%', out', rem');
      f' := f[2..];
    } else {
      var d := ReadSpec(f[1..], args);
      piece := Expand(d);
      out', rem' := PutSpec(str, out, rem, d);
      f', args' := d.rest, ArgsAfter(d);
    }
  }

  /** The loop ends with the format used up or the buffer full. */
  lemma {:induction false} LoopEnds(s0: seq<char>, s: seq<char>, size: nat, done: string, out: nat, rem: nat,
                                    f: string, args: seq<Arg>)
    requires WellFormed(f, args) && Wrote(s0, s, 0, size, done, out, rem) && (rem == 1 || f == "" || f == "%")
    ensures Wrote(s0, s, 0, size, done + Render(f, args), out, rem)
  {
    if rem == 1 {
      WroteFull(s0, s, 0, size, done, out, rem, Render(f, args));
    } else {
      assert Render(f, args) == "" && done + "" == done;
    }
  }

  /** Writes the first `size - 1` bytes of the output and a NUL; returns how many bytes precede the NUL. */
  method Vsnprintf(str: array<char>, size: nat, format: string, args: seq<Arg>) returns (r: nat)
    requires size <= str.Length && WellFormed(format, args)
    modifies str
    ensures size == 0 ==> r == 0 && str[..] == old(str[..])
    ensures size > 0 ==>
              var text := Render(format, args);
              && r == Min(|text|, size - 1)
              && str[..r] == text[..r] && str[r] == '\0'
              && forall i :: r < i < str.Length ==> str[i] == old(str[i])
  {
    hide Wrote, Render, WellFormed;
    if size == 0 { return 0; }
    var out: nat, rem: nat := 0, size;
    var f, rest := format, args;
    ghost var s0, done, text := str[..], "", Render(format, args);
    WroteNothing(s0, out, rem);
    assert "" + text == text;
    while f != "" && rem > 1
      invariant 1 <= rem && out + rem == size && Wrote(s0, str[..], 0, size, done, out, rem)
      invariant WellFormed(f, rest) && text == done + Render(f, rest)
      decreases |f|
    {
      if f == "%" { break; }
      ghost var s1, o1, r1 := str[..], out, rem;
      ghost var piece;
      out, rem, f, rest, piece := Round(str, out, rem, f, rest);
      WroteBoth(s0, s1, str[..], 0, size, done, o1, r1, piece, out, rem);
      assert done + (piece + Render(f, rest)) == done + piece + Render(f, rest);
      done := done + piece;
    }
    LoopEnds(s0, str[..], size, done, out, rem, f, rest);
    WroteMeans(s0, str[..], size, text, out, rem);
    str[out] := '\0';
    r := out;
  }

  lemma WroteMeans(s0: seq<char>, s: seq<char>, size: nat, text: string, out: nat, rem: nat)
    requires Wrote(s0, s, 0, size, text, out, rem)
    ensures out == Min(|text|, size - 1) && |s| == |s0| && s[..out] == text[..out]
    ensures forall i :: out <= i < |s0| ==> s[i] == s0[i]
  {
  }
}
