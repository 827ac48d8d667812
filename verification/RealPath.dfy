/** realpath's normaliser: "//", "/./" and a final "/." collapse, nothing else changes. */
module RealPath {
  import opened CStrings
  import opened DirTree

  const BUFFER := 1024

  predicate DoubleSlash(t: string) { |t| > 1 && t[0] == '/' && t[1] == '/' }

  predicate SlashDot(t: string) { |t| > 1 && t[0] == '/' && t[1] == '.' && (|t| == 2 || t[2] == '/') }

  /** What the loop copies. */
  function Collapse(t: string): (r: string)
    ensures |r| <= |t|
  {
    if t == "" then ""
    else if DoubleSlash(t) then Collapse(t[1..])
    else if SlashDot(t) then Collapse(t[2..])
    else [t[0]] + Collapse(t[1..])
  }

  function Normal(t: string): string { if Collapse(t) == "" then "/" else Collapse(t) }

  /** No "//", no "/./" and no final "/.". */
  ghost predicate Clean(s: string)
  {
    forall i :: 0 <= i < |s| ==> !DoubleSlash(s[i..]) && !SlashDot(s[i..])
  }

  predicate EndsInSlash(s: string) { s != "" && s[|s| - 1] == '/' }

  // ---------- the method ----------

  /** `cwd` is what getcwd answers, None if it fails. */
  method Realpath(path: Option<string>, cwd: Option<string>) returns (r: Option<string>)
    ensures path.None? ==> r == None
    ensures path.Some? && At(path.value, 0) == '/' ==>
              r == Some(Normal(if |path.value| < BUFFER then path.value else path.value[..BUFFER - 1]))
    ensures path.Some? && At(path.value, 0) != '/' ==>
              r == if cwd.None? || |cwd.value| + |path.value| + 2 > BUFFER then None
                   else Some(Normal(cwd.value + "/" + path.value))
  {
    if path.None? { return None; }
    var tmp;
    if At(path.value, 0) == '/' {
      tmp := if |path.value| < BUFFER then path.value else path.value[..BUFFER - 1];
    } else {
      if cwd.None? { return None; }
      if |cwd.value| + 1 + |path.value| + 1 > BUFFER { return None; }
      tmp := cwd.value + "/" + path.value;
    }
    var out := CollapseLoop(tmp);
    r := Some(out);
  }

  method CollapseLoop(tmp: string) returns (r: string)
    requires |tmp| < BUFFER
    ensures r == Normal(tmp)
  {
    hide Collapse;
    var out := new char[BUFFER];
    var i, oi := 0, 0;
    assert tmp[0..] == tmp;
    while i < |tmp| && oi + 1 < BUFFER
      invariant 0 <= oi <= i <= |tmp| && out[..oi] + Collapse(tmp[i..]) == Collapse(tmp)
      decreases |tmp| - i
    {
      CollapseStep(tmp, i);
      if tmp[i] == '/' && At(tmp, i + 1) == '/' {
        i := i + 1;
      } else if tmp[i] == '/' && At(tmp, i + 1) == '.' && (i + 2 == |tmp| || tmp[i + 2] == '/') {
        i := i + 2;
      } else {
        out[oi] := tmp[i];
        oi, i := oi + 1, i + 1;
        assert out[..oi] == out[..oi - 1] + [tmp[i - 1]];
      }
    }
    NothingLeft();
    assert out[..oi] == Collapse(tmp);
    r := if oi == 0 then "/" else out[..oi];
  }

  lemma NothingLeft()
    ensures Collapse("") == ""
  {
  }

  lemma CollapseStep(t: string, i: nat)
    requires i < |t|
    ensures
      Collapse(t[i..]) ==
      if t[i] == '/' && At(t, i + 1) == '/' then Collapse(t[i + 1..])
      else if t[i] == '/' && At(t, i + 1) == '.' && (i + 2 == |t| || t[i + 2] == '/') then Collapse(t[i + 2..])
      else [t[i]] + Collapse(t[i + 1..])
  {
    var u := t[i..];
    assert u[0] == t[i] && u[1..] == t[i + 1..];
    if |u| > 1 { assert u[1] == t[i + 1] && u[2..] == t[i + 2..]; }
    if |u| > 2 { assert u[2] == t[i + 2]; }
  }

  // ---------- laws ----------

  lemma {:induction false} GlueProper(x: string, ps: seq<string>)
    requires ps != []
    ensures Glue(x, ps)[0] == x + ps[0] && Glue(x, ps)[1..] == ps[1..]
  {
  }

  /** Collapsing keeps the piece it starts in, and every later piece except "" and ".". */
  lemma {:induction false} CollapseKeepsPieces(t: string)
    ensures
      var ps, qs := Pieces(t, true), Pieces(Collapse(t), true);
      qs[0] == ps[0] && Proper(qs[1..]) == Proper(ps[1..])
    decreases |t|
  {
    var ps := Pieces(t, true);
    if t != "" {
      var ps' := Pieces(t[1..], true);
      if DoubleSlash(t) {
        CollapseKeepsPieces(t[1..]);
        assert ps == [""] + ps' && ps' == [""] + Pieces(t[2..], true);
        assert ps[1..] == ps' && ps'[0] == "";
        ProperCons("", ps'[1..]);
        assert [""] + ps'[1..] == ps';
      } else if SlashDot(t) {
        CollapseKeepsPieces(t[2..]);
        DotPiece(t);
      } else {
        CollapseKeepsPieces(t[1..]);
        var qs' := Pieces(Collapse(t[1..]), true);
        var r := Collapse(t);
        assert r[0] == t[0] && r[1..] == Collapse(t[1..]);
        if t[0] == '/' {
          assert ps[1..] == ps' && Pieces(r, true)[1..] == qs';
          ProperCons(ps'[0], ps'[1..]);
          ProperCons(qs'[0], qs'[1..]);
          assert [ps'[0]] + ps'[1..] == ps' && [qs'[0]] + qs'[1..] == qs';
        } else {
          GlueProper(t[..1], ps');
          GlueProper(r[..1], qs');
        }
      }
    }
  }

  lemma ProperCons(p: string, ps: seq<string>)
    ensures Proper([p] + ps) == if p == "" || p == "." then Proper(ps) else [p] + Proper(ps)
  {
    assert ([p] + ps)[1..] == ps;
  }

  /** In "/." and "/./..." the second piece is ".", and dropping two bytes drops it. */
  lemma {:induction false} DotPiece(t: string)
    requires SlashDot(t)
    ensures Pieces(t, true)[0] == "" && Pieces(t[2..], true)[0] == ""
    ensures Proper(Pieces(t, true)[1..]) == Proper(Pieces(t[2..], true)[1..])
  {
    var u := t[1..];
    assert u[0] == '.' && u[1..] == t[2..] && u[..1] == ".";
    var qs := Pieces(t[2..], true);
    assert Pieces(t, true) == [""] + Pieces(u, true);
    assert Pieces(u, true) == Glue(".", qs);
    GlueProper(".", qs);
    assert qs[0] == "" && "." + "" == ".";
    assert Pieces(t, true)[1..] == [ "." ] + qs[1..];
    ProperCons(".", qs[1..]);
  }

  /** The components of an absolute path survive, ".." included. */
  lemma {:induction false} ComponentsKept(t: string)
    requires At(t, 0) == '/' && t != ""
    ensures Proper(Pieces(Normal(t), true)) == Proper(Pieces(t, true))
  {
    var ps, qs := Pieces(t, true), Pieces(Collapse(t), true);
    CollapseKeepsPieces(t);
    assert ps[0] == "" && ps == [""] + ps[1..] && qs == [""] + qs[1..];
    ProperCons("", ps[1..]);
    ProperCons("", qs[1..]);
    if Collapse(t) == "" {
      assert Pieces("/", true) == ["", ""] && Proper(["", ""]) == [];
      assert Pieces("", true) == [""] && Proper([""]) == [];
    }
  }

  lemma CleanCons(c: char, s: string)
    requires Clean(s) && !DoubleSlash([c] + s) && !SlashDot([c] + s)
    ensures Clean([c] + s)
  {
    var t := [c] + s;
    forall i | 0 <= i < |t| ensures !DoubleSlash(t[i..]) && !SlashDot(t[i..]) {
      if i == 0 { assert t[0..] == t; } else { assert t[i..] == s[i - 1..]; }
    }
  }

  /** Bytes other than '/' are copied. */
  lemma CopyStep(t: string)
    requires t != "" && t[0] != '/'
    ensures Collapse(t) == [t[0]] + Collapse(t[1..])
  {
  }

  lemma {:induction false} CollapseIsClean(t: string)
    ensures Clean(Collapse(t))
    decreases |t|
  {
    if t != "" {
      if DoubleSlash(t) {
        CollapseIsClean(t[1..]);
      } else if SlashDot(t) {
        CollapseIsClean(t[2..]);
      } else {
        CollapseIsClean(t[1..]);
        if |t| > 1 && t[1] != '/' {
          CopyStep(t[1..]);
          if |t| > 2 && t[2] != '/' {
            assert t[1..][1..] == t[2..];
            CopyStep(t[2..]);
          }
        }
        CleanCons(t[0], Collapse(t[1..]));
      }
    }
  }

  lemma {:induction false} CleanIsFixed(s: string)
    requires Clean(s)
    ensures Collapse(s) == s
  {
    if s != "" {
      assert s[0..] == s;
      forall i | 0 <= i < |s| - 1 ensures !DoubleSlash(s[1..][i..]) && !SlashDot(s[1..][i..]) {
        assert s[1..][i..] == s[i + 1..];
      }
      CleanIsFixed(s[1..]);
      assert s == [s[0]] + s[1..];
    }
  }

  /** The result is absolute and clean, and normalising again changes nothing. */
  lemma {:induction false} NormalForm(t: string)
    requires t != "" && t[0] == '/'
    ensures Normal(t) != "" && Normal(t)[0] == '/' && Clean(Normal(t)) && Normal(Normal(t)) == Normal(t)
  {
    CollapseIsClean(t);
    StaysAbsolute(t);
    assert Clean("/");
    CleanIsFixed(Normal(t));
  }

  lemma {:induction false} StaysAbsolute(t: string)
    requires t != "" && t[0] == '/'
    ensures Collapse(t) != "" ==> Collapse(t)[0] == '/'
    decreases |t|
  {
    if DoubleSlash(t) {
      StaysAbsolute(t[1..]);
    } else if SlashDot(t) && |t| > 2 {
      StaysAbsolute(t[2..]);
    }
  }

  lemma {:induction false} CollapsedAway(t: string)
    requires t != "" && Collapse(t) == ""
    ensures t[0] == '/' && t[|t| - 1] == '.'
    decreases |t|
  {
    if DoubleSlash(t) {
      CollapsedAway(t[1..]);
    } else if SlashDot(t) && |t| > 2 {
      CollapsedAway(t[2..]);
    }
  }

  lemma {:induction false} CollapseEnd(t: string)
    ensures Collapse(t) != "" ==> (EndsInSlash(Collapse(t)) <==> EndsInSlash(t))
    decreases |t|
  {
    if t != "" {
      if DoubleSlash(t) {
        CollapseEnd(t[1..]);
      } else if SlashDot(t) {
        CollapseEnd(t[2..]);
      } else {
        CollapseEnd(t[1..]);
        if t[1..] != "" && Collapse(t[1..]) == "" { CollapsedAway(t[1..]); }
      }
    }
  }

  /** A trailing slash is kept, not invented: the root apart, the result ends in '/' exactly when the path does. */
  lemma {:induction false} TrailingSlashKept(t: string)
    requires t != "" && t[0] == '/'
    ensures Normal(t) != "/" ==> (EndsInSlash(Normal(t)) <==> EndsInSlash(t))
  {
    CollapseEnd(t);
  }

  // ---------- a clean path is determined by its components ----------

  lemma CleanTail(s: string)
    requires Clean(s) && s != ""
    ensures Clean(s[1..]) && !DoubleSlash(s) && !SlashDot(s)
  {
    assert s[0..] == s;
    var u := s[1..];
    forall i | 0 <= i < |u| ensures !DoubleSlash(u[i..]) && !SlashDot(u[i..]) { assert u[i..] == s[i + 1..]; }
  }

  /** In a clean path only the first and the last piece can be empty, and only the first can be ".". */
  lemma {:induction false} CleanPieces(s: string)
    requires Clean(s)
    ensures
      var ps := Pieces(s, true);
      && (forall i :: 0 < i < |ps| - 1 ==> ps[i] != "")
      && (forall i :: 0 < i < |ps| ==> ps[i] != ".")
      && (EndsInSlash(s) <==> |ps| > 1 && ps[|ps| - 1] == "")
  {
    hide Clean, Pieces;
    NoPieces(true);
    if s != "" {
      var u := s[1..];
      PiecesStep(s, true);
      CleanTail(s);
      CleanPieces(u);
      FirstPiece(u);
      if s[0] != '/' { GlueProper(s[..1], Pieces(u, true)); }
    }
  }

  lemma {:induction false} FirstPiece(u: string)
    ensures Pieces(u, true)[0] == "" <==> u == "" || u[0] == '/'
    ensures Pieces(u, true)[0] == "." <==> u != "" && u[0] == '.' && (|u| == 1 || u[1] == '/')
    ensures |Pieces(u, true)| == 1 && u != "" ==> Pieces(u, true)[0] != ""
  {
    if u != "" && u[0] != '/' {
      var qs := Pieces(u[1..], true);
      GlueProper(u[..1], qs);
      if |u| > 1 { FirstPiece(u[1..]); }
      assert |u[..1] + qs[0]| == 1 + |qs[0]| && (u[..1] + qs[0])[0] == u[0];
      if qs[0] == "" { assert u[..1] + qs[0] == [u[0]]; }
    }
  }

  lemma {:induction false} ProperOfClean(ps: seq<string>)
    requires ps != [] && (forall i :: 0 <= i < |ps| - 1 ==> ps[i] != "") && (forall i :: 0 <= i < |ps| ==> ps[i] != ".")
    ensures ps == Proper(ps) + if ps[|ps| - 1] == "" then [""] else []
  {
    if |ps| == 1 {
      assert ps == [ps[0]] && Proper([]) == [];
    } else {
      ProperOfClean(ps[1..]);
      assert ps == [ps[0]] + ps[1..];
    }
  }

  /** Two clean absolute paths with the same components and the same ending are the same string. */
  lemma {:induction false} CleanPathDetermined(s: string, u: string)
    requires Clean(s) && Clean(u) && At(s, 0) == '/' == At(u, 0) && s != "" && u != ""
    requires Proper(Pieces(s, true)) == Proper(Pieces(u, true)) && (EndsInSlash(s) <==> EndsInSlash(u))
    ensures s == u
  {
    AbsolutePieces(s);
    AbsolutePieces(u);
    UnsplitPieces(s, true);
    UnsplitPieces(u, true);
  }

  lemma {:induction false} AbsolutePieces(s: string)
    requires Clean(s) && s != "" && s[0] == '/'
    ensures Pieces(s, true) == [""] + Proper(Pieces(s, true)) + if EndsInSlash(s) then [""] else []
  {
    var ps := Pieces(s, true);
    CleanPieces(s);
    assert ps == [""] + ps[1..];
    ProperCons("", ps[1..]);
    ProperOfClean(ps[1..]);
  }
}
