/** Which bytes of a pattern a backslash escapes, and what that means for metacharacters and slashes. */
module EscapeLaws {
  import opened FnMatchLaws
  import opened DirTree

  /** How many backslashes stand directly in front of index `i`. */
  function Backslashes(p: string, i: nat): nat
    requires i <= |p|
  {
    if i > 0 && p[i - 1] == '\\' then 1 + Backslashes(p, i - 1) else 0
  }

  /** An odd run of backslashes in front of a byte escapes it. */
  predicate Covered(p: string, i: nat, noescape: bool)
    requires i <= |p|
  {
    !noescape && Backslashes(p, i) % 2 == 1
  }

  predicate IsMeta(c: char) { c == '*' || c == '?' || c == '[' }

  ghost predicate MetaFrom(p: string, k: nat, noescape: bool)
  {
    exists i :: k <= i < |p| && IsMeta(p[i]) && !Covered(p, i, noescape)
  }

  /** From an index that is not escaped, the scan and the definition agree. */
  lemma {:induction false} MetaBehind(p: string, k: nat, noescape: bool)
    requires k <= |p| && (k < |p| ==> !Covered(p, k, noescape))
    ensures HasMeta(p[k..], noescape) <==> MetaFrom(p, k, noescape)
    decreases |p| - k
  {
    hide Backslashes, HasMeta;
    MetaStep(p[k..], noescape);
    if k < |p| {
      var q := p[k..];
      assert q[0] == p[k] && q[1..] == p[k + 1..];
      CoverStep(p, k, noescape);
      if p[k] == '\\' && !noescape && k + 1 < |p| {
        assert q[2..] == p[k + 2..];
        CoverStep(p, k + 1, noescape);
        MetaBehind(p, k + 2, noescape);
      } else {
        MetaBehind(p, k + 1, noescape);
      }
    }
  }

  lemma MetaStep(q: string, noescape: bool)
    ensures
      HasMeta(q, noescape) ==
      if q == "" then false
      else if q[0] == '\\' && !noescape && |q| > 1 then HasMeta(q[2..], noescape)
      else IsMeta(q[0]) || HasMeta(q[1..], noescape)
  {
  }

  /** A byte is escaped exactly if the one in front is a backslash that is not. */
  lemma CoverStep(p: string, k: nat, noescape: bool)
    requires k < |p|
    ensures Covered(p, k + 1, noescape) <==> !noescape && p[k] == '\\' && !Covered(p, k, noescape)
  {
  }

  /** A metacharacter is a '*', '?' or '[' that is not escaped. */
  lemma {:induction false} HasMetaExactly(p: string, noescape: bool)
    ensures HasMeta(p, noescape) <==> exists i :: 0 <= i < |p| && IsMeta(p[i]) && !Covered(p, i, noescape)
  {
    assert p[0..] == p;
    MetaBehind(p, 0, noescape);
  }

  /** Text without metacharacters and backslashes is its own literal, and so is everything under NOESCAPE. */
  lemma {:induction false} PlainIsLiteral(p: string, noescape: bool)
    requires forall i :: 0 <= i < |p| ==> !IsMeta(p[i]) && (p[i] != '\\' || noescape)
    ensures !HasMeta(p, noescape) && Unescape(p, noescape) == p
  {
    if p != "" { PlainIsLiteral(p[1..], noescape); }
  }

  /** Without escapes nothing is dropped. */
  lemma {:induction false} UnescapeNothing(p: string)
    ensures Unescape(p, true) == p
  {
    if p != "" { UnescapeNothing(p[1..]); }
  }

  // ---------- slashes ----------

  ghost predicate NoFreeSlash(p: string, noescape: bool)
  {
    forall i :: 0 <= i < |p| && p[i] == '/' ==> Covered(p, i, noescape)
  }

  /** Text in front that ends unescaped does not change what is escaped behind it. */
  lemma {:induction false} CoveredBehind(x: string, q: string, i: nat, noescape: bool)
    requires i <= |q| && !Covered(x, |x|, noescape)
    ensures Covered(x + q, |x| + i, noescape) <==> Covered(q, i, noescape)
    decreases i
  {
    hide Backslashes;
    var p := x + q;
    if i > 0 {
      CoveredBehind(x, q, i - 1, noescape);
      CoverStep(p, |x| + i - 1, noescape);
      CoverStep(q, i - 1, noescape);
    } else {
      CoveredSame(x, q, |x|, noescape);
      CoveredStart(q, noescape);
    }
  }

  lemma {:induction false} CoveredSame(x: string, q: string, i: nat, noescape: bool)
    requires i <= |x|
    ensures Covered(x + q, i, noescape) <==> Covered(x, i, noescape)
    decreases i
  {
    hide Backslashes;
    CoveredStart(x, noescape);
    CoveredStart(x + q, noescape);
    if i > 0 {
      CoveredSame(x, q, i - 1, noescape);
      CoverStep(x + q, i - 1, noescape);
      CoverStep(x, i - 1, noescape);
    }
  }

  lemma CoveredStart(p: string, noescape: bool)
    ensures !Covered(p, 0, noescape)
  {
  }

  /** The bytes the split moves over together: a backslash with what it escapes, or one byte. */
  lemma UnitCovers(x: string, noescape: bool)
    requires (|x| == 1 && (noescape || x[0] != '\\')) || (|x| == 2 && !noescape && x[0] == '\\')
    ensures !Covered(x, |x|, noescape) && (|x| == 2 ==> Covered(x, 1, noescape))
  {
    CoveredStart(x, noescape);
    CoverStep(x, 0, noescape);
    if |x| == 2 { CoverStep(x, 1, noescape); }
  }

  lemma {:induction false} NoFreeSlashGlued(x: string, q: string, noescape: bool)
    requires !Covered(x, |x|, noescape) && NoFreeSlash(x, noescape) && NoFreeSlash(q, noescape)
    ensures NoFreeSlash(x + q, noescape) && (Covered(x + q, |x + q|, noescape) <==> Covered(q, |q|, noescape))
  {
    hide Covered;
    var p := x + q;
    CoveredBehind(x, q, |q|, noescape);
    forall i | 0 <= i < |p| && p[i] == '/' ensures Covered(p, i, noescape) {
      if i < |x| { CoveredSame(x, q, i, noescape); } else { CoveredBehind(x, q, i - |x|, noescape); }
    }
  }

  /** What a split at the slashes that are not escaped leaves: no such slash inside, and none escaped between. */
  ghost predicate CutAtFreeSlashes(ps: seq<string>, noescape: bool)
  {
    && (forall k :: 0 <= k < |ps| ==> NoFreeSlash(ps[k], noescape))
    && (forall k :: 0 <= k < |ps| - 1 ==> !Covered(ps[k], |ps[k]|, noescape))
  }

  /** The components of a pattern are what stands between the slashes that are not escaped. */
  lemma {:induction false} PiecesExactly(p: string, noescape: bool)
    ensures Unsplit(Pieces(p, noescape)) == p && CutAtFreeSlashes(Pieces(p, noescape), noescape)
    decreases |p|
  {
    hide Pieces, NoFreeSlash, Covered, Unsplit;
    UnsplitPieces(p, noescape);
    EmptyHoldsNone(noescape);
    if p == "" {
      NoPieces(noescape);
    } else {
      PiecesStep(p, noescape);
      var k := if p[0] == '\\' && !noescape && |p| > 1 then 2 else 1;
      PiecesExactly(p[k..], noescape);
      var ps := Pieces(p[k..], noescape);
      if p[0] != '/' {
        if |p| == 1 { NoPieces(noescape); }
        UnitGlued(p, k, ps[0], noescape);
      }
    }
  }

  lemma EmptyHoldsNone(noescape: bool)
    ensures NoFreeSlash("", noescape) && !Covered("", 0, noescape)
  {
  }

  lemma {:induction false} UnitGlued(p: string, k: nat, q: string, noescape: bool)
    requires p != "" && p[0] != '/' && k == (if p[0] == '\\' && !noescape && |p| > 1 then 2 else 1)
    requires NoFreeSlash(q, noescape) && (|p| == 1 ==> q == "")
    ensures NoFreeSlash(p[..k] + q, noescape)
    ensures |p| > 1 ==> (Covered(p[..k] + q, |p[..k] + q|, noescape) <==> Covered(q, |q|, noescape))
  {
    var x := p[..k];
    if k == 1 && !noescape && p[0] == '\\' {
      assert x + q == "\\";
    } else {
      UnitCovers(x, noescape);
      NoFreeSlashGlued(x, q, noescape);
    }
  }
}
