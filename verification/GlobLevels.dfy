/** Which paths a glob pattern selects, and the level-by-level expansion as lists of names. */
module GlobLevels {
  import opened CStrings
  import opened FnMatch
  import opened FnMatchLaws
  import opened DirTree

  const PATH_BUFFER := 1024

  // ---------- what glob should return ----------

  /** A name accepted by a pattern component: literal components are compared directly. */
  ghost predicate AcceptsName(c: string, name: string, fl: Flags)
  {
    if HasMeta(c, fl.noescape) then Matches(c, name, fl) else name == Unescape(c, fl.noescape)
  }

  /** For ASCII components that is fnmatch in every case. */
  lemma {:induction false} AcceptsNameIsFnmatch(c: string, name: string, fl: Flags)
    requires SevenBit(Unescape(c, fl.noescape))
    ensures AcceptsName(c, name, fl) <==> Matches(c, name, fl)
  {
    if !HasMeta(c, fl.noescape) { LiteralLang(c, name, fl, true); }
  }

  /** `names` is a path of the tree whose every name is accepted by its component. */
  ghost predicate Hit(top: Node, cs: seq<string>, fl: Flags, names: seq<string>)
  {
    && |names| == |cs| && Walk(top, names).Some?
    && forall i :: 0 <= i < |cs| ==> AcceptsName(cs[i], names[i], fl)
  }

  /** Literal components name an entry: no slash and no "." or "..". */
  ghost predicate PlainLiterals(cs: seq<string>, noescape: bool)
  {
    forall i :: 0 <= i < |cs| && !HasMeta(cs[i], noescape) ==> IsName(Unescape(cs[i], noescape))
  }

  // ---------- one level, as lists of names in traversal order ----------

  datatype Job = Job(top: Node, absolute: bool, fl: Flags)

  function Listing(n: Option<Node>): seq<string>
  {
    [".", ".."] + if n.Some? && n.value.Dir? then Names(n.value.entries) else []
  }

  predicate Short(j: Job, names: seq<string>) { |PathOf(j.absolute, names)| < PATH_BUFFER }

  /** The directory entries that continue `names` through a component with metacharacters. */
  ghost function Kept(j: Job, names: seq<string>, c: string, es: seq<string>): seq<seq<string>>
  {
    if es == [] then [] else KeptEntry(j, names, c, es[0]) + Kept(j, names, c, es[1..])
  }

  ghost function KeptEntry(j: Job, names: seq<string>, c: string, e: string): seq<seq<string>>
  {
    if e != "." && e != ".." && Matches(c, e, j.fl) && Short(j, names + [e]) then [names + [e]] else []
  }

  ghost function Children(j: Job, names: seq<string>, c: string, last: bool): seq<seq<string>>
  {
    if HasMeta(c, j.fl.noescape) then Kept(j, names, c, Listing(Walk(j.top, names)))
    else
      var ext := names + [Unescape(c, j.fl.noescape)];
      var n := Walk(j.top, ext);
      if Short(j, ext) && n.Some? && (last || n.value.Dir?) then [ext] else []
  }

  ghost function Grow(j: Job, ns: seq<seq<string>>, c: string, last: bool): seq<seq<string>>
  {
    if ns == [] then [] else Children(j, ns[0], c, last) + Grow(j, ns[1..], c, last)
  }

  /** The names alive after the first `i` components. */
  ghost function Level(j: Job, cs: seq<string>, i: nat): seq<seq<string>>
    requires i <= |cs|
  {
    if i == 0 then [[]] else Grow(j, Level(j, cs, i - 1), cs[i - 1], i == |cs|)
  }

  // ---------- a level holds exactly the right names ----------

  ghost predicate Distinct<T>(xs: seq<T>)
  {
    forall i, k :: 0 <= i < k < |xs| ==> xs[i] != xs[k]
  }

  lemma {:induction false} KeptMembers(j: Job, names: seq<string>, c: string, es: seq<string>, x: seq<string>)
    ensures x in Kept(j, names, c, es) <==>
            exists e :: e in es && e != "." && e != ".." && x == names + [e] && Matches(c, e, j.fl) && Short(j, x)
  {
    if es != [] {
      KeptMembers(j, names, c, es[1..], x);
      assert forall e :: e in es <==> e == es[0] || e in es[1..];
    }
  }

  lemma {:induction false} DistinctConcat<T>(a: seq<T>, b: seq<T>)
    requires Distinct(a) && Distinct(b) && forall x :: x in a ==> x !in b
    ensures Distinct(a + b)
  {
    forall i, k | 0 <= i < k < |a + b| ensures (a + b)[i] != (a + b)[k] {
      if i < |a| <= k { assert a[i] in a && b[k - |a|] in b; }
    }
  }

  lemma {:induction false} KeptDistinct(j: Job, names: seq<string>, c: string, es: seq<string>)
    requires Distinct(es)
    ensures Distinct(Kept(j, names, c, es))
  {
    if es != [] {
      assert Distinct(es[1..]);
      KeptDistinct(j, names, c, es[1..]);
      var first, rest := names + [es[0]], Kept(j, names, c, es[1..]);
      if first in rest {
        KeptMembers(j, names, c, es[1..], first);
        assert false;
      }
      DistinctConcat([first], rest);
    }
  }

  /** `x` extends `names` by one accepted entry. */
  ghost predicate Extends(j: Job, names: seq<string>, c: string, last: bool, x: seq<string>)
  {
    && |x| == |names| + 1 && x[..|names|] == names
    && Walk(j.top, x).Some? && AcceptsName(c, x[|names|], j.fl) && Short(j, x)
    && (HasMeta(c, j.fl.noescape) || last || Walk(j.top, x).value.Dir?)
  }

  lemma {:induction false} ListingMembers(j: Job, names: seq<string>, e: string)
    requires Sane(j.top)
    ensures e in Listing(Walk(j.top, names)) && e != "." && e != ".." <==> Walk(j.top, names + [e]).Some?
  {
    WalkStep(j.top, names, e);
    var d := Walk(j.top, names);
    if d.Some? && d.value.Dir? {
      FindByName(d.value.entries, e);
      WalkSane(j.top, names);
    }
  }

  lemma {:induction false} ListingDistinct(j: Job, names: seq<string>)
    requires Sane(j.top)
    ensures Distinct(Listing(Walk(j.top, names)))
  {
    var d := Walk(j.top, names);
    if d.Some? && d.value.Dir? { WalkSane(j.top, names); }
  }

  lemma {:induction false} ChildrenMembers(j: Job, names: seq<string>, c: string, last: bool, x: seq<string>)
    requires Sane(j.top)
    ensures x in Children(j, names, c, last) <==> Extends(j, names, c, last, x)
  {
    hide Matches, Unescape, PathOf, Walk, Sane;
    if HasMeta(c, j.fl.noescape) {
      var es := Listing(Walk(j.top, names));
      KeptMembers(j, names, c, es, x);
      if x in Children(j, names, c, last) {
        var e :| e in es && e != "." && e != ".." && x == names + [e] && Matches(c, e, j.fl) && Short(j, x);
        ListingMembers(j, names, e);
      }
      if Extends(j, names, c, last, x) {
        var e := x[|names|];
        assert x == names + [e];
        ListingMembers(j, names, e);
      }
    } else {
      var lit := Unescape(c, j.fl.noescape);
      if Extends(j, names, c, last, x) { assert x == names + [lit]; }
    }
  }

  lemma {:induction false} ChildrenDistinct(j: Job, names: seq<string>, c: string, last: bool)
    requires Sane(j.top)
    ensures Distinct(Children(j, names, c, last))
  {
    ListingDistinct(j, names);
    KeptDistinct(j, names, c, Listing(Walk(j.top, names)));
  }

  lemma {:induction false} GrowMembers(j: Job, ns: seq<seq<string>>, c: string, last: bool, x: seq<string>)
    requires Sane(j.top)
    ensures x in Grow(j, ns, c, last) <==> exists names :: names in ns && Extends(j, names, c, last, x)
  {
    if ns != [] {
      ChildrenMembers(j, ns[0], c, last, x);
      GrowMembers(j, ns[1..], c, last, x);
      assert forall names :: names in ns <==> names == ns[0] || names in ns[1..];
    }
  }

  lemma {:induction false} GrowDistinct(j: Job, ns: seq<seq<string>>, c: string, last: bool)
    requires Sane(j.top) && Distinct(ns)
    requires forall i :: 0 <= i < |ns| ==> |ns[i]| == |ns[0]|
    ensures Distinct(Grow(j, ns, c, last))
  {
    hide Extends;
    if ns != [] {
      assert Distinct(ns[1..]);
      GrowDistinct(j, ns[1..], c, last);
      ChildrenDistinct(j, ns[0], c, last);
      var a, b := Children(j, ns[0], c, last), Grow(j, ns[1..], c, last);
      forall x | x in a ensures x !in b {
        ChildrenMembers(j, ns[0], c, last, x);
        if x in b {
          GrowMembers(j, ns[1..], c, last, x);
          var names :| names in ns[1..] && Extends(j, names, c, last, x);
          OneParent(j, ns[0], names, c, last, x);
          assert false;
        }
      }
      DistinctConcat(a, b);
    }
  }

  lemma OneParent(j: Job, n1: seq<string>, n2: seq<string>, c: string, last: bool, x: seq<string>)
    requires Extends(j, n1, c, last, x) && Extends(j, n2, c, last, x)
    ensures n1 == n2
  {
  }

  lemma {:induction false} ShorterParent(absolute: bool, names: seq<string>)
    requires names != []
    ensures |PathOf(absolute, names[..|names| - 1])| <= |PathOf(absolute, names)| || names[|names| - 1] == ""
  {
  }

  /** Each level holds only hits, each of them once. */
  lemma {:induction false} LevelSound(j: Job, cs: seq<string>, i: nat)
    requires Sane(j.top) && i <= |cs|
    ensures Distinct(Level(j, cs, i))
    ensures forall x :: x in Level(j, cs, i) ==> Hit(j.top, cs[..i], j.fl, x) && Short(j, x)
  {
    if i == 0 {
      assert PathOf(j.absolute, []) == "/" || PathOf(j.absolute, []) == "";
    } else {
      LevelSound(j, cs, i - 1);
      var before := Level(j, cs, i - 1);
      assert forall k :: 0 <= k < |before| ==> before[k] in before;
      GrowDistinct(j, before, cs[i - 1], i == |cs|);
      forall x | x in Level(j, cs, i) ensures Hit(j.top, cs[..i], j.fl, x) && Short(j, x) {
        GrownHits(j, cs, i, before, x);
      }
    }
  }

  lemma {:induction false} GrownHits(j: Job, cs: seq<string>, i: nat, before: seq<seq<string>>, x: seq<string>)
    requires Sane(j.top) && 0 < i <= |cs| && x in Grow(j, before, cs[i - 1], i == |cs|)
    requires forall y :: y in before ==> Hit(j.top, cs[..i - 1], j.fl, y)
    ensures Hit(j.top, cs[..i], j.fl, x) && Short(j, x)
  {
    hide Hit;
    GrowMembers(j, before, cs[i - 1], i == |cs|, x);
    var names :| names in before && Extends(j, names, cs[i - 1], i == |cs|, x);
    HitExtends(j, cs, i, names, x);
  }

  lemma {:induction false} HitExtends(j: Job, cs: seq<string>, i: nat, names: seq<string>, x: seq<string>)
    requires 0 < i <= |cs| && Hit(j.top, cs[..i - 1], j.fl, names) && Extends(j, names, cs[i - 1], i == |cs|, x)
    ensures Hit(j.top, cs[..i], j.fl, x)
  {
    hide AcceptsName, Walk;
    forall k | 0 <= k < i ensures AcceptsName(cs[..i][k], x[k], j.fl) {
      if k < i - 1 {
        assert x[k] == names[k] && cs[..i - 1][k] == cs[k];
      }
    }
  }

  /** Each level holds every hit that the next component, if any, could continue. */
  lemma {:induction false} LevelComplete(j: Job, cs: seq<string>, i: nat, x: seq<string>)
    requires Sane(j.top) && i <= |cs| && Hit(j.top, cs[..i], j.fl, x) && Short(j, x)
    requires i == |cs| || Walk(j.top, x).value.Dir?
    ensures x in Level(j, cs, i)
  {
    if i > 0 {
      var names := x[..i - 1];
      assert x == names + [x[i - 1]];
      WalkStep(j.top, names, x[i - 1]);
      WalkSane(j.top, x);
      ShorterParent(j.absolute, x);
      assert AcceptsName(cs[..i][i - 1], x[i - 1], j.fl);
      HitInit(j, cs, i, x);
      LevelComplete(j, cs, i - 1, names);
      GrowMembers(j, Level(j, cs, i - 1), cs[i - 1], i == |cs|, x);
      assert Extends(j, names, cs[i - 1], i == |cs|, x);
    }
  }

  lemma {:induction false} HitInit(j: Job, cs: seq<string>, i: nat, x: seq<string>)
    requires 0 < i <= |cs| && Hit(j.top, cs[..i], j.fl, x) && Walk(j.top, x[..i - 1]).Some?
    ensures Hit(j.top, cs[..i - 1], j.fl, x[..i - 1])
  {
    hide AcceptsName, Walk;
    forall k | 0 <= k < i - 1 ensures AcceptsName(cs[k], x[k], j.fl) {
      assert AcceptsName(cs[..i][k], x[k], j.fl);
    }
  }
}
