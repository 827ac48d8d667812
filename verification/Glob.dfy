/** glob: the vectors of path strings the C code builds are exactly those lists. */
module Glob {
  import opened CStrings
  import opened FnMatch
  import opened FnMatchLaws
  import opened DirTree
  import opened EscapeLaws
  import opened GlobLevels

  const GLOB_NOSPACE := 1
  const GLOB_NOMATCH := 3
  const MAX_MATCHES := 1024
  const MAX_COMPONENTS := 64

  // ---------- the expansion ----------

  /** One result vector: at most 1024 strings. */
  class Vec {
    var v: seq<string>

    constructor ()
      ensures v == []
    {
      v := [];
    }

    /** False when the vector is full. */
    method Push(s: string) returns (ok: bool)
      modifies this
      ensures ok == (|old(v)| < 1024)
      ensures v == if ok then old(v) + [s] else old(v)
    {
      if |v| >= MAX_MATCHES { return false; }
      v := v + [s];
      ok := true;
    }
  }

  function Paths(absolute: bool, ns: seq<seq<string>>): (r: seq<string>)
    ensures |r| == |ns| && forall i :: 0 <= i < |ns| ==> r[i] == PathOf(absolute, ns[i])
  {
    if ns == [] then [] else [PathOf(absolute, ns[0])] + Paths(absolute, ns[1..])
  }

  lemma {:induction false} PathsConcat(absolute: bool, a: seq<seq<string>>, b: seq<seq<string>>)
    ensures Paths(absolute, a + b) == Paths(absolute, a) + Paths(absolute, b)
  {
    var l, r := Paths(absolute, a + b), Paths(absolute, a) + Paths(absolute, b);
    assert |l| == |r| && forall i :: 0 <= i < |l| ==> l[i] == r[i];
  }

  /** glob_join into a 1024-byte buffer. */
  method GlobJoin(dir: string, name: string) returns (r: Option<string>)
    ensures r == if |Join(dir, name)| < 1024 then Some(Join(dir, name)) else None
  {
    var need := |name| + 1 + if dir == "" then 0 else if dir == "/" then 1 else |dir| + 1;
    if need > PATH_BUFFER { return None; }
    r := Some(if dir == "" then name else if dir == "/" then "/" + name else dir + "/" + name);
  }

  ghost predicate Ready(j: Job, fs: Fs, names: seq<string>, dir: string)
  {
    && Sane(j.top) && j.top == (if j.absolute then fs.root else fs.cwd)
    && dir == PathOf(j.absolute, names)
    && forall i :: 0 <= i < |names| ==> IsName(names[i])
  }

  /** The readdir loop: every accepted entry of one directory is pushed. */
  method ScanDir(fs: Fs, dir: string, c: string, fl: Flags, next: Vec, ghost j: Job, ghost names: seq<string>)
      returns (ok: bool)
    requires Ready(j, fs, names, dir) && j.fl == fl && HasMeta(c, fl.noescape) && IsCString(c)
    requires |next.v| <= MAX_MATCHES
    modifies next
    ensures |next.v| <= MAX_MATCHES && (ok <==> |old(next.v)| + |Children(j, names, c, true)| <= MAX_MATCHES)
    ensures ok ==> next.v == old(next.v) + Paths(j.absolute, Children(j, names, c, true))
  {
    hide Kept, Matches, PathOf, Resolve, Sane, Listing, Walk, Paths, KeptEntry;
    var entries := Listing(Resolve(fs, if dir != "" then dir else "."));
    EntriesOf(j, fs, names, dir, entries);
    for i := 0 to |entries|
      invariant |next.v| <= MAX_MATCHES
      invariant next.v + Paths(j.absolute, Kept(j, names, c, entries[i..])) ==
                old(next.v) + Paths(j.absolute, Children(j, names, c, true))
    {
      KeptStep(j, names, c, entries, i);
      ok := TryEntry(dir, entries[i], c, fl, next, j, names);
      if !ok { return; }
    }
    KeptNone(j, names, c, entries[|entries|..]);
    ok := true;
  }

  /** One directory entry: skipped, or joined and pushed. */
  method TryEntry(dir: string, name: string, c: string, fl: Flags, next: Vec, ghost j: Job, ghost names: seq<string>)
      returns (ok: bool)
    requires dir == PathOf(j.absolute, names) && j.fl == fl && IsCString(c) && |next.v| <= MAX_MATCHES
    requires name == "." || name == ".." || IsName(name)
    modifies next
    ensures |next.v| <= MAX_MATCHES && (ok <==> |old(next.v)| + |KeptEntry(j, names, c, name)| <= MAX_MATCHES)
    ensures ok ==> next.v == old(next.v) + Paths(j.absolute, KeptEntry(j, names, c, name))
  {
    hide Matches, PathOf;
    if name == "." || name == ".." { return true; }
    var r := Fnmatch(c, name, fl);
    if r != 0 { return true; }
    PathOfStep(j.absolute, names, name);
    var joined := GlobJoin(dir, name);
    if joined.None? { return true; }
    ok := next.Push(joined.value);
  }

  lemma PathOfStep(absolute: bool, names: seq<string>, name: string)
    ensures PathOf(absolute, names + [name]) == Join(PathOf(absolute, names), name)
    ensures Paths(absolute, [names + [name]]) == [Join(PathOf(absolute, names), name)]
  {
    assert (names + [name])[..|names|] == names;
  }

  lemma KeptNone(j: Job, names: seq<string>, c: string, es: seq<string>)
    requires es == []
    ensures Paths(j.absolute, Kept(j, names, c, es)) == []
  {
  }

  lemma {:induction false} KeptStep(j: Job, names: seq<string>, c: string, es: seq<string>, i: nat)
    requires i < |es|
    ensures Paths(j.absolute, Kept(j, names, c, es[i..])) ==
            Paths(j.absolute, KeptEntry(j, names, c, es[i])) + Paths(j.absolute, Kept(j, names, c, es[i + 1..]))
  {
    assert es[i..][1..] == es[i + 1..];
    PathsConcat(j.absolute, KeptEntry(j, names, c, es[i]), Kept(j, names, c, es[i + 1..]));
  }

  /** What opendir and readdir deliver for a path glob has built. */
  lemma {:induction false} EntriesOf(j: Job, fs: Fs, names: seq<string>, dir: string, es: seq<string>)
    requires Ready(j, fs, names, dir) && es == Listing(Resolve(fs, if dir != "" then dir else "."))
    ensures es == Listing(Walk(j.top, names)) && es[0..] == es
    ensures forall i :: 0 <= i < |es| ==> es[i] == "." || es[i] == ".." || IsName(es[i])
  {
    PathNamesBack(j.absolute, names);
    ResolvePath(fs, j.absolute, names);
    PiecesOfName(".");
    assert Proper(["."]) == [];
    var d := Walk(j.top, names);
    if d.Some? { WalkSane(j.top, names); }
  }

  /** The literal branch: the name is looked up instead of searched. */
  method ProbeLiteral(fs: Fs, dir: string, c: string, last: bool, fl: Flags, next: Vec, ghost j: Job,
                      ghost names: seq<string>)
      returns (ok: bool)
    requires Ready(j, fs, names, dir) && j.fl == fl && !HasMeta(c, fl.noescape) && IsName(Unescape(c, fl.noescape))
    requires |next.v| <= MAX_MATCHES && |c| < PATH_BUFFER
    modifies next
    ensures |next.v| <= MAX_MATCHES && (ok <==> |old(next.v)| + |Children(j, names, c, last)| <= MAX_MATCHES)
    ensures ok ==> next.v == old(next.v) + Paths(j.absolute, Children(j, names, c, last))
  {
    hide PathOf, Resolve, Sane, Walk, IsName;
    var buffer := new char[PATH_BUFFER];
    var overrun, n := GlobUnescape(c, buffer, fl.noescape);
    var lit := buffer[..n];
    ghost var ext := names + [lit];
    PathOfStep(j.absolute, names, lit);
    assert forall i :: 0 <= i < |ext| ==> IsName(ext[i]);
    ResolvePath(fs, j.absolute, ext);
    var joined := GlobJoin(dir, lit);
    if joined.None? { return true; }
    var st := Resolve(fs, joined.value);
    if st.None? || (!last && st.value.File?) { return true; }
    ok := next.Push(joined.value);
  }

  /** One round of glob's outer loop. */
  method ExpandLevel(fs: Fs, cur: Vec, c: string, last: bool, fl: Flags, ghost j: Job, ghost ns: seq<seq<string>>)
      returns (ok: bool, next: Vec)
    requires cur.v == Paths(j.absolute, ns) && j.fl == fl && IsCString(c) && |c| < PATH_BUFFER
    requires forall k :: 0 <= k < |ns| ==> Ready(j, fs, ns[k], cur.v[k])
    requires HasMeta(c, fl.noescape) || IsName(Unescape(c, fl.noescape))
    ensures fresh(next) && (ok <==> |Grow(j, ns, c, last)| <= MAX_MATCHES)
    ensures ok ==> next.v == Paths(j.absolute, Grow(j, ns, c, last))
  {
    hide HasMeta, Unescape, IsName, Ready, Grow, Children, Paths;
    next := new Vec();
    var meta := GlobHasMeta(c, fl.noescape);
    assert ns[0..] == ns;
    for k := 0 to |cur.v|
      invariant fresh(next) && |next.v| <= MAX_MATCHES
      invariant next.v + Paths(j.absolute, Grow(j, ns[k..], c, last)) == Paths(j.absolute, Grow(j, ns, c, last))
    {
      GrowStep(j, ns, c, last, k);
      ghost var before := next.v;
      ok := ExpandOne(fs, cur.v[k], meta, c, last, fl, next, j, ns[k]);
      if !ok { return; }
      Regroup(before, Paths(j.absolute, Children(j, ns[k], c, last)), Paths(j.absolute, Grow(j, ns[k + 1..], c, last)));
    }
    GrowNone(j, ns[|cur.v|..], c, last);
    ok := true;
  }

  lemma Regroup<T>(a: seq<T>, b: seq<T>, c: seq<T>)
    ensures a + (b + c) == (a + b) + c
  {
  }

  /** One path of the current level. */
  method ExpandOne(fs: Fs, dir: string, meta: bool, c: string, last: bool, fl: Flags, next: Vec, ghost j: Job,
                   ghost names: seq<string>)
      returns (ok: bool)
    requires Ready(j, fs, names, dir) && j.fl == fl && IsCString(c) && meta == HasMeta(c, fl.noescape)
    requires meta || IsName(Unescape(c, fl.noescape))
    requires |next.v| <= MAX_MATCHES && |c| < PATH_BUFFER
    modifies next
    ensures |next.v| <= MAX_MATCHES && (ok <==> |old(next.v)| + |Children(j, names, c, last)| <= MAX_MATCHES)
    ensures ok ==> next.v == old(next.v) + Paths(j.absolute, Children(j, names, c, last))
  {
    hide HasMeta, Unescape, IsName, Ready, Children, Paths;
    if meta {
      MetaIgnoresLast(j, names, c, last);
      ok := ScanDir(fs, dir, c, fl, next, j, names);
    } else {
      ok := ProbeLiteral(fs, dir, c, last, fl, next, j, names);
    }
  }

  lemma GrowNone(j: Job, ns: seq<seq<string>>, c: string, last: bool)
    requires ns == []
    ensures Paths(j.absolute, Grow(j, ns, c, last)) == []
  {
  }

  lemma {:induction false} GrowStep(j: Job, ns: seq<seq<string>>, c: string, last: bool, k: nat)
    requires k < |ns|
    ensures Paths(j.absolute, Grow(j, ns[k..], c, last)) ==
            Paths(j.absolute, Children(j, ns[k], c, last)) + Paths(j.absolute, Grow(j, ns[k + 1..], c, last))
  {
    assert ns[k..][1..] == ns[k + 1..];
    PathsConcat(j.absolute, Children(j, ns[k], c, last), Grow(j, ns[k + 1..], c, last));
  }

  lemma MetaIgnoresLast(j: Job, names: seq<string>, c: string, last: bool)
    requires HasMeta(c, j.fl.noescape)
    ensures Children(j, names, c, last) == Children(j, names, c, true)
  {
  }

  // ---------- splitting the pattern ----------

  function NonEmpty(ps: seq<string>): seq<string>
  {
    if ps == [] then [] else if ps[0] == "" then NonEmpty(ps[1..]) else [ps[0]] + NonEmpty(ps[1..])
  }

  /** The components glob lists: the first piece always, later ones only if not empty. */
  function Listed(ps: seq<string>): seq<string>
  {
    if ps == [] then [] else [ps[0]] + NonEmpty(ps[1..])
  }

  lemma {:induction false} NonEmptyConcat(a: seq<string>, b: seq<string>)
    ensures NonEmpty(a + b) == NonEmpty(a) + NonEmpty(b)
  {
    if a == [] {
      assert a + b == b;
    } else {
      assert (a + b)[1..] == a[1..] + b;
      NonEmptyConcat(a[1..], b);
    }
  }

  lemma {:induction false} ListedAppend(ps: seq<string>, p: string)
    ensures Listed(ps + [p]) == if ps == [] || p != "" then Listed(ps) + [p] else Listed(ps)
    ensures Listed(ps) == [] <==> ps == []
  {
    if ps != [] {
      assert (ps + [p])[1..] == ps[1..] + [p];
      NonEmptyConcat(ps[1..], [p]);
      assert [p][1..] == [];
    }
  }

  /** While a last, non-empty piece is still to come, the list is not full. */
  lemma {:induction false} ListedRoom(a: seq<string>, b: seq<string>)
    requires b != [] && b[|b| - 1] != ""
    ensures |Listed(a)| < |Listed(a + b)|
  {
    var init, l := b[..|b| - 1], b[|b| - 1];
    assert a + b == (a + init) + [l];
    ListedAppend(a + init, l);
    if a != [] {
      assert (a + init)[1..] == a[1..] + init;
      NonEmptyConcat(a[1..], init);
    }
  }

  lemma {:induction false} NonEmptyOfListed(ps: seq<string>)
    ensures NonEmpty(Listed(ps)) == NonEmpty(ps)
  {
    if ps != [] {
      NonEmptyTwice(ps[1..]);
      assert ([ps[0]] + NonEmpty(ps[1..]))[1..] == NonEmpty(ps[1..]);
    }
  }

  lemma {:induction false} NonEmptyTwice(ps: seq<string>)
    ensures NonEmpty(NonEmpty(ps)) == NonEmpty(ps)
  {
    if ps != [] {
      NonEmptyTwice(ps[1..]);
      if ps[0] != "" { assert ([ps[0]] + NonEmpty(ps[1..]))[1..] == NonEmpty(ps[1..]); }
    }
  }

  /** A pattern that does not end in a slash ends in a piece that is not empty. */
  lemma {:induction false} LastPiece(p: string, noescape: bool)
    requires p != "" && p[|p| - 1] != '/'
    ensures Pieces(p, noescape)[|Pieces(p, noescape)| - 1] != ""
    decreases |p|
  {
    hide Glue, Pieces;
    PiecesStep(p, noescape);
    var n := if p[0] == '\\' && !noescape && |p| > 1 then 2 else 1;
    var ps := Pieces(p[n..], noescape);
    if |p| > n { LastPiece(p[n..], noescape); } else { NoPieces(noescape); }
    GlueLast(p[..n], ps);
    if n == 1 && p[0] == '/' {
      assert |p| > 1 && Pieces(p, noescape) == [""] + ps;
    } else {
      assert Pieces(p, noescape) == Glue(p[..n], ps);
    }
  }

  lemma GlueLast(x: string, ps: seq<string>)
    requires ps != [] && x != ""
    ensures |Glue(x, ps)| == |ps|
    ensures |ps| == 1 || ps[|ps| - 1] != "" ==> Glue(x, ps)[|ps| - 1] != ""
  {
    assert |x + ps[0]| > 0;
  }

  /** The component loop over the pattern buffer; `start` is where the open component begins. */
  method SplitPattern(p: string, noescape: bool) returns (comp: seq<string>)
    requires IsCString(p) && p != "" && p[|p| - 1] != '/'
    requires |Listed(Pieces(p, noescape))| <= MAX_COMPONENTS
    ensures comp == Listed(Pieces(p, noescape))
    ensures forall i :: 0 <= i < |comp| ==> IsCString(comp[i]) && |comp[i]| <= |p|
  {
    hide Pieces, Listed, NonEmpty, Glue, Splitting, IsCString;
    var i, start := 0, 0;
    comp := [];
    ghost var done: seq<string> := [];
    SplitBegin(p, noescape);
    while i < |p| && |comp| < MAX_COMPONENTS
      invariant 0 <= start <= i <= |p| && comp == Listed(done) && Splitting(p, noescape, done, start, i)
      invariant forall k :: 0 <= k < |comp| ==> IsCString(comp[k]) && |comp[k]| <= |p|
    {
      SplitStep(p, noescape, done, start, i);
      if p[i] == '\\' && !noescape && i + 1 < |p| {
        i := i + 2;
      } else {
        if p[i] == '/' {
          ListedAppend(done, p[start..i]);
          SliceIsCString(p, start, i);
          if comp == [] || start != i { comp := comp + [p[start..i]]; }
          done := done + [p[start..i]];
          start := i + 1;
        }
        i := i + 1;
      }
    }
    SplitDone(p, noescape, done, start, i);
    SliceIsCString(p, start, |p|);
    assert p[start..|p|] == p[start..];
    comp := comp + [p[start..]];
  }

  lemma SliceIsCString(p: string, i: nat, j: nat)
    requires IsCString(p) && i <= j <= |p|
    ensures IsCString(p[i..j])
  {
  }

  /** The pieces in `done` are complete, and `start..i` is the open one so far. */
  ghost predicate Splitting(p: string, noescape: bool, done: seq<string>, start: nat, i: nat)
  {
    start <= i <= |p| && Pieces(p, noescape) == done + Glue(p[start..i], Pieces(p[i..], noescape))
  }

  /** The loop stops at the end of the pattern, and the open component is the last piece. */
  lemma {:induction false} SplitDone(p: string, noescape: bool, done: seq<string>, start: nat, i: nat)
    requires p != "" && p[|p| - 1] != '/' && start <= i <= |p|
    requires |Listed(Pieces(p, noescape))| <= MAX_COMPONENTS
    requires Splitting(p, noescape, done, start, i)
    requires i == |p| || |Listed(done)| >= MAX_COMPONENTS
    ensures Listed(Pieces(p, noescape)) == Listed(done) + [p[start..]]
  {
    hide Pieces, Listed, NonEmpty;
    LastPiece(p, noescape);
    var open := Glue(p[start..i], Pieces(p[i..], noescape));
    ListedRoom(done, open);
    SplitEnd(p, noescape, start);
    ListedAppend(done, p[start..]);
  }

  lemma GlueLaws(x: string, y: string, ps: seq<string>)
    requires ps != []
    ensures Glue("", ps) == ps && Glue(x, Glue(y, ps)) == Glue(x + y, ps)
  {
    assert "" + ps[0] == ps[0] && x + (y + ps[0]) == (x + y) + ps[0];
  }

  lemma SplitEnd(p: string, noescape: bool, start: nat)
    requires start <= |p|
    ensures Glue(p[start..|p|], Pieces(p[|p|..], noescape)) == [p[start..]]
  {
    assert p[start..|p|] == p[start..] && p[|p|..] == "" && Pieces("", noescape) == [""];
    assert p[start..] + "" == p[start..];
  }

  lemma SplitBegin(p: string, noescape: bool)
    ensures Splitting(p, noescape, [], 0, 0) && Listed([]) == []
  {
    assert p[0..] == p && p[0..0] == "";
    GlueLaws("", "", Pieces(p, noescape));
    assert [] + Pieces(p, noescape) == Pieces(p, noescape);
  }

  lemma {:induction false} PieceStep(p: string, noescape: bool, start: nat, i: nat)
    requires start <= i < |p|
    ensures
      if p[i] == '\\' && !noescape && i + 1 < |p| then
        Glue(p[start..i], Pieces(p[i..], noescape)) == Glue(p[start..i + 2], Pieces(p[i + 2..], noescape))
      else if p[i] == '/' then
        Glue(p[start..i], Pieces(p[i..], noescape)) ==
        [p[start..i]] + Glue(p[i + 1..i + 1], Pieces(p[i + 1..], noescape))
      else
        Glue(p[start..i], Pieces(p[i..], noescape)) == Glue(p[start..i + 1], Pieces(p[i + 1..], noescape))
  {
    assert p[i..][1..] == p[i + 1..] && p[i..][..1] == p[i..i + 1];
    if p[i] == '\\' && !noescape && i + 1 < |p| {
      assert p[i..][2..] == p[i + 2..] && p[i..][..2] == p[i..i + 2];
      assert p[start..i] + p[i..i + 2] == p[start..i + 2];
      GlueLaws(p[start..i], p[i..i + 2], Pieces(p[i + 2..], noescape));
    } else {
      assert p[start..i] + p[i..i + 1] == p[start..i + 1] && p[start..i] + "" == p[start..i];
      GlueLaws(p[start..i], p[i..i + 1], Pieces(p[i + 1..], noescape));
      assert p[i + 1..i + 1] == "" && ([""] + Pieces(p[i + 1..], noescape))[1..] == Pieces(p[i + 1..], noescape);
    }
  }

  /** One round of the component loop. */
  lemma {:induction false} SplitStep(p: string, noescape: bool, done: seq<string>, start: nat, i: nat)
    requires i < |p| && Splitting(p, noescape, done, start, i)
    ensures start <= i
    ensures
      if p[i] == '\\' && !noescape && i + 1 < |p| then Splitting(p, noescape, done, start, i + 2)
      else if p[i] == '/' then Splitting(p, noescape, done + [p[start..i]], i + 1, i + 1)
      else Splitting(p, noescape, done, start, i + 1)
  {
    hide Pieces, Glue;
    PieceStep(p, noescape, start, i);
    if p[i] == '/' {
      var rest := Glue(p[i + 1..i + 1], Pieces(p[i + 1..], noescape));
      assert done + ([p[start..i]] + rest) == done + [p[start..i]] + rest;
    }
  }

  // ---------- glob ----------

  ghost function JobOf(fs: Fs, pattern: string, fl: Flags): Job
  {
    var absolute := pattern != "" && pattern[0] == '/';
    Job(if absolute then fs.root else fs.cwd, absolute, fl)
  }

  /** `q` is the text of a path of the tree whose names are accepted, component by component. */
  ghost predicate IsResult(j: Job, cs: seq<string>, q: string)
  {
    |q| < PATH_BUFFER && exists names :: Hit(j.top, cs, j.fl, names) && q == PathOf(j.absolute, names)
  }

  lemma {:induction false} LevelReady(j: Job, fs: Fs, cs: seq<string>, i: nat)
    requires Sane(j.top) && j.top == (if j.absolute then fs.root else fs.cwd) && i <= |cs|
    ensures
      var ns := Level(j, cs, i);
      forall k :: 0 <= k < |ns| ==> Ready(j, fs, ns[k], Paths(j.absolute, ns)[k])
  {
    var ns := Level(j, cs, i);
    LevelSound(j, cs, i);
    forall k | 0 <= k < |ns| ensures Ready(j, fs, ns[k], Paths(j.absolute, ns)[k]) {
      assert ns[k] in ns;
      WalkSane(j.top, ns[k]);
    }
  }

  lemma {:induction false} LevelNames(j: Job, cs: seq<string>, x: seq<string>)
    requires Sane(j.top) && x in Level(j, cs, |cs|)
    ensures Hit(j.top, cs, j.fl, x) && Short(j, x) && forall i :: 0 <= i < |x| ==> IsName(x[i])
  {
    hide Sane, Walk, Level, AcceptsName;
    assert cs[..|cs|] == cs;
    LevelSound(j, cs, |cs|);
    WalkSane(j.top, x);
  }

  lemma {:induction false} PathsDistinct(j: Job, cs: seq<string>)
    requires Sane(j.top)
    ensures Distinct(Paths(j.absolute, Level(j, cs, |cs|)))
  {
    hide Level, Hit, PathOf, Sane, IsName;
    var ns := Level(j, cs, |cs|);
    var paths := Paths(j.absolute, ns);
    LevelSound(j, cs, |cs|);
    forall i, k | 0 <= i < k < |ns| ensures paths[i] != paths[k] {
      LevelNames(j, cs, ns[i]);
      LevelNames(j, cs, ns[k]);
      PathNamesBack(j.absolute, ns[i]);
      PathNamesBack(j.absolute, ns[k]);
    }
  }

  lemma {:induction false} PathsExact(j: Job, cs: seq<string>, q: string)
    requires Sane(j.top)
    ensures q in Paths(j.absolute, Level(j, cs, |cs|)) <==> IsResult(j, cs, q)
  {
    hide Level, Hit, PathOf, Sane, IsName;
    var ns := Level(j, cs, |cs|);
    var paths := Paths(j.absolute, ns);
    assert cs[..|cs|] == cs;
    if q in paths {
      var i :| 0 <= i < |paths| && paths[i] == q;
      LevelNames(j, cs, ns[i]);
    }
    if IsResult(j, cs, q) {
      var names :| Hit(j.top, cs, j.fl, names) && q == PathOf(j.absolute, names);
      HitWalks(j, cs, names);
      LevelComplete(j, cs, |cs|, names);
      var i :| 0 <= i < |ns| && ns[i] == names;
      assert paths[i] == q;
    }
  }

  lemma HitWalks(j: Job, cs: seq<string>, names: seq<string>)
    requires Hit(j.top, cs, j.fl, names)
    ensures Walk(j.top, names).Some?
  {
  }

  /** The last level, as strings, is the set of results without repetition. */
  lemma {:induction false} LastLevel(j: Job, cs: seq<string>)
    requires Sane(j.top)
    ensures
      var paths := Paths(j.absolute, Level(j, cs, |cs|));
      Distinct(paths) && forall q :: q in paths <==> IsResult(j, cs, q)
  {
    hide Level, Hit, PathOf, Sane, IsResult, Paths;
    PathsDistinct(j, cs);
    forall q ensures q in Paths(j.absolute, Level(j, cs, |cs|)) <==> IsResult(j, cs, q) { PathsExact(j, cs, q); }
  }

  lemma {:induction false} DeadEnd(j: Job, cs: seq<string>, i: nat, k: nat)
    requires i <= k <= |cs| && Level(j, cs, i) == []
    ensures Level(j, cs, k) == []
    decreases k
  {
    hide Children;
    if i < k {
      DeadEnd(j, cs, i, k - 1);
      assert Grow(j, [], cs[k - 1], k == |cs|) == [];
    }
  }

  lemma NoMeta(noescape: bool)
    ensures !HasMeta("", noescape)
  {
  }

  /**
   glob without GLOB_APPEND, GLOB_NOCHECK, GLOB_MARK and GLOB_ONLYDIR. `noescape` is GLOB_NOESCAPE and
   `period` is the absence of GLOB_PERIOD. `overrun` says that a literal pattern was written past its buffer.
   */
  method Glob(fs: Fs, pattern: string, noescape: bool, period: bool)
      returns (ret: int, paths: seq<string>, overrun: bool)
    requires Sane(fs.root) && Sane(fs.cwd) && IsCString(pattern)
    requires HasMeta(pattern, noescape) && |pattern| < PATH_BUFFER ==>
               && pattern[|pattern| - 1] != '/'
               && |Listed(Pieces(pattern, noescape))| <= MAX_COMPONENTS
               && PlainLiterals(NonEmpty(Pieces(pattern, noescape)), noescape)
    ensures overrun <==> !HasMeta(pattern, noescape) && |Unescape(pattern, noescape)| >= PATH_BUFFER
    ensures !HasMeta(pattern, noescape) && !overrun ==> ret == 0 && paths == [Unescape(pattern, noescape)]
    ensures (forall i :: 0 <= i < |pattern| ==> pattern[i] !in "*?[\\") && |pattern| < 1024 ==>
              ret == 0 && paths == [pattern] && !overrun
    ensures HasMeta(pattern, noescape) && |pattern| >= PATH_BUFFER ==> ret == GLOB_NOMATCH && paths == []
    ensures HasMeta(pattern, noescape) && |pattern| < PATH_BUFFER ==>
              var j := JobOf(fs, pattern, Flags(false, noescape, period));
              var cs := NonEmpty(Pieces(pattern, noescape));
              && (ret == 0 || ret == GLOB_NOMATCH || ret == GLOB_NOSPACE)
              && (ret == GLOB_NOSPACE <==> Overflows(j, cs))
              && (ret == 0 ==> Distinct(paths) && forall q :: q in paths <==> IsResult(j, cs, q))
              && (ret != 0 ==> paths == [])
              && (ret == GLOB_NOMATCH ==> forall q :: !IsResult(j, cs, q))
  {
    hide HasMeta, Unescape, Pieces, NonEmpty, Listed, Sane, PathOf, IsResult, IsCString;
    var meta := GlobHasMeta(pattern, noescape);
    if forall i :: 0 <= i < |pattern| ==> pattern[i] !in "*?[\\" { PlainIsLiteral(pattern, noescape); }
    if !meta {
      var lit := new char[PATH_BUFFER];
      var n;
      overrun, n := GlobUnescape(pattern, lit, noescape);
      return 0, [lit[..n]], overrun;
    }
    overrun := false;
    if |pattern| >= PATH_BUFFER { return GLOB_NOMATCH, [], false; }
    assert pattern != "" by { NoMeta(noescape); }
    ghost var j := JobOf(fs, pattern, Flags(false, noescape, period));
    ghost var cs := NonEmpty(Pieces(pattern, noescape));
    LastLevel(j, cs);
    ret, paths := Expand(fs, pattern, Flags(false, noescape, period));
  }

  ghost predicate Overflows(j: Job, cs: seq<string>)
  {
    exists i :: 0 <= i <= |cs| && |Level(j, cs, i)| > MAX_MATCHES
  }

  /** Component `ci` of the list is the `e`-th that counts. */
  lemma {:induction false} ComponentAt(comp: seq<string>, ci: nat)
    requires ci < |comp| && comp[|comp| - 1] != ""
    ensures comp[ci] == "" ==> NonEmpty(comp[..ci + 1]) == NonEmpty(comp[..ci])
    ensures comp[ci] != "" ==>
              var e := |NonEmpty(comp[..ci])|;
              && e < |NonEmpty(comp)| && NonEmpty(comp)[e] == comp[ci]
              && |NonEmpty(comp[..ci + 1])| == e + 1
              && (ci == |comp| - 1 <==> e + 1 == |NonEmpty(comp)|)
  {
    var tail := comp[ci + 1..];
    assert comp[..ci + 1] == comp[..ci] + [comp[ci]] && [comp[ci]][1..] == [];
    NonEmptyConcat(comp[..ci], [comp[ci]]);
    assert comp == comp[..ci + 1] + tail;
    NonEmptyConcat(comp[..ci + 1], tail);
    if tail != [] {
      assert tail == tail[..|tail| - 1] + [comp[|comp| - 1]];
      NonEmptyConcat(tail[..|tail| - 1], [comp[|comp| - 1]]);
    }
  }

  lemma ListedLast(ps: seq<string>)
    requires ps != [] && ps[|ps| - 1] != ""
    ensures Listed(ps) != [] && Listed(ps)[|Listed(ps)| - 1] == ps[|ps| - 1]
  {
    ListedAppend(ps[..|ps| - 1], ps[|ps| - 1]);
    assert ps == ps[..|ps| - 1] + [ps[|ps| - 1]];
  }

  lemma {:induction false} StartOfExpansion(j: Job, cs: seq<string>)
    ensures Level(j, cs, 0) == [[]] && NonEmpty([]) == []
    ensures Paths(j.absolute, [[]]) == [if j.absolute then "/" else ""]
  {
  }

  lemma {:induction false} NextLevel(j: Job, cs: seq<string>, e: nat)
    requires e < |cs|
    ensures Level(j, cs, e + 1) == Grow(j, Level(j, cs, e), cs[e], e + 1 == |cs|)
    ensures |Level(j, cs, e + 1)| > MAX_MATCHES ==> Overflows(j, cs)
  {
  }

  /** The expansion is over: it has run through all components, or died out before. */
  lemma {:induction false} ExpansionDone(j: Job, cs: seq<string>, e: nat)
    requires e <= |cs| && forall i :: 0 <= i <= e ==> |Level(j, cs, i)| <= MAX_MATCHES
    requires e == |cs| || Level(j, cs, e) == []
    ensures !Overflows(j, cs) && (Level(j, cs, e) == [] ==> Level(j, cs, |cs|) == [])
  {
    if Level(j, cs, e) == [] {
      forall i | e <= i <= |cs| ensures Level(j, cs, i) == [] { DeadEnd(j, cs, e, i); }
    }
  }

  method Expand(fs: Fs, pattern: string, fl: Flags) returns (ret: int, paths: seq<string>)
    requires Sane(fs.root) && Sane(fs.cwd) && IsCString(pattern)
    requires pattern != "" && pattern[|pattern| - 1] != '/' && |pattern| < PATH_BUFFER
    requires |Listed(Pieces(pattern, fl.noescape))| <= MAX_COMPONENTS
    requires PlainLiterals(NonEmpty(Pieces(pattern, fl.noescape)), fl.noescape)
    ensures
      var j := JobOf(fs, pattern, fl);
      var cs := NonEmpty(Pieces(pattern, fl.noescape));
      && (ret == 0 || ret == GLOB_NOMATCH || ret == GLOB_NOSPACE)
      && (ret == GLOB_NOSPACE <==> Overflows(j, cs))
      && (ret != GLOB_NOSPACE ==> paths == Paths(j.absolute, Level(j, cs, |cs|)) && (ret == 0 <==> paths != []))
      && (ret == GLOB_NOSPACE ==> paths == [])
  {
    hide HasMeta, Unescape, Pieces, NonEmpty, Listed, Sane, PathOf, IsCString, Paths, Grow, Ready, IsName, Level,
         Overflows, PlainLiterals;
    var comp := SplitPattern(pattern, fl.noescape);
    ghost var j := JobOf(fs, pattern, fl);
    ghost var cs := NonEmpty(Pieces(pattern, fl.noescape));
    LastPiece(pattern, fl.noescape);
    ListedLast(Pieces(pattern, fl.noescape));
    NonEmptyOfListed(Pieces(pattern, fl.noescape));
    StartOfExpansion(j, cs);
    var cur := new Vec();
    var pushed := cur.Push(if pattern[0] == '/' then "/" else "");
    var ok, last := RunLevels(fs, comp, cur, fl, j);
    if !ok { return GLOB_NOSPACE, []; }
    if |last.v| == 0 { return GLOB_NOMATCH, []; }
    ret, paths := 0, last.v;
  }

  /** The loop over the components; it stops early when nothing is left to expand. */
  method RunLevels(fs: Fs, comp: seq<string>, first: Vec, fl: Flags, ghost j: Job) returns (ok: bool, cur: Vec)
    requires Sane(j.top) && j.fl == fl && j.top == (if j.absolute then fs.root else fs.cwd)
    requires comp != [] && comp[|comp| - 1] != "" && PlainLiterals(NonEmpty(comp), fl.noescape)
    requires forall i :: 0 <= i < |comp| ==> IsCString(comp[i]) && |comp[i]| < PATH_BUFFER
    requires first.v == Paths(j.absolute, Level(j, NonEmpty(comp), 0))
    ensures ok <==> !Overflows(j, NonEmpty(comp))
    ensures ok ==> cur.v == Paths(j.absolute, Level(j, NonEmpty(comp), |NonEmpty(comp)|))
  {
    hide HasMeta, Unescape, NonEmpty, Sane, PathOf, IsCString, Paths, Grow, Ready, IsName, Level, Overflows;
    ghost var cs := NonEmpty(comp);
    StartOfExpansion(j, cs);
    assert comp[..0] == [] && comp[..|comp|] == comp;
    cur := first;
    ghost var e := 0;
    for ci := 0 to |comp|
      invariant e == |NonEmpty(comp[..ci])| <= |cs| && cur.v == Paths(j.absolute, Level(j, cs, e))
      invariant forall i :: 0 <= i <= e ==> |Level(j, cs, i)| <= MAX_MATCHES
    {
      ComponentAt(comp, ci);
      if comp[ci] == "" { continue; }
      LevelReady(j, fs, cs, e);
      NextLevel(j, cs, e);
      ok, cur := ExpandLevel(fs, cur, comp[ci], ci == |comp| - 1, fl, j, Level(j, cs, e));
      if !ok { return; }
      e := e + 1;
      if |cur.v| == 0 { break; }
    }
    ExpansionDone(j, cs, e);
    ok := true;
  }
}
