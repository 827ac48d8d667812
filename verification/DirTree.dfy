/** An abstract directory tree and the path names that reach into it. */
module DirTree {
  import opened CStrings

  datatype Node = File | Dir(entries: seq<Entry>)

  datatype Entry = Entry(name: string, node: Node)

  /** Where absolute and relative paths start. */
  datatype Fs = Fs(root: Node, cwd: Node)

  predicate IsName(n: string)
  {
    n != "" && n != "." && n != ".." && '/' !in n && IsCString(n)
  }

  /** Entries have proper names, each name once per directory. */
  ghost predicate Sane(n: Node)
  {
    n.File? ||
    (&& (forall i :: 0 <= i < |n.entries| ==> IsName(n.entries[i].name) && Sane(n.entries[i].node))
     && (forall i, j :: 0 <= i < j < |n.entries| ==> n.entries[i].name != n.entries[j].name))
  }

  function Find(es: seq<Entry>, name: string): Option<Node>
  {
    if es == [] then None else if es[0].name == name then Some(es[0].node) else Find(es[1..], name)
  }

  function Names(es: seq<Entry>): (r: seq<string>)
    ensures |r| == |es| && forall i :: 0 <= i < |es| ==> r[i] == es[i].name
  {
    if es == [] then [] else [es[0].name] + Names(es[1..])
  }

  function Walk(n: Node, names: seq<string>): Option<Node>
    decreases |names|
  {
    if names == [] then Some(n)
    else if n.File? then None
    else match Find(n.entries, names[0])
         case None => None
         case Some(child) => Walk(child, names[1..])
  }

  lemma {:induction false} FindByName(es: seq<Entry>, name: string)
    ensures Find(es, name).Some? <==> name in Names(es)
    ensures Find(es, name).Some? ==>
            exists i :: 0 <= i < |es| && es[i].name == name && es[i].node == Find(es, name).value
  {
    if es != [] && es[0].name != name {
      FindByName(es[1..], name);
      if Find(es, name).Some? {
        var i :| 0 <= i < |es[1..]| && es[1..][i].name == name && es[1..][i].node == Find(es[1..], name).value;
        assert es[i + 1].name == name;
      }
    }
  }

  /** One step further down. */
  lemma {:induction false} WalkStep(n: Node, names: seq<string>, name: string)
    ensures Walk(n, names + [name]) ==
            var d := Walk(n, names);
            if d.Some? && d.value.Dir? then Find(d.value.entries, name) else None
    decreases |names|
  {
    if names == [] {
      assert names + [name] == [name];
      assert [name][1..] == [];
    } else if n.Dir? && Find(n.entries, names[0]).Some? {
      WalkStep(Find(n.entries, names[0]).value, names[1..], name);
      assert (names + [name])[1..] == names[1..] + [name];
    }
  }

  lemma {:induction false} WalkSane(n: Node, names: seq<string>)
    requires Sane(n) && Walk(n, names).Some?
    ensures Sane(Walk(n, names).value)
    ensures forall i :: 0 <= i < |names| ==> IsName(names[i])
    decreases |names|
  {
    if names != [] {
      FindByName(n.entries, names[0]);
      WalkSane(Find(n.entries, names[0]).value, names[1..]);
      assert forall i :: 0 < i < |names| ==> names[i] == names[1..][i - 1];
    }
  }

  // ---------- path names ----------

  /** The text between slashes; a backslash outside `noescape` hides the slash behind it. */
  function Pieces(p: string, noescape: bool): (r: seq<string>)
    ensures r != []
    decreases |p|
  {
    if p == "" then [""]
    else if p[0] == '\\' && !noescape && |p| > 1 then Glue(p[..2], Pieces(p[2..], noescape))
    else if p[0] == '/' then [""] + Pieces(p[1..], noescape)
    else Glue(p[..1], Pieces(p[1..], noescape))
  }

  function Glue(x: string, ps: seq<string>): (r: seq<string>)
    requires ps != []
    ensures |r| == |ps|
  {
    [x + ps[0]] + ps[1..]
  }

  lemma NoPieces(noescape: bool)
    ensures Pieces("", noescape) == [""]
  {
  }

  lemma PiecesStep(p: string, noescape: bool)
    requires p != ""
    ensures
      Pieces(p, noescape) ==
      if p[0] == '\\' && !noescape && |p| > 1 then Glue(p[..2], Pieces(p[2..], noescape))
      else if p[0] == '/' then [""] + Pieces(p[1..], noescape)
      else Glue(p[..1], Pieces(p[1..], noescape))
  {
    hide Glue;
  }

  /** The pieces with a slash between each two. */
  function Unsplit(ps: seq<string>): string
    requires ps != []
  {
    ps[0] + if |ps| == 1 then "" else "/" + Unsplit(ps[1..])
  }

  lemma UnsplitStep(ps: seq<string>)
    requires ps != []
    ensures Unsplit(ps) == ps[0] + if |ps| == 1 then "" else "/" + Unsplit(ps[1..])
  {
  }

  lemma UnsplitGlue(x: string, ps: seq<string>)
    requires ps != []
    ensures Unsplit(Glue(x, ps)) == x + Unsplit(ps) && Unsplit([""] + ps) == "/" + Unsplit(ps)
  {
    hide Unsplit;
    UnsplitStep(ps);
    UnsplitStep([""] + ps);
    assert ([""] + ps)[1..] == ps && "" + ("/" + Unsplit(ps)) == "/" + Unsplit(ps);
    var g := Glue(x, ps);
    assert g[0] == x + ps[0] && g[1..] == ps[1..];
    UnsplitStep(g);
    var tail := if |ps| == 1 then "" else "/" + Unsplit(ps[1..]);
    assert x + ps[0] + tail == x + (ps[0] + tail);
  }

  /** Nothing is lost by splitting. */
  lemma {:induction false} UnsplitPieces(s: string, noescape: bool)
    ensures Unsplit(Pieces(s, noescape)) == s
    decreases |s|
  {
    hide Unsplit, Pieces, Glue;
    if s == "" {
      NoPieces(noescape);
      UnsplitStep([""]);
    } else {
      var k := if s[0] == '\\' && !noescape && |s| > 1 then 2 else 1;
      PiecesStep(s, noescape);
      UnsplitPieces(s[k..], noescape);
      UnsplitGlue(s[..k], Pieces(s[k..], noescape));
      assert s == s[..k] + s[k..];
    }
  }

  /** The pieces that name something. */
  function Proper(ps: seq<string>): seq<string>
  {
    if ps == [] then []
    else if ps[0] == "" || ps[0] == "." then Proper(ps[1..])
    else [ps[0]] + Proper(ps[1..])
  }

  function Resolve(fs: Fs, path: string): Option<Node>
  {
    Walk(if path != "" && path[0] == '/' then fs.root else fs.cwd, Proper(Pieces(path, true)))
  }

  /** The path glob builds for a list of names. */
  function PathOf(absolute: bool, names: seq<string>): string
  {
    if names == [] then (if absolute then "/" else "")
    else Join(PathOf(absolute, names[..|names| - 1]), names[|names| - 1])
  }

  function Join(dir: string, name: string): string
  {
    if dir == "" then name else if dir == "/" then "/" + name else dir + "/" + name
  }

  lemma {:induction false} PiecesOfName(name: string)
    requires '/' !in name
    ensures Pieces(name, true) == [name]
  {
    if name != "" {
      PiecesOfName(name[1..]);
      assert name[..1] + name[1..] == name;
    }
  }

  lemma {:induction false} PiecesAppend(dir: string, name: string)
    requires '/' !in name
    ensures Pieces(dir + "/" + name, true) == Pieces(dir, true) + [name]
    decreases |dir|
  {
    var p := dir + "/" + name;
    if dir == "" {
      assert p == "/" + name && p[1..] == name;
      PiecesOfName(name);
    } else {
      PiecesAppend(dir[1..], name);
      assert p[0] == dir[0] && p[1..] == dir[1..] + "/" + name && p[..1] == dir[..1];
    }
  }

  lemma {:induction false} ProperAppend(ps: seq<string>, name: string)
    requires name != "" && name != "."
    ensures Proper(ps + [name]) == Proper(ps) + [name]
  {
    if ps == [] {
      assert ps + [name] == [name] && Proper([name]) == [name] + Proper([name][1..]);
    } else {
      assert (ps + [name])[1..] == ps[1..] + [name];
      ProperAppend(ps[1..], name);
    }
  }

  lemma {:induction false} JoinPieces(dir: string, name: string)
    requires IsName(name)
    ensures Proper(Pieces(Join(dir, name), true)) == Proper(Pieces(dir, true)) + [name]
    ensures Join(dir, name) != "" && Join(dir, name) != "/"
    ensures Join(dir, name)[0] == '/' <==> dir != "" && dir[0] == '/'
  {
    if dir == "" || dir == "/" {
      PiecesOfName(name);
      PiecesAppend("", name);
      assert "" + "/" + name == "/" + name;
      assert Pieces("", true) == [""] && Pieces("/", true) == ["", ""];
      assert Proper([""]) == [] && Proper(["", ""]) == [];
      ProperAppend([""], name);
      ProperAppend([], name);
      assert [] + [name] == [name];
    } else {
      PiecesAppend(dir, name);
      ProperAppend(Pieces(dir, true), name);
    }
  }

  /** Building a path and resolving it are inverse to each other. */
  lemma {:induction false} PathNamesBack(absolute: bool, names: seq<string>)
    requires forall i :: 0 <= i < |names| ==> IsName(names[i])
    ensures Proper(Pieces(PathOf(absolute, names), true)) == names
    ensures PathOf(absolute, names) != "" && PathOf(absolute, names)[0] == '/' <==> absolute
    ensures names != [] ==> PathOf(absolute, names) != "" && PathOf(absolute, names) != "/"
  {
    if names == [] {
      assert Pieces("", true) == [""] && Pieces("/", true) == ["", ""];
      assert Proper([""]) == [] && Proper(["", ""]) == [];
    } else {
      var init, name := names[..|names| - 1], names[|names| - 1];
      PathNamesBack(absolute, init);
      JoinPieces(PathOf(absolute, init), name);
      assert names == init + [name];
    }
  }

  lemma {:induction false} ResolvePath(fs: Fs, absolute: bool, names: seq<string>)
    requires forall i :: 0 <= i < |names| ==> IsName(names[i])
    ensures Resolve(fs, PathOf(absolute, names)) == Walk(if absolute then fs.root else fs.cwd, names)
  {
    PathNamesBack(absolute, names);
  }

  lemma {:induction false} UnsplitLast(ps: seq<string>, p: string)
    requires ps != []
    ensures Unsplit(ps + [p]) == Unsplit(ps) + "/" + p
    decreases |ps|
  {
    hide Unsplit;
    UnsplitStep(ps + [p]);
    UnsplitStep(ps);
    if |ps| == 1 {
      assert (ps + [p])[1..] == [p];
      UnsplitStep([p]);
      assert p + "" == p && ps[0] + "" == ps[0];
    } else {
      assert (ps + [p])[1..] == ps[1..] + [p];
      UnsplitLast(ps[1..], p);
      assert ps[0] + ("/" + (Unsplit(ps[1..]) + "/" + p)) == ps[0] + ("/" + Unsplit(ps[1..])) + "/" + p;
    }
  }

  /** The path built from names is the names with single slashes between them, behind one slash if it is absolute. */
  lemma {:induction false} PathText(absolute: bool, names: seq<string>)
    requires names != [] && forall i :: 0 <= i < |names| ==> IsName(names[i])
    ensures PathOf(absolute, names) == (if absolute then "/" else "") + Unsplit(names)
    decreases |names|
  {
    hide Unsplit, IsName;
    var init, last := names[..|names| - 1], names[|names| - 1];
    if init == [] {
      assert names == [last];
      UnsplitStep(names);
      assert last + "" == last && "" + last == last;
    } else {
      PathText(absolute, init);
      PathNamesBack(absolute, init);
      assert names == init + [last];
      UnsplitLast(init, last);
      var front := if absolute then "/" else "";
      assert front + Unsplit(init) + "/" + last == front + (Unsplit(init) + "/" + last);
    }
  }
}
