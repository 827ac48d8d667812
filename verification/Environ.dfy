/** The environment: a NULL-terminated array of "NAME=value" strings that refines a finite map. */
module Environ {

  datatype Pointer = Null | Str(s: string)

  // ---------- entries ----------

  /** The test both getenv and setenv use: strncmp on the name, then '='. */
  predicate IsEntryOf(e: string, name: string)
  {
    |e| > |name| && e[..|name|] == name && e[|name|] == '='
  }

  /** Position of the first '=', or the length. */
  function EqualsAt(s: string): (i: nat)
    ensures i <= |s| && (i < |s| ==> s[i] == '=') && '=' !in s[..i]
  {
    if s == "" || s[0] == '=' then 0
    else
      var i := EqualsAt(s[1..]);
      assert s[..1 + i] == [s[0]] + s[1..][..i];
      1 + i
  }

  predicate HasName(e: string) { EqualsAt(e) < |e| }

  function NameOf(e: string): string { e[..EqualsAt(e)] }

  function ValueOf(e: string): string
    requires HasName(e)
  {
    e[EqualsAt(e) + 1..]
  }

  function Entry(name: string, value: string): string { name + "=" + value }

  lemma EntryParts(name: string, value: string)
    requires '=' !in name
    ensures HasName(Entry(name, value)) && NameOf(Entry(name, value)) == name && ValueOf(Entry(name, value)) == value
  {
    var e := Entry(name, value);
    assert e[|name|] == '=' && e[..|name|] == name;
  }

  lemma EntryOfName(e: string, name: string)
    requires '=' !in name
    ensures IsEntryOf(e, name) <==> HasName(e) && NameOf(e) == name
    ensures IsEntryOf(e, name) ==> ValueOf(e) == e[|name| + 1..]
  {
    if IsEntryOf(e, name) {
      assert e == Entry(name, e[|name| + 1..]);
      EntryParts(name, e[|name| + 1..]);
    }
  }

  // ---------- lists of entries ----------

  /** No name is defined twice. */
  ghost predicate NamesDistinct(es: seq<string>)
  {
    forall i, j :: 0 <= i < j < |es| && HasName(es[i]) && HasName(es[j]) ==> NameOf(es[i]) != NameOf(es[j])
  }

  /** The environment as a map. */
  ghost function ToMap(es: seq<string>): map<string, string>
  {
    if es == [] then map[]
    else if HasName(es[0]) then ToMap(es[1..])[NameOf(es[0]) := ValueOf(es[0])]
    else ToMap(es[1..])
  }

  function Find(es: seq<string>, name: string): (i: nat)
    ensures i <= |es| && (i < |es| ==> IsEntryOf(es[i], name))
    ensures forall j :: 0 <= j < i ==> !IsEntryOf(es[j], name)
  {
    if es == [] || IsEntryOf(es[0], name) then 0
    else
      var i := Find(es[1..], name);
      assert forall j :: 0 < j < 1 + i ==> es[j] == es[1..][j - 1];
      1 + i
  }

  /** Overwritten where the name stands, appended where it does not. */
  function Updated(es: seq<string>, name: string, value: string): seq<string>
  {
    var i := Find(es, name);
    if i < |es| then es[i := Entry(name, value)] else es + [Entry(name, value)]
  }

  function Removed(es: seq<string>, name: string): seq<string>
  {
    var i := Find(es, name);
    if i < |es| then es[..i] + es[i + 1..] else es
  }

  lemma {:induction false} Lookup(es: seq<string>, name: string)
    requires '=' !in name
    ensures name in ToMap(es) <==> Find(es, name) < |es|
    ensures Find(es, name) < |es| ==> ToMap(es)[name] == es[Find(es, name)][|name| + 1..]
  {
    if es != [] {
      EntryOfName(es[0], name);
      Lookup(es[1..], name);
    }
  }

  lemma {:induction false} MapOfConcat(a: seq<string>, b: seq<string>)
    ensures ToMap(a + b) == ToMap(b) + ToMap(a)
  {
    if a == [] {
      assert a + b == b;
    } else {
      assert (a + b)[1..] == a[1..] + b;
      MapOfConcat(a[1..], b);
    }
  }

  lemma {:induction false} NotInMap(es: seq<string>, name: string)
    requires '=' !in name && forall i :: 0 <= i < |es| ==> !IsEntryOf(es[i], name)
    ensures name !in ToMap(es)
  {
    Lookup(es, name);
  }

  /** Around the entry for `name` in a list without duplicates, nothing else defines it. */
  lemma {:induction false} OnlyOnce(es: seq<string>, name: string)
    requires '=' !in name && NamesDistinct(es) && Find(es, name) < |es|
    ensures
      var i := Find(es, name);
      name !in ToMap(es[..i]) && name !in ToMap(es[i + 1..])
  {
    var i := Find(es, name);
    EntryOfName(es[i], name);
    forall j | 0 <= j < |es| && j != i ensures !IsEntryOf(es[j], name) { EntryOfName(es[j], name); }
    NotInMap(es[..i], name);
    NotInMap(es[i + 1..], name);
  }

  lemma {:induction false} MapOfOne(e: string)
    ensures ToMap([e]) == if HasName(e) then map[NameOf(e) := ValueOf(e)] else map[]
  {
    assert [e][1..] == [];
  }

  /** The map around one entry that nothing else in the list overrides. */
  lemma {:induction false} MapAround(a: seq<string>, e: string, b: seq<string>, name: string)
    requires name !in ToMap(a) && name !in ToMap(b) && HasName(e) && NameOf(e) == name
    ensures ToMap(a + [e] + b) == (ToMap(b) + ToMap(a))[name := ValueOf(e)]
    ensures ToMap(a + b) == ToMap(b) + ToMap(a) == ToMap(a + [e] + b) - {name}
  {
    hide HasName, NameOf, ValueOf, ToMap;
    MapOfConcat(a, [e]);
    MapOfConcat(a + [e], b);
    MapOfConcat(a, b);
    MapOfOne(e);
  }

  /** setenv is map update. */
  lemma {:induction false} UpdateRefines(es: seq<string>, name: string, value: string)
    requires '=' !in name && NamesDistinct(es)
    ensures NamesDistinct(Updated(es, name, value))
    ensures ToMap(Updated(es, name, value)) == ToMap(es)[name := value]
  {
    hide HasName, NameOf, ValueOf, Entry, IsEntryOf, ToMap, NamesDistinct, Find;
    var i, e := Find(es, name), Entry(name, value);
    EntryParts(name, value);
    UpdateKeepsDistinct(es, name, value);
    if i < |es| {
      OnlyOnce(es, name);
      EntryOfName(es[i], name);
      MapAround(es[..i], es[i], es[i + 1..], name);
      MapAround(es[..i], e, es[i + 1..], name);
      assert es == es[..i] + [es[i]] + es[i + 1..] && es[i := e] == es[..i] + [e] + es[i + 1..];
    } else {
      Lookup(es, name);
      MapOfConcat(es, [e]);
      MapOfOne(e);
    }
  }

  lemma {:induction false} UpdateKeepsDistinct(es: seq<string>, name: string, value: string)
    requires '=' !in name && NamesDistinct(es)
    ensures NamesDistinct(Updated(es, name, value))
  {
    hide HasName, NameOf, ValueOf, Entry, IsEntryOf;
    EntryParts(name, value);
    forall j | 0 <= j < |es| ensures IsEntryOf(es[j], name) <==> HasName(es[j]) && NameOf(es[j]) == name {
      EntryOfName(es[j], name);
    }
  }

  /** unsetenv is map removal. */
  lemma {:induction false} RemoveRefines(es: seq<string>, name: string)
    requires '=' !in name && NamesDistinct(es)
    ensures NamesDistinct(Removed(es, name))
    ensures ToMap(Removed(es, name)) == ToMap(es) - {name}
  {
    hide HasName, NameOf, ValueOf, Entry, IsEntryOf, ToMap, NamesDistinct, Find;
    var i := Find(es, name);
    Lookup(es, name);
    RemoveKeepsDistinct(es, name);
    if i < |es| {
      OnlyOnce(es, name);
      EntryOfName(es[i], name);
      MapAround(es[..i], es[i], es[i + 1..], name);
      assert es == es[..i] + [es[i]] + es[i + 1..];
    }
  }

  lemma RemoveKeepsDistinct(es: seq<string>, name: string)
    requires NamesDistinct(es)
    ensures NamesDistinct(Removed(es, name))
  {
    hide HasName, NameOf, IsEntryOf;
  }

  // ---------- the array ----------

  /** The strings in front of the first NULL. */
  function Strings(a: seq<Pointer>): (es: seq<string>)
    ensures |es| <= |a| && forall i :: 0 <= i < |es| ==> a[i] == Str(es[i])
    ensures |es| < |a| ==> a[|es|] == Null
  {
    if a == [] || a[0].Null? then [] else [a[0].s] + Strings(a[1..])
  }

  lemma {:induction false} StringsAre(a: seq<Pointer>, es: seq<string>)
    requires |es| < |a| && a[|es|] == Null && forall i :: 0 <= i < |es| ==> a[i] == Str(es[i])
    ensures Strings(a) == es
  {
    if es != [] { StringsAre(a[1..], es[1..]); }
  }

  datatype Result = NullResult | Value(v: string)

  predicate GoodName(name: Pointer) { name.Str? && name.s != "" && '=' !in name.s }

  /** Nothing to do, or memory for the entry and, if the name is new, for a longer table. */
  predicate CanSet(present: bool, overwrite: bool, entryMemory: bool, tableMemory: bool)
  {
    (present && !overwrite) || (entryMemory && (present || tableMemory))
  }

  class Environment {
    var environ: array?<Pointer>

    /** NULL, or terminated. */
    ghost predicate Valid()
      reads this, environ
    {
      environ != null ==> |Strings(environ[..])| < environ.Length
    }

    ghost function Entries(): seq<string>
      reads this, environ
    {
      if environ == null then [] else Strings(environ[..])
    }

    constructor (table: array?<Pointer>)
      ensures environ == table
    {
      environ := table;
    }

    /** The loop that compares every entry with the name. */
    method Search(name: string) returns (i: nat)
      requires Valid() && environ != null
      ensures i == Find(Entries(), name) && i < environ.Length
      ensures environ[i] != Null <==> i < |Entries()|
    {
      hide IsEntryOf, Find;
      ghost var es := Entries();
      i := 0;
      assert es[0..] == es;
      while environ[i] != Null
        invariant 0 <= i <= |es| && Find(es, name) == i + Find(es[i..], name)
        decreases |es| - i
      {
        FindStep(es, i, name);
        if IsEntryOf(environ[i].s, name) { return; }
        i := i + 1;
      }
      FindNone(name);
    }

    method Getenv(name: Pointer) returns (r: Result)
      requires Valid()
      ensures !name.Str? || name.s == "" ==> r == NullResult
      ensures name.Str? && name.s != "" ==>
                var i := Find(Entries(), name.s);
                r == if i < |Entries()| then Value(Entries()[i][|name.s| + 1..]) else NullResult
      ensures GoodName(name) ==> r == if name.s in ToMap(Entries()) then Value(ToMap(Entries())[name.s]) else NullResult
    {
      hide Find, ToMap;
      if GoodName(name) { Lookup(Entries(), name.s); }
      if environ == null || name.Null? || name.s == "" {
        if GoodName(name) && environ == null { NothingDefined(name.s); }
        if name.Str? { FindNone(name.s); }
        return NullResult;
      }
      var i := Search(name.s);
      if environ[i] == Null { return NullResult; }
      r := Value(environ[i].s[|name.s| + 1..]);
    }

    /** `entryMemory` and `tableMemory` say whether malloc serves the entry and the table. */
    method Setenv(name: Pointer, value: Pointer, overwrite: bool, entryMemory: bool, tableMemory: bool) returns (r: int)
      requires Valid()
      modifies this, environ
      ensures Valid() && (r == 0 || r == -1) && (environ == old(environ) || fresh(environ))
      ensures r == 0 <==> GoodName(name) && CanSet(name.s in ToMap(old(Entries())), overwrite, entryMemory, tableMemory)
      ensures GoodName(name) && entryMemory && tableMemory ==> r == 0
      ensures GoodName(name) && !entryMemory && overwrite ==> r == -1
      ensures r == -1 ==> Entries() == old(Entries())
      ensures r == 0 ==>
                Entries() == if name.s in ToMap(old(Entries())) && !overwrite then old(Entries())
                             else Updated(old(Entries()), name.s, if value.Str? then value.s else "")
    {
      hide Find, ToMap, IsEntryOf, Strings;
      if !GoodName(name) { return -1; }
      ghost var es := Entries();
      Lookup(es, name.s);
      var present := Getenv(name);
      if present.Value? && !overwrite { return 0; }
      if !entryMemory { return -1; }
      var entry := Entry(name.s, if value.Str? then value.s else "");
      if environ == null {
        if !tableMemory { return -1; }
        environ := new Pointer[2];
        environ[0], environ[1] := Str(entry), Null;
        FindNone(name.s);
        StringsAre(environ[..], [entry]);
        return 0;
      }
      var i := Search(name.s);
      if environ[i] != Null {
        environ[i] := Str(entry);
        StringsAre(environ[..], es[i := entry]);
        return 0;
      }
      r := Append(entry, tableMemory);
    }

    /** A table one entry longer, with the old pointers copied over. */
    method Append(entry: string, tableMemory: bool) returns (r: int)
      requires Valid() && environ != null
      modifies this
      ensures Valid() && (environ == old(environ) || fresh(environ))
      ensures r == if tableMemory then 0 else -1
      ensures Entries() == if tableMemory then old(Entries()) + [entry] else old(Entries())
    {
      hide Strings;
      ghost var es := Entries();
      TableOf(environ[..]);
      var count := 0;
      while environ[count] != Null
        invariant 0 <= count <= |es|
        decreases |es| - count
      {
        count := count + 1;
      }
      if !tableMemory { return -1; }
      var table := new Pointer[count + 2];
      for k := 0 to count
        invariant environ == old(environ) && es == Strings(environ[..])
        invariant forall j :: 0 <= j < k ==> table[j] == Str(es[j])
      {
        table[k] := environ[k];
      }
      table[count], table[count + 1] := Str(entry), Null;
      environ := table;
      StringsAre(environ[..], es + [entry]);
      r := 0;
    }

    method Unsetenv(name: Pointer) returns (r: int)
      requires Valid()
      modifies environ
      ensures Valid() && environ == old(environ)
      ensures r == if environ == null || !GoodName(name) then -1 else 0
      ensures Entries() == if r == 0 then Removed(old(Entries()), name.s) else old(Entries())
    {
      hide Find, IsEntryOf;
      if environ == null || !GoodName(name) { return -1; }
      var i := Search(name.s);
      if environ[i] == Null { return 0; }
      CloseGap(i);
      r := 0;
    }

    /** Everything behind slot `i` moves one slot forward, the NULL included. */
    method CloseGap(i: nat)
      requires Valid() && environ != null && i < |Entries()|
      modifies environ
      ensures Valid() && Entries() == old(Entries()[..i] + Entries()[i + 1..])
    {
      hide Strings;
      ghost var es, a0 := Entries(), environ[..];
      TableOf(a0);
      var j := i;
      while environ[j] != Null
        invariant i <= j <= |es| < environ.Length
        invariant forall k :: 0 <= k < i || j <= k < environ.Length ==> environ[k] == a0[k]
        invariant forall k :: i <= k < j ==> environ[k] == a0[k + 1]
        decreases |es| - j
      {
        environ[j] := environ[j + 1];
        j := j + 1;
      }
      StringsAre(environ[..], es[..i] + es[i + 1..]);
    }

    /** putenv cuts its argument at the '=' for the time of the call and then mends it. */
    method Putenv(str: array?<char>, entryMemory: bool, tableMemory: bool) returns (r: int)
      requires Valid() && (str != null ==> '\0' in str[..])
      modifies this, environ, str
      ensures Valid() && (str != null ==> str[..] == old(str[..]))
      ensures (r == 0 || r == -1) && (environ == old(environ) || fresh(environ))
      ensures r == 0 <==>
                && str != null && HasName(CText(str[..])) && NameOf(CText(str[..])) != ""
                && CanSet(NameOf(CText(str[..])) in ToMap(old(Entries())), true, entryMemory, tableMemory)
      ensures str != null && HasName(CText(str[..])) && NameOf(CText(str[..])) != "" && entryMemory && tableMemory ==>
                r == 0
      ensures r == -1 ==> Entries() == old(Entries())
      ensures r == 0 ==> Entries() == Updated(old(Entries()), NameOf(CText(str[..])), ValueOf(CText(str[..])))
    {
      hide Updated, ToMap, Strings, IsEntryOf, CText, EqualsAt, NameOf, ValueOf;
      if str == null { return -1; }
      var text := CText(str[..]);
      var eq := EqualsAt(text);
      if eq == |text| { return -1; }
      ghost var s0 := str[..];
      CutAt(s0, eq);
      str[eq] := '\0';
      assert str[..] == s0[eq := '\0'];
      r := Setenv(Str(CText(str[..])), Str(CText(str[eq + 1..])), true, entryMemory, tableMemory);
      str[eq] := '=';
      assert str[..] == s0;
    }

    /** putenv(environ[i]): the NUL on the '=' cuts the entry too, so the search for the name passes over it. */
    method PutenvEntry(i: nat, entryMemory: bool, tableMemory: bool) returns (r: int)
      requires Valid() && environ != null && i < |Entries()|
      modifies this, environ
      ensures Valid() && (r == 0 || r == -1)
      ensures
        var e := old(Entries()[i]);
        r == 0 <==>
          && HasName(e) && NameOf(e) != ""
          && CanSet(NameOf(e) in ToMap(old(Entries())[i := NameOf(e)]), true, entryMemory, tableMemory)
      ensures r == -1 ==> Entries() == old(Entries())
      ensures r == 0 ==> Entries() == Put(old(Entries()), Slot(i))
    {
      hide ToMap, Strings, IsEntryOf, EqualsAt, CanSet, Find;
      ghost var es := Entries();
      var e := environ[i].s;
      var eq := EqualsAt(e);
      if eq == |e| { return -1; }
      environ[i] := Str(e[..eq]);
      StringsAre(environ[..], es[i := NameOf(e)]);
      NoNameLeft(e);
      r := Setenv(Str(e[..eq]), Str(e[eq + 1..]), true, entryMemory, tableMemory);
      ghost var after := Entries();
      UpdatedKeepsSlot(es[i := NameOf(e)], NameOf(e), ValueOf(e), i);
      TableOf(environ[..]);
      environ[i] := Str(e);
      StringsAre(environ[..], after[i := e]);
      assert es[i := NameOf(e)][i := e] == es;
    }
  }

  /** What putenv is given: a string of the caller's, or an entry of the table itself. */
  datatype Argument = Own(text: string) | Slot(i: nat)

  predicate Proper(es: seq<string>, a: Argument)
  {
    match a
    case Own(text) => HasName(text) && NameOf(text) != ""
    case Slot(i) => i < |es| && HasName(es[i]) && NameOf(es[i]) != ""
  }

  /** The table behind a putenv that succeeds. */
  function Put(es: seq<string>, a: Argument): seq<string>
    requires Proper(es, a)
  {
    match a
    case Own(text) => Updated(es, NameOf(text), ValueOf(text))
    case Slot(i) =>
      var name, value, cut := NameOf(es[i]), ValueOf(es[i]), es[i := NameOf(es[i])];
      NoNameLeft(es[i]);
      UpdatedKeepsSlot(cut, name, value, i);
      Updated(cut, name, value)[i := es[i]]
  }

  /** An entry cut at its '=' defines nothing. */
  lemma NoNameLeft(e: string)
    ensures !IsEntryOf(NameOf(e), NameOf(e)) && '=' !in NameOf(e)
    ensures HasName(e) ==> e == Entry(NameOf(e), ValueOf(e))
  {
  }

  lemma UpdatedKeepsSlot(es: seq<string>, name: string, value: string, i: nat)
    requires i < |es| && !IsEntryOf(es[i], name)
    ensures i < |Updated(es, name, value)| && Updated(es, name, value)[i] == es[i]
  {
    hide IsEntryOf;
  }

  /** Handing putenv an entry of the table adds that entry once more, and removing the name then leaves it defined. */
  lemma {:induction false} PutSlotDuplicates(es: seq<string>, i: nat)
    requires NamesDistinct(es) && Proper(es, Slot(i))
    ensures Put(es, Slot(i)) == es + [es[i]] && !NamesDistinct(es + [es[i]])
    ensures NameOf(es[i]) in ToMap(Removed(es + [es[i]], NameOf(es[i])))
  {
    hide EqualsAt, ToMap;
    var e, name := es[i], NameOf(es[i]);
    var cut, twice := es[i := name], es + [e];
    NoNameLeft(e);
    forall j | 0 <= j < |cut| ensures !IsEntryOf(cut[j], name) {
      if j != i { EntryOfName(es[j], name); }
    }
    assert Updated(cut, name, ValueOf(e)) == cut + [e];
    assert (cut + [e])[i := e] == twice;
    assert twice[i] == twice[|es|] == e;
    EntryOfName(e, name);
    var rest := Removed(twice, name);
    assert rest[|rest| - 1] == e;
    Lookup(rest, name);
  }

  /** putenv keeps the names distinct if and only if its argument is not an entry of the table. */
  lemma {:induction false} PutKeepsDistinct(es: seq<string>, a: Argument)
    requires NamesDistinct(es) && Proper(es, a)
    ensures NamesDistinct(Put(es, a)) <==> a.Own?
  {
    hide EqualsAt, NamesDistinct, ToMap;
    match a
    case Own(text) =>
      NoNameLeft(text);
      UpdateRefines(es, NameOf(text), ValueOf(text));
    case Slot(i) => PutSlotDuplicates(es, i);
  }

  lemma TableOf(a: seq<Pointer>)
    ensures
      var es := Strings(a);
      |es| <= |a| && (|es| < |a| ==> a[|es|] == Null) && forall i :: 0 <= i < |es| ==> a[i] == Str(es[i])
  {
  }

  lemma FindStep(es: seq<string>, i: nat, name: string)
    requires i < |es|
    ensures Find(es[i..], name) == if IsEntryOf(es[i], name) then 0 else 1 + Find(es[i + 1..], name)
  {
    assert es[i..][1..] == es[i + 1..];
  }

  lemma FindNone(name: string)
    ensures Find([], name) == 0
  {
  }

  lemma NothingDefined(name: string)
    ensures name !in ToMap([])
  {
  }

  /** The C string that starts at the front of a piece of memory. */
  function CText(s: seq<char>): (t: string)
    ensures |t| <= |s| && t == s[..|t|] && '\0' !in t && (|t| < |s| ==> s[|t|] == '\0')
  {
    if s == [] || s[0] == '\0' then "" else
      var t := CText(s[1..]);
      assert [s[0]] + t == s[..1 + |t|];
      [s[0]] + t
  }

  lemma {:induction false} CTextIs(s: seq<char>, n: nat)
    requires n < |s| && s[n] == '\0' && '\0' !in s[..n]
    ensures CText(s) == s[..n]
  {
    var t := CText(s);
    assert |t| >= n;
    assert |t| <= n;
  }

  /** A NUL on the '=' leaves the name in front of it and the value behind it. */
  lemma {:induction false} CutAt(s: seq<char>, eq: nat)
    requires '\0' in s && eq == EqualsAt(CText(s)) < |CText(s)|
    ensures CText(s[eq := '\0']) == NameOf(CText(s)) && CText(s[eq := '\0'][eq + 1..]) == ValueOf(CText(s))
    ensures '=' !in NameOf(CText(s)) && s[eq] == '='
  {
    var t, u := CText(s), s[eq := '\0'];
    assert |t| < |s|;
    assert u[..eq] == t[..eq];
    CTextIs(u, eq);
    var v := u[eq + 1..];
    assert v[..|t| - eq - 1] == t[eq + 1..];
    CTextIs(v, |t| - eq - 1);
  }

  // ---------- whole runs ----------

  /** The calls that change the environment; putenv with a string of the caller's. */
  datatype Call =
    | SetCall(name: string, value: string, overwrite: bool)
    | UnsetCall(name: string)
    | PutCall(text: string)

  ghost function OnList(es: seq<string>, c: Call): seq<string>
  {
    match c
    case SetCall(name, value, overwrite) => if name in ToMap(es) && !overwrite then es else Updated(es, name, value)
    case UnsetCall(name) => Removed(es, name)
    case PutCall(text) => if Proper(es, Own(text)) then Put(es, Own(text)) else es
  }

  ghost function OnMap(m: map<string, string>, c: Call): map<string, string>
  {
    match c
    case SetCall(name, value, overwrite) => if name in m && !overwrite then m else m[name := value]
    case UnsetCall(name) => m - {name}
    case PutCall(text) => if HasName(text) && NameOf(text) != "" then m[NameOf(text) := ValueOf(text)] else m
  }

  ghost predicate GoodCall(c: Call) { c.PutCall? || '=' !in c.name }

  /** A call that succeeds does to the table what the list functions say, and one that fails does nothing. */
  method Perform(env: Environment, c: Call, entryMemory: bool, tableMemory: bool) returns (r: int)
    requires env.Valid() && (c.PutCall? ==> '\0' !in c.text)
    modifies env, env.environ
    ensures env.Valid() && (r == 0 || r == -1) && (env.environ == old(env.environ) || fresh(env.environ))
    ensures env.Entries() == if r == 0 then OnList(old(env.Entries()), c) else old(env.Entries())
  {
    hide ToMap, Updated, Removed, Strings, HasName, NameOf, ValueOf;
    match c {
      case SetCall(name, value, overwrite) =>
        r := env.Setenv(Str(name), Str(value), overwrite, entryMemory, tableMemory);
      case UnsetCall(name) => r := env.Unsetenv(Str(name));
      case PutCall(text) =>
        var str := new char[|text| + 1](i => if 0 <= i < |text| then text[i] else '\0');
        assert str[..|text|] == text && str[..][|text|] == '\0';
        CTextIs(str[..], |text|);
        r := env.Putenv(str, entryMemory, tableMemory);
    }
  }

  ghost function RunList(es: seq<string>, cs: seq<Call>): seq<string>
    decreases |cs|
  {
    if cs == [] then es else RunList(OnList(es, cs[0]), cs[1..])
  }

  ghost function RunMap(m: map<string, string>, cs: seq<Call>): map<string, string>
    decreases |cs|
  {
    if cs == [] then m else RunMap(OnMap(m, cs[0]), cs[1..])
  }

  /** Through any run from distinct names, the entry list stays free of duplicates and equals the map. */
  lemma {:induction false} RunRefinesMap(es: seq<string>, cs: seq<Call>)
    requires NamesDistinct(es) && forall i :: 0 <= i < |cs| ==> GoodCall(cs[i])
    ensures NamesDistinct(RunList(es, cs)) && ToMap(RunList(es, cs)) == RunMap(ToMap(es), cs)
    decreases |cs|
  {
    hide ToMap, NamesDistinct, EqualsAt;
    if cs != [] {
      var c := cs[0];
      match c {
        case SetCall(name, value, _) => UpdateRefines(es, name, value);
        case UnsetCall(name) => RemoveRefines(es, name);
        case PutCall(text) =>
          NoNameLeft(text);
          if HasName(text) { UpdateRefines(es, NameOf(text), ValueOf(text)); }
      }
      RunRefinesMap(OnList(es, c), cs[1..]);
    }
  }

  lemma {:induction false} RunListStep(es: seq<string>, cs: seq<Call>, c: Call)
    ensures RunList(es, cs + [c]) == OnList(RunList(es, cs), c)
    decreases |cs|
  {
    hide OnList;
    if cs == [] {
      assert (cs + [c])[1..] == [];
    } else {
      assert (cs + [c])[1..] == cs[1..] + [c];
      RunListStep(OnList(es, cs[0]), cs[1..], c);
    }
  }

  /** Whether malloc serves the entry and the table a call asks for. */
  datatype Served = Served(entry: bool, table: bool)

  /** The calls that returned 0. */
  function Succeeded(cs: seq<Call>, rs: seq<int>): seq<Call>
    requires |cs| == |rs|
  {
    if cs == [] then []
    else Succeeded(cs[..|cs| - 1], rs[..|rs| - 1]) + if rs[|rs| - 1] == 0 then [cs[|cs| - 1]] else []
  }

  /** The calls `cs`, returning `rs`, turned the entries `es` into `now`. */
  ghost predicate Performed(es: seq<string>, cs: seq<Call>, rs: seq<int>, now: seq<string>)
  {
    |cs| == |rs| && now == RunList(es, Succeeded(cs, rs))
  }

  lemma PerformedStep(es: seq<string>, cs: seq<Call>, rs: seq<int>, now: seq<string>, c: Call, r: int)
    requires Performed(es, cs, rs, now)
    ensures Performed(es, cs + [c], rs + [r], if r == 0 then OnList(now, c) else now)
  {
    hide OnList, RunList;
    assert (cs + [c])[..|cs|] == cs && (rs + [r])[..|rs|] == rs;
    var done := Succeeded(cs, rs);
    RunListStep(es, done, c);
    if r != 0 { assert done + [] == done; }
  }

  lemma {:induction false} SucceededGood(cs: seq<Call>, rs: seq<int>)
    requires |cs| == |rs| && forall i :: 0 <= i < |cs| ==> GoodCall(cs[i])
    ensures forall i :: 0 <= i < |Succeeded(cs, rs)| ==> GoodCall(Succeeded(cs, rs)[i])
  {
    hide GoodCall;
    if cs != [] { SucceededGood(cs[..|cs| - 1], rs[..|rs| - 1]); }
  }

  lemma PerformedNothing(es: seq<string>)
    ensures Performed(es, [], [], es)
  {
  }

  /** Calls in a row, any of which may run out of memory: the environment is the map of those that succeeded. */
  method PerformAll(env: Environment, cs: seq<Call>, ms: seq<Served>) returns (rs: seq<int>)
    requires env.Valid() && NamesDistinct(env.Entries()) && |ms| == |cs|
    requires forall i :: 0 <= i < |cs| ==> GoodCall(cs[i]) && (cs[i].PutCall? ==> '\0' !in cs[i].text)
    modifies env, env.environ
    ensures env.Valid() && NamesDistinct(env.Entries()) && |rs| == |cs|
    ensures env.Entries() == RunList(old(env.Entries()), Succeeded(cs, rs))
    ensures ToMap(env.Entries()) == RunMap(ToMap(old(env.Entries())), Succeeded(cs, rs))
  {
    rs := PerformEach(env, cs, ms);
    SucceededGood(cs, rs);
    RunRefinesMap(old(env.Entries()), Succeeded(cs, rs));
  }

  method PerformEach(env: Environment, cs: seq<Call>, ms: seq<Served>) returns (rs: seq<int>)
    requires env.Valid() && |ms| == |cs| && forall i :: 0 <= i < |cs| ==> cs[i].PutCall? ==> '\0' !in cs[i].text
    modifies env, env.environ
    ensures env.Valid() && Performed(old(env.Entries()), cs, rs, env.Entries())
  {
    hide Performed, OnList, Strings;
    rs := [];
    ghost var es := env.Entries();
    PerformedNothing(es);
    for i := 0 to |cs|
      invariant env.Valid() && (env.environ == old(env.environ) || fresh(env.environ))
      invariant Performed(es, cs[..i], rs, env.Entries())
    {
      ghost var now := env.Entries();
      var r := Perform(env, cs[i], ms[i].entry, ms[i].table);
      PerformedStep(es, cs[..i], rs, now, cs[i], r);
      assert cs[..i] + [cs[i]] == cs[..i + 1];
      rs := rs + [r];
    }
    assert cs[..|cs|] == cs;
  }

  /** An update moves no other entry. */
  lemma {:induction false} OthersKeepTheirPlace(es: seq<string>, name: string, value: string, k: nat)
    requires k < |es| && k != Find(es, name)
    ensures k < |Updated(es, name, value)| && Updated(es, name, value)[k] == es[k]
    ensures
      var rs := Removed(es, name);
      var k' := if k < Find(es, name) then k else k - 1;
      Find(es, name) < |es| ==> k' < |rs| && rs[k'] == es[k]
  {
    hide Find, IsEntryOf, Entry;
  }
}
