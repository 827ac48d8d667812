/** qsort and bsearch over raw bytes. */
module Sorting {
  import opened Memory

  /** The caller's compar, as a function of the bytes of two elements. */
  type Compare = (seq<Byte>, seq<Byte>) -> int

  /** What C asks of compar: opposite signs for swapped arguments, and transitivity. */
  ghost predicate Consistent(cmp: Compare)
  {
    && (forall x, y :: cmp(x, y) < 0 <==> cmp(y, x) > 0)
    && (forall x, y, z :: cmp(x, y) <= 0 && cmp(y, z) <= 0 ==> cmp(x, z) <= 0)
  }

  ghost predicate Sorted(es: seq<seq<Byte>>, cmp: Compare)
  {
    forall i, j :: 0 <= i < j < |es| ==> cmp(es[i], es[j]) <= 0
  }

  /** The byte address of element `i`. */
  function Start(off: nat, i: nat, size: nat): (p: nat)
    ensures p >= off
  {
    if i == 0 then off else Start(off, i - 1, size) + size
  }

  lemma {:induction false} StartIs(off: nat, i: nat, size: nat)
    ensures Start(off, i, size) == off + i * size
  {
    if i > 0 {
      StartIs(off, i - 1, size);
      assert i * size == (i - 1) * size + size;
    }
  }

  lemma {:induction false} StartGrows(off: nat, i: nat, n: nat, size: nat)
    requires i < n
    ensures Start(off, i, size) + size <= Start(off, n, size)
  {
    if i < n - 1 { StartGrows(off, i, n - 1, size); }
  }

  lemma {:induction false} StartSum(off: nat, i: nat, k: nat, size: nat)
    ensures Start(Start(off, i, size), k, size) == Start(off, i + k, size)
    decreases k
  {
    if k > 0 { StartSum(off, i, k - 1, size); }
  }

  /** The `n` elements of `size` bytes from byte `off` on. */
  function Elems(s: seq<Byte>, off: nat, n: nat, size: nat): (es: seq<seq<Byte>>)
    requires Start(off, n, size) <= |s|
    ensures |es| == n
    decreases n
  {
    if n == 0 then [] else Elems(s, off, n - 1, size) + [s[Start(off, n - 1, size)..Start(off, n, size)]]
  }

  lemma {:induction false} ElemAt(s: seq<Byte>, off: nat, n: nat, size: nat, i: nat)
    requires Start(off, n, size) <= |s| && i < n
    ensures Start(off, i, size) + size <= |s|
    ensures Elems(s, off, n, size)[i] == s[Start(off, i, size)..Start(off, i, size) + size]
    decreases n
  {
    if i < n - 1 { ElemAt(s, off, n - 1, size, i); }
  }

  /** The elements depend only on the bytes of the table. */
  lemma {:induction false} ElemsEqual(s: seq<Byte>, t: seq<Byte>, off: nat, n: nat, size: nat)
    requires Start(off, n, size) <= |s| && Start(off, n, size) <= |t|
    requires forall k :: off <= k < Start(off, n, size) ==> s[k] == t[k]
    ensures Elems(s, off, n, size) == Elems(t, off, n, size)
    decreases n
  {
    if n > 0 {
      ElemsEqual(s, t, off, n - 1, size);
      var lo, hi := Start(off, n - 1, size), Start(off, n, size);
      assert s[lo..hi] == t[lo..hi];
    }
  }

  lemma {:induction false} ElemsSplit(s: seq<Byte>, off: nat, n: nat, size: nat, k: nat)
    requires Start(off, n, size) <= |s| && k <= n
    ensures Start(off, k, size) <= Start(off, n, size) == Start(Start(off, k, size), n - k, size)
    ensures Elems(s, off, n, size) == Elems(s, off, k, size) + Elems(s, Start(off, k, size), n - k, size)
    decreases n
  {
    StartSum(off, k, n - k, size);
    if k < n {
      StartSum(off, k, n - k - 1, size);
      ElemsSplit(s, off, n - 1, size, k);
    }
  }

  // ---------- swap ----------

  /** Where the byte now at `k` came from when two blocks of `size` bytes trade places. */
  function Source(k: int, x: int, y: int, size: int): int
  {
    if x <= k < x + size then k - x + y else if y <= k < y + size then k - y + x else k
  }

  ghost predicate Swapped(s: seq<Byte>, t: seq<Byte>, x: nat, y: nat, size: nat)
    requires x + size <= |s| && y + size <= |s|
  {
    |t| == |s| && forall k :: 0 <= k < |s| ==> t[k] == s[Source(k, x, y, size)]
  }

  method Swap(a: array<Byte>, x: nat, y: nat, size: nat)
    requires x + size <= a.Length && y + size <= a.Length && (x == y || x + size <= y || y + size <= x)
    modifies a
    ensures Swapped(old(a[..]), a[..], x, y, size)
  {
    for i := 0 to size
      invariant forall k :: 0 <= k < a.Length ==> a[k] == old(a[..])[Source(k, x, y, i)]
    {
      var tmp := a[x + i];
      a[x + i] := a[y + i];
      a[y + i] := tmp;
    }
  }

  lemma SwappedBlock(s: seq<Byte>, t: seq<Byte>, x: nat, y: nat, size: nat, lo: nat)
    requires x + size <= |s| && y + size <= |s| && lo + size <= |s| && Swapped(s, t, x, y, size)
    requires x == y || x + size <= y || y + size <= x
    requires lo == x || lo == y || ((lo + size <= x || x + size <= lo) && (lo + size <= y || y + size <= lo))
    ensures
      var from := if lo == x then y else if lo == y then x else lo;
      t[lo..lo + size] == s[from..from + size]
  {
    var from := if lo == x then y else if lo == y then x else lo;
    var u, w := t[lo..lo + size], s[from..from + size];
    forall b | 0 <= b < size ensures u[b] == w[b] {
      assert t[lo + b] == s[Source(lo + b, x, y, size)];
    }
  }

  lemma {:induction false} SwappedElem(s: seq<Byte>, t: seq<Byte>, off: nat, n: nat, size: nat, i: nat, j: nat, k: nat)
    requires Start(off, n, size) <= |s| && i < n && j < n && k < n
    requires Start(off, i, size) + size <= |s| && Start(off, j, size) + size <= |s|
    requires Swapped(s, t, Start(off, i, size), Start(off, j, size), size)
    ensures Elems(t, off, n, size)[k] == Elems(s, off, n, size)[if k == i then j else if k == j then i else k]
  {
    hide Elems, Swapped;
    var from := if k == i then j else if k == j then i else k;
    SwappedLength(s, t, Start(off, i, size), Start(off, j, size), size);
    ElemAt(t, off, n, size, k);
    ElemAt(s, off, n, size, from);
    Apart(off, k, i, size);
    Apart(off, k, j, size);
    Apart(off, i, j, size);
    SwappedBlock(s, t, Start(off, i, size), Start(off, j, size), size, Start(off, k, size));
  }

  lemma SwappedLength(s: seq<Byte>, t: seq<Byte>, x: nat, y: nat, size: nat)
    requires x + size <= |s| && y + size <= |s| && Swapped(s, t, x, y, size)
    ensures |t| == |s|
  {
  }

  /** Swapping two elements' bytes swaps the elements and leaves the others and the outside alone. */
  lemma {:induction false} SwapElems(s: seq<Byte>, t: seq<Byte>, off: nat, n: nat, size: nat, i: nat, j: nat)
    requires Start(off, n, size) <= |s| && i < n && j < n
    requires Start(off, i, size) + size <= |s| && Start(off, j, size) + size <= |s|
    requires Swapped(s, t, Start(off, i, size), Start(off, j, size), size)
    ensures SameOutside(s, t, off, Start(off, n, size))
    ensures Elems(t, off, n, size) == Exchanged(Elems(s, off, n, size), i, j)
  {
    hide Elems;
    StartGrows(off, i, n, size);
    StartGrows(off, j, n, size);
    var es, fs := Elems(s, off, n, size), Elems(t, off, n, size);
    forall k | 0 <= k < n ensures fs[k] == Exchanged(es, i, j)[k] {
      SwappedElem(s, t, off, n, size, i, j, k);
    }
  }

  function Exchanged<T>(es: seq<T>, i: nat, j: nat): seq<T>
    requires i < |es| && j < |es|
  {
    es[i := es[j]][j := es[i]]
  }

  lemma Apart(off: nat, i: nat, j: nat, size: nat)
    ensures i < j ==> Start(off, i, size) + size <= Start(off, j, size)
    ensures j < i ==> Start(off, j, size) + size <= Start(off, i, size)
  {
    if i < j { StartGrows(off, i, j, size); }
    if j < i { StartGrows(off, j, i, size); }
  }

  lemma {:induction false} ExchangeKeepsAll<T>(es: seq<T>, i: nat, j: nat)
    requires i < |es| && j < |es|
    ensures multiset(Exchanged(es, i, j)) == multiset(es)
  {
    var fs := es[i := es[j]];
    assert multiset(fs) == multiset(es) - multiset{es[i]} + multiset{es[j]};
  }

  // ---------- qsort ----------

  /** The elements before `i` are not above the pivot, those in `i..j` are. */
  ghost predicate Parted(es: seq<seq<Byte>>, i: int, j: int, pivot: seq<Byte>, cmp: Compare)
    requires 0 <= i <= j <= |es|
  {
    && (forall k :: 0 <= k < i ==> cmp(es[k], pivot) <= 0)
    && (forall k :: i <= k < j ==> cmp(es[k], pivot) > 0)
  }

  /** Everything before `i` is not above element `i`, everything behind it is. */
  ghost predicate Pivoted(es: seq<seq<Byte>>, i: int, cmp: Compare)
    requires 0 <= i < |es|
  {
    && (forall k :: 0 <= k < i ==> cmp(es[k], es[i]) <= 0)
    && (forall k :: i < k < |es| ==> cmp(es[k], es[i]) > 0)
  }

  lemma PartedStep(es: seq<seq<Byte>>, i: nat, j: nat, cmp: Compare)
    requires i <= j < |es| - 1 && Parted(es, i, j, es[|es| - 1], cmp)
    ensures cmp(es[j], es[|es| - 1]) > 0 ==> Parted(es, i, j + 1, es[|es| - 1], cmp)
    ensures cmp(es[j], es[|es| - 1]) <= 0 ==>
              var fs := Exchanged(es, i, j);
              fs[|es| - 1] == es[|es| - 1] && Parted(fs, i + 1, j + 1, es[|es| - 1], cmp)
  {
  }

  lemma PartedEnd(es: seq<seq<Byte>>, i: nat, cmp: Compare)
    requires i <= |es| - 1 && Parted(es, i, |es| - 1, es[|es| - 1], cmp)
    ensures Pivoted(Exchanged(es, i, |es| - 1), i, cmp)
  {
    var n, fs := |es|, Exchanged(es, i, |es| - 1);
    assert fs[i] == es[n - 1];
    forall k | i < k < n ensures cmp(fs[k], fs[i]) > 0 {
      assert fs[k] == es[if k == n - 1 then i else k];
    }
  }

  /** Lomuto partition around the last element. */
  method Partition(a: array<Byte>, off: nat, n: nat, size: nat, cmp: Compare) returns (i: nat)
    requires Start(off, n, size) <= a.Length && n >= 1
    modifies a
    ensures i < n && SameOutside(old(a[..]), a[..], off, Start(off, n, size))
    ensures multiset(Elems(a[..], off, n, size)) == multiset(old(Elems(a[..], off, n, size)))
    ensures Pivoted(Elems(a[..], off, n, size), i, cmp)
  {
    hide Elems, Parted, Pivoted, Exchanged, SameOutside;
    i := 0;
    StartGrows(off, n - 1, n, size);
    ghost var s0 := a[..];
    ghost var pivot := Elems(s0, off, n, size)[n - 1];
    NothingChanged(s0, off, Start(off, n, size));
    PartedBegin(Elems(s0, off, n, size), pivot, cmp);
    for j := 0 to n - 1
      invariant 0 <= i <= j
      invariant SameOutside(s0, a[..], off, Start(off, n, size))
      invariant multiset(Elems(a[..], off, n, size)) == multiset(Elems(s0, off, n, size))
      invariant Elems(a[..], off, n, size)[n - 1] == pivot && Parted(Elems(a[..], off, n, size), i, j, pivot, cmp)
    {
      ghost var s := a[..];
      i := Sift(a, off, n, size, cmp, i, j);
      ChangedTwice(s0, s, a[..], off, Start(off, n, size));
    }
    PartedEnd(Elems(a[..], off, n, size), i, cmp);
    ghost var s := a[..];
    Exchange(a, off, n, size, i, n - 1);
    ChangedTwice(s0, s, a[..], off, Start(off, n, size));
  }

  /** One round of the partition loop. */
  method Sift(a: array<Byte>, off: nat, n: nat, size: nat, cmp: Compare, i: nat, j: nat) returns (i': nat)
    requires Start(off, n, size) <= a.Length && i <= j < n - 1
    requires
      var es := Elems(a[..], off, n, size);
      Parted(es, i, j, es[n - 1], cmp)
    modifies a
    ensures i' <= j + 1 && SameOutside(old(a[..]), a[..], off, Start(off, n, size))
    ensures
      var es, es' := old(Elems(a[..], off, n, size)), Elems(a[..], off, n, size);
      multiset(es') == multiset(es) && es'[n - 1] == es[n - 1] && Parted(es', i', j + 1, es[n - 1], cmp)
  {
    hide Elems, Parted, SameOutside, Exchanged;
    NothingChanged(a[..], off, Start(off, n, size));
    StartGrows(off, j, n, size);
    StartGrows(off, n - 1, n, size);
    ElemAt(a[..], off, n, size, j);
    ElemAt(a[..], off, n, size, n - 1);
    PartedStep(Elems(a[..], off, n, size), i, j, cmp);
    var x, p := Start(off, j, size), Start(off, n - 1, size);
    i' := i;
    if cmp(a[x..x + size], a[p..p + size]) <= 0 {
      Exchange(a, off, n, size, i, j);
      i' := i + 1;
    }
  }

  lemma NothingChanged(s: seq<Byte>, lo: int, hi: int)
    ensures SameOutside(s, s, lo, hi)
  {
  }

  lemma ChangedTwice(s: seq<Byte>, t: seq<Byte>, u: seq<Byte>, lo: int, hi: int)
    requires SameOutside(s, t, lo, hi) && SameOutside(t, u, lo, hi)
    ensures SameOutside(s, u, lo, hi)
  {
  }

  lemma PartedBegin(es: seq<seq<Byte>>, pivot: seq<Byte>, cmp: Compare)
    ensures Parted(es, 0, 0, pivot, cmp)
  {
  }

  /** swap, on two elements of the table. */
  method Exchange(a: array<Byte>, off: nat, n: nat, size: nat, i: nat, j: nat)
    requires Start(off, n, size) <= a.Length && i < n && j < n
    modifies a
    ensures SameOutside(old(a[..]), a[..], off, Start(off, n, size))
    ensures Elems(a[..], off, n, size) == Exchanged(old(Elems(a[..], off, n, size)), i, j)
    ensures multiset(Elems(a[..], off, n, size)) == multiset(old(Elems(a[..], off, n, size)))
  {
    hide Elems, Swapped;
    StartGrows(off, i, n, size);
    StartGrows(off, j, n, size);
    Apart(off, i, j, size);
    ghost var s := a[..];
    Swap(a, Start(off, i, size), Start(off, j, size), size);
    SwapElems(s, a[..], off, n, size, i, j);
    ExchangeKeepsAll(Elems(s, off, n, size), i, j);
  }

  lemma {:induction false} SortedAround(l: seq<seq<Byte>>, p: seq<Byte>, r: seq<seq<Byte>>, cmp: Compare)
    requires Consistent(cmp) && Sorted(l, cmp) && Sorted(r, cmp)
    requires forall k :: 0 <= k < |l| ==> cmp(l[k], p) <= 0
    requires forall k :: 0 <= k < |r| ==> cmp(r[k], p) > 0
    ensures Sorted(l + [p] + r, cmp)
  {
    var es := l + [p] + r;
    forall i, j | 0 <= i < j < |es| ensures cmp(es[i], es[j]) <= 0 {
      if i <= |l| < j {
        assert es[j] == r[j - |l| - 1] && cmp(p, es[j]) < 0;
        if i < |l| { assert es[i] == l[i]; }
      } else if j == |l| {
        assert es[i] == l[i];
      } else if i > |l| {
        assert es[i] == r[i - |l| - 1] && es[j] == r[j - |l| - 1];
      }
    }
  }

  /** A bound on all elements survives permutation. */
  lemma {:induction false} BoundsPermute(es: seq<seq<Byte>>, fs: seq<seq<Byte>>, p: seq<Byte>, cmp: Compare)
    requires multiset(es) == multiset(fs)
    ensures (forall k :: 0 <= k < |es| ==> cmp(es[k], p) <= 0) ==> forall k :: 0 <= k < |fs| ==> cmp(fs[k], p) <= 0
    ensures (forall k :: 0 <= k < |es| ==> cmp(es[k], p) > 0) ==> forall k :: 0 <= k < |fs| ==> cmp(fs[k], p) > 0
  {
    forall k | 0 <= k < |fs| ensures exists j :: 0 <= j < |es| && es[j] == fs[k] {
      assert fs[k] in multiset(fs);
      assert fs[k] in es;
    }
  }

  method Qsort(a: array<Byte>, off: nat, n: nat, size: nat, cmp: Compare)
    requires Start(off, n, size) <= a.Length
    modifies a
    ensures SameOutside(old(a[..]), a[..], off, Start(off, n, size))
    ensures multiset(Elems(a[..], off, n, size)) == multiset(old(Elems(a[..], off, n, size)))
    ensures Consistent(cmp) ==> Sorted(Elems(a[..], off, n, size), cmp)
    decreases n, 0
  {
    hide Elems, Pivoted, SameOutside, Sorted, Consistent;
    ghost var s0 := a[..];
    NothingChanged(s0, off, Start(off, n, size));
    ShortIsSorted(a[..], off, n, size, cmp);
    if n < 2 || size == 0 { return; }
    var i := Partition(a, off, n, size, cmp);
    ghost var s1 := a[..];
    ThreeParts(s1, off, n, size, i);
    SortPart(a, off, i, size, cmp);
    ghost var s2 := a[..];
    var m := Start(off, i + 1, size);
    SortPart(a, m, n - i - 1, size, cmp);
    Assemble(s1, s2, a[..], off, n, size, i, cmp);
    ChangedTwice(s0, s1, a[..], off, Start(off, n, size));
  }

  /** The recursive calls, made only for two elements or more. */
  method SortPart(a: array<Byte>, off: nat, n: nat, size: nat, cmp: Compare)
    requires Start(off, n, size) <= a.Length
    modifies a
    ensures SameOutside(old(a[..]), a[..], off, Start(off, n, size))
    ensures multiset(Elems(a[..], off, n, size)) == multiset(old(Elems(a[..], off, n, size)))
    ensures Consistent(cmp) ==> Sorted(Elems(a[..], off, n, size), cmp)
    decreases n, 1
  {
    hide Elems, SameOutside, Sorted, Consistent;
    NothingChanged(a[..], off, Start(off, n, size));
    ShortIsSorted(a[..], off, n, size, cmp);
    if n > 1 { Qsort(a, off, n, size, cmp); }
  }

  /** Element `i` with the elements before and behind it. */
  lemma {:induction false} ThreeParts(s: seq<Byte>, off: nat, n: nat, size: nat, i: nat)
    requires Start(off, n, size) <= |s| && i < n
    ensures Start(off, i, size) <= Start(off, i + 1, size) <= Start(off, n, size)
    ensures Start(Start(off, i + 1, size), n - i - 1, size) == Start(off, n, size)
    ensures
      var es := Elems(s, off, n, size);
      var l, r := Elems(s, off, i, size), Elems(s, Start(off, i + 1, size), n - i - 1, size);
      es == l + [es[i]] + r && es[i] == s[Start(off, i, size)..Start(off, i + 1, size)]
  {
    ElemsSplit(s, off, n, size, i + 1);
    var first, r := Elems(s, off, i + 1, size), Elems(s, Start(off, i + 1, size), n - i - 1, size);
    assert first == Elems(s, off, i, size) + [s[Start(off, i, size)..Start(off, i + 1, size)]];
    assert Elems(s, off, n, size)[i] == first[i];
  }

  /** Sorting the parts before and behind the pivot sorts the whole. */
  lemma {:induction false} Assemble(s1: seq<Byte>, s2: seq<Byte>, s3: seq<Byte>, off: nat, n: nat, size: nat, i: nat,
                                    cmp: Compare)
    requires Start(off, n, size) <= |s1| == |s2| == |s3| && i < n
    requires Start(off, i, size) <= |s1| && Start(Start(off, i + 1, size), n - i - 1, size) <= |s1|
    requires Pivoted(Elems(s1, off, n, size), i, cmp)
    requires SameOutside(s1, s2, off, Start(off, i, size)) &&
             SameOutside(s2, s3, Start(off, i + 1, size), Start(off, n, size))
    requires multiset(Elems(s2, off, i, size)) == multiset(Elems(s1, off, i, size))
    requires multiset(Elems(s3, Start(off, i + 1, size), n - i - 1, size)) ==
             multiset(Elems(s2, Start(off, i + 1, size), n - i - 1, size))
    requires Consistent(cmp) ==>
               Sorted(Elems(s2, off, i, size), cmp) &&
               Sorted(Elems(s3, Start(off, i + 1, size), n - i - 1, size), cmp)
    ensures SameOutside(s1, s3, off, Start(off, n, size))
    ensures multiset(Elems(s3, off, n, size)) == multiset(Elems(s1, off, n, size))
    ensures Consistent(cmp) ==> Sorted(Elems(s3, off, n, size), cmp)
  {
    hide Elems, Pivoted, Consistent, Sorted;
    var es, fs := Elems(s1, off, n, size), Elems(s3, off, n, size);
    ThreeParts(s1, off, n, size, i);
    ThreeParts(s3, off, n, size, i);
    var m, k := Start(off, i + 1, size), n - i - 1;
    NestedChanges(s1, s2, s3, off, Start(off, i, size), m, Start(off, n, size));
    ElemsEqual(s3, s2, off, i, size);
    ElemsEqual(s1, s2, m, k, size);
    PartsCombine(es, fs, Elems(s1, off, i, size), es[i], Elems(s1, m, k, size), Elems(s3, off, i, size),
                 Elems(s3, m, k, size), cmp);
  }

  /** Changes first in `lo..x`, then in `y..hi`. */
  lemma NestedChanges(s1: seq<Byte>, s2: seq<Byte>, s3: seq<Byte>, lo: nat, x: nat, y: nat, hi: nat)
    requires lo <= x <= y <= hi <= |s1| && SameOutside(s1, s2, lo, x) && SameOutside(s2, s3, y, hi)
    ensures SameOutside(s1, s3, lo, hi)
    ensures (forall k :: lo <= k < x ==> s3[k] == s2[k]) && (forall k :: y <= k < hi ==> s1[k] == s2[k]) &&
            s3[x..y] == s1[x..y]
  {
  }

  lemma {:induction false} PartsCombine(es: seq<seq<Byte>>, fs: seq<seq<Byte>>, l: seq<seq<Byte>>, p: seq<Byte>,
                                        r: seq<seq<Byte>>,
                                        l': seq<seq<Byte>>, r': seq<seq<Byte>>, cmp: Compare)
    requires es == l + [p] + r && fs == l' + [p] + r' && Pivoted(es, |l|, cmp)
    requires multiset(l') == multiset(l) && multiset(r') == multiset(r)
    requires Consistent(cmp) ==> Sorted(l', cmp) && Sorted(r', cmp)
    ensures multiset(fs) == multiset(es) && (Consistent(cmp) ==> Sorted(fs, cmp))
  {
    hide Sorted, Consistent;
    assert forall x :: 0 <= x < |r| ==> r[x] == es[|l| + 1 + x];
    assert forall x :: 0 <= x < |l| ==> l[x] == es[x];
    BoundsPermute(l, l', p, cmp);
    BoundsPermute(r, r', p, cmp);
    if Consistent(cmp) { SortedAround(l', p, r', cmp); }
  }

  lemma ShortIsSorted(s: seq<Byte>, off: nat, n: nat, size: nat, cmp: Compare)
    requires Start(off, n, size) <= |s|
    ensures (n < 2 || size == 0) && Consistent(cmp) ==> Sorted(Elems(s, off, n, size), cmp)
  {
    var es := Elems(s, off, n, size);
    if size == 0 {
      forall i, j | 0 <= i < j < |es| ensures es[i] == es[j] {
        ElemAt(s, off, n, size, i);
        ElemAt(s, off, n, size, j);
      }
    }
  }

  // ---------- bsearch ----------

  datatype Found = Null | Element(index: nat)

  /** In sorted elements, everything on the far side of a mismatch mismatches too. */
  lemma {:induction false} FarSide(es: seq<seq<Byte>>, key: seq<Byte>, cmp: Compare, m: nat)
    requires Consistent(cmp) && Sorted(es, cmp) && m < |es|
    ensures cmp(key, es[m]) < 0 ==> forall k :: m <= k < |es| ==> cmp(key, es[k]) != 0
    ensures cmp(key, es[m]) > 0 ==> forall k :: 0 <= k <= m ==> cmp(key, es[k]) != 0
  {
    if cmp(key, es[m]) < 0 {
      assert cmp(es[m], key) > 0;
      forall k | m <= k < |es| ensures cmp(key, es[k]) != 0 {}
    }
  }

  method Bsearch(key: seq<Byte>, a: array<Byte>, off: nat, n: nat, size: nat, cmp: Compare) returns (r: Found)
    requires Start(off, n, size) <= a.Length
    ensures r.Element? ==> r.index < n && cmp(key, Elems(a[..], off, n, size)[r.index]) == 0
    ensures Consistent(cmp) && Sorted(Elems(a[..], off, n, size), cmp) ==>
              (r.Null? <==> forall k :: 0 <= k < n ==> cmp(key, Elems(a[..], off, n, size)[k]) != 0)
  {
    hide Elems, Consistent, Sorted;
    ghost var es := Elems(a[..], off, n, size);
    var l, h := 0, n;
    while l < h
      invariant 0 <= l <= h <= n
      invariant Consistent(cmp) && Sorted(es, cmp) ==> forall k :: 0 <= k < n && !(l <= k < h) ==> cmp(key, es[k]) != 0
    {
      var m := l + (h - l) / 2;
      ElemAt(a[..], off, n, size, m);
      var c := cmp(key, a[Start(off, m, size)..Start(off, m, size) + size]);
      if c == 0 { return Element(m); }
      if Consistent(cmp) && Sorted(es, cmp) { FarSide(es, key, cmp, m); }
      if c < 0 { h := m; } else { l := m + 1; }
    }
    r := Null;
  }
}
