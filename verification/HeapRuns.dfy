/** What holds over every run of allocator calls interleaved with client stores. */
module HeapRuns {
  import opened Memory
  import opened HeapLayout
  import opened HeapState
  import opened Allocator

  datatype Call =
    | Malloc(size: Word, willing: bool)
    | Calloc(nmemb: Word, size: Word, willing: bool)
    | Realloc(p: Word, size: Word, willing: bool)
    | Free(p: Word)
    | Write(p: Word, off: nat, v: Byte)

  /** What a correct client may ask for: live pointers, and requests malloc has the arithmetic for. */
  ghost predicate Legal(s: State, c: Call)
    requires WellFormed(s)
  {
    match c
    case Malloc(size, _) => Servable(size)
    case Calloc(nmemb, size, _) => nmemb * size < TWO32 ==> nmemb * size <= 0xFFFF_FFE8
    case Realloc(p, size, _) => size <= 0xFFFF_FFE8 && (p == NULL || p in Buffers(s) || Foreign(s, p))
    case Free(p) => p == NULL || p in Buffers(s) || Foreign(s, p)
    case Write(p, off, _) => p in Buffers(s) && off < |Buffers(s)[p]|
  }

  /** What a legal call does to a well-formed heap. */
  ghost predicate Effect(s: State, c: Call, r: Word, s': State)
    requires WellFormed(s) && Legal(s, c)
  {
    match c
    case Malloc(size, willing) => MallocResult(s, size, willing, s', r)
    case Calloc(nmemb, size, willing) => CallocResult(s, nmemb, size, willing, s', r)
    case Realloc(p, size, willing) => ReallocResult(s, p, size, willing, s', r)
    case Free(p) => FreeResult(s, p, s')
    case Write(p, off, v) => WriteResult(s, p, off, v, s')
  }

  /** A step promises something only to a correct client, and only of a well-formed heap. */
  ghost predicate Step(s: State, c: Call, r: Word, s': State)
  {
    WellFormed(s) ==> Legal(s, c) && Effect(s, c, r, s')
  }

  /** The allocator's methods take exactly these steps. */
  method Perform(h: Heap, c: Call) returns (r: Word)
    requires WellFormed(h.S()) && Legal(h.S(), c)
    modifies h, h.mem
    ensures Step(old(h.S()), c, r, h.S())
  {
    hide WellFormed, Buffers;
    r := NULL;
    match c {
      case Malloc(size, willing) => r := h.Malloc(size, willing);
      case Calloc(nmemb, size, willing) => r := h.Calloc(nmemb, size, willing);
      case Realloc(p, size, willing) => r := h.Realloc(p, size, willing);
      case Free(p) => h.Free(p);
      case Write(p, off, v) => h.Write(p, off, v);
    }
  }

  /** `ss[0]` is a fresh heap and every call takes one state to the next. */
  ghost predicate IsRun(ss: seq<State>, cs: seq<Call>, rs: seq<Word>)
  {
    && |ss| == |cs| + 1 == |rs| + 1
    && WellFormed(ss[0]) && ss[0].blocks == []
    && forall i, j :: 0 <= i < j < |ss| && j == i + 1 ==> Step(ss[i], cs[i], rs[i], ss[j])
  }

  lemma {:induction false} StepKeepsForm(s: State, c: Call, r: Word, s': State)
    requires WellFormed(s) && Step(s, c, r, s')
    ensures WellFormed(s') && s'.base == s.base && s'.brk >= s.brk
  {
    hide Buffers, ListOk, NoAdjacentFree, SomeFits, CanGrow, IsLowestFit, Rounded;
  }

  /** Every reachable heap is an address-ordered tiling in which no byte is lost and free blocks are coalesced. */
  lemma {:induction false} ReachableHeaps(ss: seq<State>, cs: seq<Call>, rs: seq<Word>, i: nat)
    requires IsRun(ss, cs, rs) && i < |ss|
    ensures WellFormed(ss[i]) && ss[i].base == ss[0].base
    ensures Footprint(ss[i].blocks) == ss[i].brk - ss[i].base
    ensures forall j, k :: 0 <= j < k < |ss[i].blocks| ==> ss[i].blocks[j].End() <= ss[i].blocks[k].addr
  {
    if i > 0 {
      ReachableHeaps(ss, cs, rs, i - 1);
      StepKeepsForm(ss[i - 1], cs[i - 1], rs[i - 1], ss[i]);
    }
    TilesFootprint(ss[i].blocks, ss[i].base, ss[i].brk);
    TilesOrdered(ss[i].blocks, ss[i].base, ss[i].brk);
  }

  /** A live buffer lies inside the heap, behind a header of its own, and no header lies inside it. */
  lemma {:induction false} BufferHoldsNoHeader(s: State, p: nat)
    requires WellFormed(s) && p in Buffers(s)
    ensures s.base + HEADER <= p && p + |Buffers(s)[p]| <= s.brk
    ensures forall i :: 0 <= i < |s.blocks| ==>
                          s.blocks[i].addr + HEADER <= p || p + |Buffers(s)[p]| <= s.blocks[i].addr
  {
    var k := FindLive(s, p);
    TilesOrdered(s.blocks, s.base, s.brk);
    TilesBounds(s.blocks, s.base, s.brk);
  }

  /** Two live buffers never overlap: there is room for a header between them. */
  lemma {:induction false} LiveBuffersDisjoint(s: State, p: nat, q: nat)
    requires WellFormed(s) && p in Buffers(s) && q in Buffers(s) && p < q
    ensures p + |Buffers(s)[p]| + HEADER <= q
  {
    var k := FindLive(s, p);
    var l := FindLive(s, q);
    TilesOrdered(s.blocks, s.base, s.brk);
  }

  /** Calls that are meant to end or change the buffer at `p`. */
  predicate Touches(c: Call, p: nat)
  {
    match c
    case Malloc(_, _) => false
    case Calloc(_, _, _) => false
    case Realloc(q, _, _) => q == p
    case Free(q) => q == p
    case Write(q, _, _) => q == p
  }

  /** A buffer keeps its place and its bytes as long as no call is aimed at it. */
  lemma {:induction false} BuffersPersist(ss: seq<State>, cs: seq<Call>, rs: seq<Word>, i: nat, j: nat, p: nat)
    requires IsRun(ss, cs, rs) && i <= j < |ss|
    requires (ReachableHeaps(ss, cs, rs, i); p in Buffers(ss[i]))
    requires forall k :: i <= k < j ==> !Touches(cs[k], p)
    ensures WellFormed(ss[i]) && WellFormed(ss[j])
    ensures p in Buffers(ss[j]) && Buffers(ss[j])[p] == Buffers(ss[i])[p]
    decreases j
  {
    hide WellFormed, Buffers, Effect, Legal;
    ReachableHeaps(ss, cs, rs, i);
    ReachableHeaps(ss, cs, rs, j);
    if i < j {
      ReachableHeaps(ss, cs, rs, j - 1);
      BuffersPersist(ss, cs, rs, i, j - 1, p);
      StepKeepsOthers(ss[j - 1], cs[j - 1], rs[j - 1], ss[j], p);
    }
  }

  lemma {:induction false} StepKeepsOthers(s: State, c: Call, r: Word, s': State, p: nat)
    requires WellFormed(s) && Step(s, c, r, s') && WellFormed(s') && p in Buffers(s) && !Touches(c, p)
    ensures p in Buffers(s') && Buffers(s')[p] == Buffers(s)[p]
  {
    hide Buffers;
  }

  // ---------- the heap has no hidden history ----------

  /** The same live pointers with the same lengths. */
  ghost predicate SameShape(s: State, t: State)
    requires WellFormed(s) && WellFormed(t)
  {
    && s.base == t.base && s.brk == t.brk && Buffers(s).Keys == Buffers(t).Keys
    && forall p :: p in Buffers(s) ==> |Buffers(s)[p]| == |Buffers(t)[p]|
  }

  lemma {:induction false} ShapeGivesBlocks(s: State, t: State, x: Block)
    requires WellFormed(s) && WellFormed(t) && SameShape(s, t) && !x.free && x in s.blocks
    ensures x in t.blocks
  {
    var i :| 0 <= i < |s.blocks| && s.blocks[i] == x;
    BlocksInMemory(s);
    LiveLookup(s.mem, s.blocks, s.base, s.brk, x.Payload());
    var k := FindLive(t, x.Payload());
    assert t.blocks[k] == x;
  }

  /** Whatever calls led to two heaps that look alike to the client, their block lists are the same. */
  lemma {:induction false} HistoryIndependence(s: State, t: State)
    requires WellFormed(s) && WellFormed(t) && SameShape(s, t)
    ensures s.blocks == t.blocks && s.head == t.head
  {
    forall x: Block | !x.free ensures x in s.blocks <==> x in t.blocks {
      if x in s.blocks { ShapeGivesBlocks(s, t, x); }
      if x in t.blocks { ShapeGivesBlocks(t, s, x); }
    }
    CanonicalLayout(s.blocks, t.blocks, s.base, s.brk);
  }

  /** Hence malloc's answer depends only on what the client can see. */
  lemma {:induction false} MallocDeterminate(s: State, t: State, size: Word, willing: bool, s': State, r: Word,
                                             t': State, q: Word)
    requires WellFormed(s) && WellFormed(t) && SameShape(s, t) && |s.mem| == |t.mem|
    requires MallocResult(s, size, willing, s', r) && MallocResult(t, size, willing, t', q)
    ensures r == q && s'.brk == t'.brk && (r != NULL ==> |Buffers(s')[r]| == |Buffers(t')[r]|)
  {
    HistoryIndependence(s, t);
    assert CanGrow(s, Growth(size), willing) == CanGrow(t, Growth(size), willing);
  }

  /** When everything has been freed, the heap is one free block, or was never used. */
  lemma {:induction false} EmptyHeapIsOneBlock(s: State)
    requires WellFormed(s) && Buffers(s) == map[]
    ensures |s.blocks| <= 1
    ensures s.blocks != [] ==> s.blocks[0].free && s.blocks[0].addr == s.base && s.blocks[0].End() == s.brk
  {
    BlocksInMemory(s);
    forall i | 0 <= i < |s.blocks| ensures s.blocks[i].free {
      LiveLookup(s.mem, s.blocks, s.base, s.brk, s.blocks[i].Payload());
    }
    if s.blocks != [] { TilesNeighbour(s.blocks, s.base, s.brk, 0); }
  }
}
