/** What malloc answers, in plain arithmetic on the request, the break and the free blocks. */
module MallocLaws {
  import opened Memory
  import opened HeapLayout
  import opened HeapState
  import opened Allocator
  import opened HeapRuns

  /** The request is rounded up to the next multiple of 8, and no further. */
  lemma RoundingIsLeast(size: Word)
    requires size <= 0xFFFF_FFF8
    ensures Rounded(size) == (size + 7) / 8 * 8
    ensures size <= Rounded(size) < size + 8 && Rounded(size) % 8 == 0
  {
    assert (size + 7) % TWO32 == size + 7;
  }

  /** A free block of at least `n` payload bytes. */
  ghost predicate HasRoom(bs: seq<Block>, n: nat)
  {
    exists i :: 0 <= i < |bs| && bs[i].free && bs[i].End() - bs[i].addr >= 16 + n
  }

  /** NULL exactly if no free block has room and the break, a positive address, cannot move over header and payload. */
  lemma {:induction false} MallocExactly(s: State, size: Word, willing: bool, s': State, r: Word)
    requires WellFormed(s) && 0 < size <= 0xFFFF_FFE8 && MallocResult(s, size, willing, s', r)
    ensures
      var n := (size + 7) / 8 * 8;
      r != 0 <==>
        || HasRoom(s.blocks, n)
        || (willing && s.brk < 0x8000_0000 && s.brk + 16 + n <= |s.mem| && s.brk + 16 + n < 0x1_0000_0000)
  {
    hide ListOk, Buffers, NoAdjacentFree;
    RoundingIsLeast(size);
    RequestArithmetic(size, s.brk);
    RoomMeansFit(s.blocks, Rounded(size));
    assert Growth(size) == 16 + Rounded(size);
    BreakBounds(s);
  }

  lemma RoomMeansFit(bs: seq<Block>, n: nat)
    ensures HasRoom(bs, n) <==> SomeFits(bs, n)
  {
    if HasRoom(bs, n) {
      var i :| 0 <= i < |bs| && bs[i].free && bs[i].End() - bs[i].addr >= 16 + n;
      assert Fits(bs[i], n);
    }
  }

  lemma BreakBounds(s: State)
    requires WellFormed(s)
    ensures 16 <= s.brk < TWO32
  {
  }

  /** A willing kernel and room in memory: the first request on a fresh heap gets the bytes behind the first header. */
  lemma {:induction false} FirstRequest(s: State, size: Word, s': State, r: Word)
    requires WellFormed(s) && s.blocks == [] && 0 < size <= 0xFFFF_FFE8 && MallocResult(s, size, true, s', r)
    requires s.brk < 0x8000_0000 && s.brk + 16 + (size + 7) / 8 * 8 <= |s.mem| && |s.mem| < 0x1_0000_0000
    ensures r == s.brk + 16 && s'.brk == r + (size + 7) / 8 * 8
    ensures r in Buffers(s') && |Buffers(s')[r]| == (size + 7) / 8 * 8
  {
    hide ListOk, Buffers, NoAdjacentFree;
    MallocExactly(s, size, true, s', r);
    RoundingIsLeast(size);
    RoomMeansFit(s.blocks, Rounded(size));
  }

  /** A block is cut only if header and at least 16 bytes are left over; then the buffer is the rounded request. */
  lemma {:induction false} SliversStay(s: State, size: Word, willing: bool, s': State, r: Word, b: Block)
    requires WellFormed(s) && 0 < size <= 0xFFFF_FFE8 && MallocResult(s, size, willing, s', r) && r != 0
    requires b in s.blocks && b.addr + 16 == r
    ensures
      var n := (size + 7) / 8 * 8;
      |Buffers(s')[r]| == if b.size < n + 16 + 16 then b.size else n
  {
    hide ListOk, Buffers, NoAdjacentFree;
    RoundingIsLeast(size);
    if !SomeFits(s.blocks, Rounded(size)) { NoBlockThere(s, b); }
  }

  lemma {:induction false} NoBlockThere(s: State, b: Block)
    requires WellFormed(s) && b in s.blocks
    ensures b.addr < s.brk
  {
    TilesBounds(s.blocks, s.base, s.brk);
  }

  // ---------- realloc ----------

  /** What realloc does to a live buffer, in plain arithmetic: bytes kept, others untouched, failure without effect. */
  lemma {:induction false} ReallocExactly(s: State, p: Word, size: Word, willing: bool, s': State, r: Word)
    requires WellFormed(s) && p in Buffers(s) && 0 < size <= 0xFFFF_FFE8 && ReallocResult(s, p, size, willing, s', r)
    ensures
      var n, was := (size + 7) / 8 * 8, Buffers(s)[p];
      && (r != 0 <==>
            || size <= |was|
            || HasRoom(s.blocks, n)
            || (willing && s.brk < 0x8000_0000 && s.brk + 16 + n <= |s.mem| && s.brk + 16 + n < 0x1_0000_0000))
      && (r == p <==> size <= |was|)
    ensures r == 0 ==> s' == s
    ensures r != 0 ==>
              && WellFormed(s') && r in Buffers(s') && |Buffers(s')[r]| >= size
              && (forall i :: 0 <= i < |Buffers(s)[p]| ==> Buffers(s')[r][i] == Buffers(s)[p][i])
              && (p in Buffers(s') <==> r == p)
              && (forall q :: q in Buffers(s) && q != p ==> q in Buffers(s') && Buffers(s')[q] == Buffers(s)[q])
  {
    hide ListOk, Buffers, NoAdjacentFree;
    LiveIsNotNull(s, p);
    RoundingIsLeast(size);
    RequestArithmetic(size, s.brk);
    RoomMeansFit(s.blocks, Rounded(size));
    assert Growth(size) == 16 + Rounded(size);
    BreakBounds(s);
  }

  lemma {:induction false} LiveIsNotNull(s: State, p: nat)
    requires WellFormed(s) && p in Buffers(s)
    ensures p >= 32
  {
    var k := FindLive(s, p);
    BlocksInMemory(s);
  }

  // ---------- malloc and free together ----------

  /** Freeing what malloc gave restores the client's view and, if the break did not move, the block list itself. */
  lemma {:induction false} FreeUndoesMalloc(s: State, size: Word, willing: bool, s1: State, r: Word, s2: State)
    requires WellFormed(s) && MallocResult(s, size, willing, s1, r) && r != 0 && FreeResult(s1, r, s2)
    ensures Buffers(s2) == Buffers(s) && (s1.brk == s.brk ==> s2.blocks == s.blocks && s2.head == s.head)
  {
    hide ListOk, Buffers, NoAdjacentFree;
    assert Buffers(s2) == Buffers(s);
    if s1.brk == s.brk { HistoryIndependence(s2, s); }
  }

  lemma {:induction false} TilesCover(bs: seq<Block>, lo: nat, hi: nat, a: nat) returns (k: nat)
    requires Tiles(bs, lo, hi) && lo <= a < hi
    ensures k < |bs| && bs[k].addr <= a < bs[k].End()
  {
    if a < bs[0].End() {
      k := 0;
    } else {
      k := TilesCover(bs[1..], bs[0].End(), hi, a);
      k := k + 1;
    }
  }

  /** The coalesced list without `b` has one free block around the place of `b`. */
  lemma {:induction false} RoomAround(cs: seq<Block>, bs: seq<Block>, lo: nat, hi: nat, j: nat) returns (k: nat)
    requires Tiles(cs, lo, hi) && Tiles(bs, lo, hi) && NoAdjacentFree(cs) && j < |bs|
    requires forall x: Block :: !x.free && x in cs ==> x in bs && x != bs[j]
    ensures k < |cs| && cs[k].free && cs[k].addr <= bs[j].addr && bs[j].End() <= cs[k].End()
  {
    var b := bs[j];
    TilesOrdered(bs, lo, hi);
    TilesBounds(bs, lo, hi);
    k := TilesCover(cs, lo, hi, b.addr);
    TilesNeighbour(cs, lo, hi, k);
    assert cs[k].free by {
      assert cs[k] in cs;
    }
    if k + 1 < |cs| && cs[k].End() < b.End() {
      assert !cs[k + 1].free;
      assert cs[k + 1] in cs;
    }
  }

  /** What is left in use after a free was in use before, elsewhere. */
  lemma {:induction false} StillInUse(s: State, p: Word, s1: State, x: Block)
    requires WellFormed(s) && p in Buffers(s) && FreeResult(s, p, s1) && !x.free && x in s1.blocks
    ensures x in s.blocks && x.Payload() != p
  {
    var i :| 0 <= i < |s1.blocks| && s1.blocks[i] == x;
    BlocksInMemory(s1);
    LiveLookup(s1.mem, s1.blocks, s1.base, s1.brk, x.Payload());
    var k := FindLive(s, x.Payload());
    assert s.blocks[k] == x;
  }

  /** The room of a freed buffer is there for the next request: no growth, and no higher address. */
  lemma {:induction false} FreedRoomIsBack(s: State, p: Word, s1: State, size: Word, willing: bool, s2: State, r: Word)
    requires WellFormed(s) && p in Buffers(s) && FreeResult(s, p, s1)
    requires 0 < size <= |Buffers(s)[p]| && MallocResult(s1, size, willing, s2, r)
    ensures r != 0 && r <= p && s2.brk == s.brk
  {
    hide ListOk, Buffers, NoAdjacentFree;
    var j := FindLive(s, p);
    var k := FreedBlock(s, p, s1, j);
    SizeInHeap(s, j);
    RoundingIsLeast(size);
    RoundedFits(size, s.blocks[j].size);
    assert Fits(s1.blocks[k], Rounded(size));
  }

  lemma {:induction false} FreedBlock(s: State, p: Word, s1: State, j: nat) returns (k: nat)
    requires WellFormed(s) && p in Buffers(s) && FreeResult(s, p, s1)
    requires j < |s.blocks| && s.blocks[j].Payload() == p
    ensures k < |s1.blocks| && s1.blocks[k].free && s1.blocks[k].Payload() <= p
    ensures s1.blocks[k].size >= s.blocks[j].size
  {
    hide Buffers;
    forall x: Block | !x.free && x in s1.blocks ensures x in s.blocks && x != s.blocks[j] { StillInUse(s, p, s1, x); }
    k := RoomAround(s1.blocks, s.blocks, s.base, s.brk, j);
  }

  lemma {:induction false} SizeInHeap(s: State, j: nat)
    requires WellFormed(s) && j < |s.blocks|
    ensures s.blocks[j].size < 0xFFFF_FFE8 && s.blocks[j].size % 8 == 0
  {
    BlocksInMemory(s);
  }

  lemma RoundedFits(size: Word, n: nat)
    requires size <= n < 0xFFFF_FFE8 && n % 8 == 0
    ensures Rounded(size) <= n
  {
    RoundingIsLeast(size);
  }
}
