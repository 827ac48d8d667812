/** malloc, free, calloc and realloc over one flat memory, headers included. */
module Allocator {
  import opened Memory
  import opened HeapLayout
  import opened HeapState

  const NULL: Word := 0
  const SBRK_FAILED: Word := 0xFFFF_FFFF

  // ---------- request arithmetic (32-bit size_t) ----------

  /** The request rounded up to a multiple of 8, wrapping at 2^32. */
  function Rounded(size: Word): (n: Word)
    ensures n % 8 == 0
  {
    (size + 7) % TWO32 / 8 * 8
  }

  /** By how much malloc asks to move the break, wrapping at 2^32. */
  function Growth(size: Word): Word
  {
    (HEADER + Rounded(size)) % TWO32
  }

  /** The block the request needs fits in the growth malloc asks for. */
  predicate Servable(size: Word) { size <= 0xFFFF_FFE8 || size > 0xFFFF_FFF8 }

  /** The arithmetic is right exactly on these requests; 0xFFFF_FFF0 asks for a growth of 0 bytes. */
  lemma RequestArithmetic(size: Word, brk: nat)
    ensures Rounded(size) >= size <==> size <= 0xFFFF_FFF8
    ensures Block(brk, Rounded(size), false).End() == brk + Growth(size) <==> Servable(size)
    ensures Rounded(size) >= size && Block(brk, Rounded(size), false).End() == brk + Growth(size) <==>
            size <= 0xFFFF_FFE8
    ensures Rounded(0xFFFF_FFFF) == 0 && Growth(0xFFFF_FFF0) == 0
  {
    if size <= 0xFFFF_FFF8 {
      assert size + 7 < TWO32;
      assert size <= (size + 7) / 8 * 8 < size + 8;
    } else {
      assert (size + 7) % TWO32 == size + 7 - TWO32 < 8;
    }
  }

  // ---------- contracts ----------

  ghost predicate SomeFits(bs: seq<Block>, n: nat) { exists i :: 0 <= i < |bs| && Fits(bs[i], n) }

  /** `p` is the payload of the free block of at least `n` bytes that has the lowest address. */
  ghost predicate IsLowestFit(bs: seq<Block>, n: nat, p: nat)
  {
    && (exists i :: 0 <= i < |bs| && Fits(bs[i], n) && p == bs[i].Payload())
    && (forall i :: 0 <= i < |bs| && Fits(bs[i], n) ==> p <= bs[i].Payload())
  }

  /** The kernel moves the break up by `growth`: it is willing, and the address space allows it. */
  ghost predicate CanGrow(s: State, growth: nat, willing: bool)
  {
    willing && Signed(s.brk % TWO32) > 0 && s.brk + growth < TWO32 && s.brk + growth <= |s.mem|
  }

  /** How many bytes of a free block are handed out: all of them, unless the rest makes a block of 16 bytes or more. */
  function Usable(size: nat, n: nat): nat { if size >= n + 32 then n else size }

  /** The buffer at `r` has the usable bytes of the block that was free there. */
  ghost predicate Handed(bs: seq<Block>, n: nat, r: nat, length: nat)
  {
    forall b :: b in bs && b.Payload() == r ==> length == Usable(b.size, n)
  }

  /** Where a request of `size` bytes goes: nowhere, into the lowest free block that holds it, or behind the break. */
  ghost predicate Placed(s: State, size: Word, willing: bool, brk: nat, r: Word)
  {
    var n := Rounded(size);
    && (r == NULL <==> size == 0 || (!SomeFits(s.blocks, n) && !CanGrow(s, Growth(size), willing)))
    && (r != NULL && SomeFits(s.blocks, n) ==> IsLowestFit(s.blocks, n, r) && brk == s.brk)
    && (r != NULL && !SomeFits(s.blocks, n) ==> r == s.brk + HEADER && brk == r + n)
  }

  ghost predicate MallocResult(s: State, size: Word, willing: bool, s': State, r: Word)
    requires WellFormed(s)
  {
    && WellFormed(s') && s'.base == s.base && |s'.mem| == |s.mem| && s.brk <= s'.brk
    && Placed(s, size, willing, s'.brk, r)
    && (r == NULL ==> s' == s)
    && (r != NULL ==>
          && r !in Buffers(s) && r in Buffers(s')
          && Buffers(s') == Buffers(s)[r := Buffers(s')[r]]
          && Rounded(size) <= |Buffers(s')[r]| < Rounded(size) + 32
          && (if SomeFits(s.blocks, Rounded(size)) then Handed(s.blocks, Rounded(size), r, |Buffers(s')[r]|)
              else |Buffers(s')[r]| == Rounded(size)))
  }

  /** A pointer that free and realloc recognise as not theirs: no magic in front of it. */
  ghost predicate Foreign(s: State, p: Word)
  {
    HEADER <= p <= |s.mem| && Get32(s.mem, p - 4) != BLOCK_MAGIC
  }

  ghost predicate FreeResult(s: State, p: Word, s': State)
    requires WellFormed(s)
  {
    && WellFormed(s') && s'.base == s.base && s'.brk == s.brk && |s'.mem| == |s.mem|
    && (p in Buffers(s) ==> Buffers(s') == Buffers(s) - {p})
    && (p !in Buffers(s) ==> s' == s)
  }

  ghost predicate CallocResult(s: State, nmemb: Word, size: Word, willing: bool, s': State, r: Word)
    requires WellFormed(s)
  {
    && WellFormed(s') && s'.base == s.base && |s'.mem| == |s.mem| && s.brk <= s'.brk
    && (r == NULL ==> s' == s)
    && (if nmemb * size < TWO32 then Placed(s, nmemb * size, willing, s'.brk, r) else r == NULL)
    && (r != NULL ==>
          && r !in Buffers(s) && r in Buffers(s')
          && Buffers(s') == Buffers(s)[r := Buffers(s')[r]]
          && |Buffers(s')[r]| >= nmemb * size
          && forall i :: 0 <= i < nmemb * size ==> Buffers(s')[r][i] == 0)
  }

  ghost predicate ReallocResult(s: State, p: Word, size: Word, willing: bool, s': State, r: Word)
    requires WellFormed(s)
  {
    if p == NULL then MallocResult(s, size, willing, s', r)
    else if size == 0 then r == NULL && FreeResult(s, p, s')
    else if p !in Buffers(s) then r == NULL && s' == s
    else if |Buffers(s)[p]| >= size then r == p && s' == s
    else
      && WellFormed(s') && s'.base == s.base && |s'.mem| == |s.mem| && s.brk <= s'.brk
      && Placed(s, size, willing, s'.brk, r)
      && (r == NULL ==> s' == s)
      && (r != NULL ==>
            && r !in Buffers(s) && r in Buffers(s')
            && Buffers(s') == (Buffers(s) - {p})[r := Buffers(s')[r]]
            && |Buffers(s')[r]| >= size
            && Buffers(s)[p] <= Buffers(s')[r])
  }

  ghost predicate WriteResult(s: State, p: Word, off: nat, v: Byte, s': State)
    requires WellFormed(s) && p in Buffers(s) && off < |Buffers(s)[p]|
  {
    && WellFormed(s')
    && s' == s.(mem := s'.mem)
    && Buffers(s') == Buffers(s)[p := Poke(Buffers(s)[p], off, v)]
  }

  // ---------- no two free neighbours ----------

  lemma {:induction false} TakeNoAdjacent(bs: seq<Block>, k: nat, b: Block)
    requires NoAdjacentFree(bs) && k < |bs| && !b.free
    ensures NoAdjacentFree(Spliced(bs, k, 1, [b]))
  {
  }

  /** Splitting free block `k` and taking the first half: the second half has a used neighbour on each side. */
  lemma {:induction false} SplitNoAdjacent(bs: seq<Block>, k: nat, x: Block, y: Block)
    requires NoAdjacentFree(bs) && k < |bs| && bs[k].free
    ensures NoAdjacentFree(Spliced(Spliced(bs, k, 1, [x, y]), k, 1, [x.(free := false)]))
  {
    var cs := Spliced(Spliced(bs, k, 1, [x, y]), k, 1, [x.(free := false)]);
    forall i, j | 0 <= i < j < |cs| && j == i + 1 ensures !(cs[i].free && cs[j].free) {
      if i > k {
        assert cs[j] == bs[j - 1] && (i > k + 1 ==> cs[i] == bs[i - 1]);
        assert !(bs[i - 1].free && bs[j - 1].free);
      } else if j < k {
        assert cs[j] == bs[j] && cs[i] == bs[i];
      }
    }
  }

  /** The part of the list the merge loop has passed. */
  ghost predicate NoAdjacentUpTo(bs: seq<Block>, k: nat)
  {
    forall i, j :: 0 <= i < j < |bs| && j == i + 1 && j <= k ==> !(bs[i].free && bs[j].free)
  }

  lemma MergeKeepsPrefix(bs: seq<Block>, k: nat)
    requires NoAdjacentUpTo(bs, k) && k + 1 < |bs| && bs[k].free
    ensures NoAdjacentUpTo(Merged(bs, k), k)
  {
  }

  lemma WholeList(bs: seq<Block>, k: nat)
    requires NoAdjacentUpTo(bs, k) && |bs| <= k + 1
    ensures NoAdjacentFree(bs)
  {
  }

  lemma StartOfList(bs: seq<Block>)
    ensures NoAdjacentUpTo(bs, 0)
  {
  }

  lemma StepKeepsPrefix(bs: seq<Block>, k: nat)
    requires NoAdjacentUpTo(bs, k) && k + 1 < |bs| && !(bs[k].free && bs[k + 1].free)
    ensures NoAdjacentUpTo(bs, k + 1)
  {
  }

  /** A live pointer names the one block in use whose payload starts there. */
  lemma {:induction false} FindLive(s: State, p: nat) returns (k: nat)
    requires ListOk(s) && p in Buffers(s)
    ensures k < |s.blocks| && !s.blocks[k].free && s.blocks[k].Payload() == p
    ensures s.blocks[k].End() <= |s.mem| && Buffers(s)[p] == s.mem[p..s.blocks[k].End()]
    ensures HeaderAt(s.mem, s.blocks, k)
  {
    BlocksInMemory(s);
    LiveLookup(s.mem, s.blocks, s.base, s.brk, p);
    k :| 0 <= k < |s.blocks| && !s.blocks[k].free && s.blocks[k].Payload() == p;
  }

  /** A client store inside a live payload. */
  lemma {:induction false} WriteLive(s: State, k: nat, off: nat, v: Byte, s': State)
    requires WellFormed(s) && k < |s.blocks| && !s.blocks[k].free && off < s.blocks[k].size
    requires s.blocks[k].End() <= |s.mem|
    requires s' == s.(mem := Poke(s.mem, s.blocks[k].Payload() + off, v))
    ensures WellFormed(s')
    ensures s.blocks[k].Payload() in Buffers(s) && |Buffers(s)[s.blocks[k].Payload()]| == s.blocks[k].size
    ensures Buffers(s') == Buffers(s)[s.blocks[k].Payload() := Poke(Buffers(s)[s.blocks[k].Payload()], off, v)]
  {
    hide Live, Tiles;
    var b := s.blocks[k];
    TilesOne(b);
    assert s'.blocks == Spliced(s.blocks, k, 1, [b]);
    assert SameOutside(s.mem, s'.mem, b.Payload(), b.End());
    assert HeaderAt(s.mem, s.blocks, k);
    HeaderFrame(s.mem, s'.mem, b.Payload(), b.End(), b.addr, b.size, Next(s.blocks, k), false);
    assert HeaderAt(s'.mem, s'.blocks, k);
    Splice(s, k, 1, [b], s');
    assert s.blocks[k..k + 1] == [b];
    LiveOne(s.mem, b);
    LiveOne(s'.mem, b);
    assert s'.mem[b.Payload()..b.End()] == Poke(s.mem[b.Payload()..b.End()], off, v);
  }

  /** The search loop stops at the block the specification asks for. */
  lemma {:induction false} FirstIsLowest(s: State, k: nat, n: nat)
    requires ListOk(s) && k < |s.blocks| && Fits(s.blocks[k], n)
    requires forall i :: 0 <= i < k ==> !Fits(s.blocks[i], n)
    ensures IsLowestFit(s.blocks, n, s.blocks[k].Payload()) && SomeFits(s.blocks, n)
    ensures Handed(s.blocks, n, s.blocks[k].Payload(), Usable(s.blocks[k].size, n))
  {
    TilesOrdered(s.blocks, s.base, s.brk);
  }

  /** The stores that split a block ending at `end`: a new header at `y`, then two words of the old one. */
  lemma {:induction false} SplitStores(m0: seq<Byte>, m1: seq<Byte>, m2: seq<Byte>, m3: seq<Byte>,
                                       a: nat, n: Word, y: Word, size: Word, next: Word, end: nat)
    requires a + HEADER <= y && y + HEADER <= end <= |m0| == |m1| == |m2|
    requires Get32(m0, a + 8) == 1 && Get32(m0, a + 12) == BLOCK_MAGIC
    requires SameOutside(m0, m1, y, y + HEADER) && Header(m1, y, size, next, true)
    requires Stored(m1, a, n, m2) && Stored(m2, a + 4, y, m3)
    ensures SameOutside(m0, m3, a, end)
    ensures Header(m3, a, n, y, true) && Header(m3, y, size, next, true)
  {
    WordFrame(m2, a + 4, y, m3, a);
  }

  function Merged(bs: seq<Block>, k: nat): seq<Block>
    requires k + 1 < |bs|
  {
    Spliced(bs, k, 2, [Block(bs[k].addr, bs[k].size + HEADER + bs[k + 1].size, true)])
  }

  /** The two stores that make block `k` swallow block `k + 1`. */
  lemma {:induction false} MergeStores(s: State, k: nat, m1: seq<Byte>, s': State)
    requires ListOk(s) && k + 1 < |s.blocks| && s.blocks[k].free && s.blocks[k + 1].free
    requires s.blocks[k].addr + 8 <= |s.mem| == |m1|
    requires Stored(s.mem, s.blocks[k].addr, (s.blocks[k].size + HEADER + s.blocks[k + 1].size) % TWO32, m1)
    requires Next(s.blocks, k + 1) < TWO32 && Stored(m1, s.blocks[k].addr + 4, Next(s.blocks, k + 1), s'.mem)
    requires s' == s.(mem := s'.mem, blocks := Merged(s.blocks, k))
    ensures ListOk(s') && Buffers(s') == Buffers(s)
  {
    hide Tiles, Encoded, Live, Aligned, ListOk, Buffers, Get32;
    var a := s.blocks[k].addr;
    var size := s.blocks[k].size + HEADER + s.blocks[k + 1].size;
    WordsAt(s, k);
    WordsAt(s, k + 1);
    assert SameOutside(s.mem, s'.mem, a, s.blocks[k + 1].End());
    assert Header(s'.mem, a, size, Next(s.blocks, k + 1), true) by {
      WordFrame(m1, a + 4, Next(s.blocks, k + 1), s'.mem, a);
      WordFrame(s.mem, a, size, m1, a + 8);
      WordFrame(s.mem, a, size, m1, a + 12);
      WordFrame(m1, a + 4, Next(s.blocks, k + 1), s'.mem, a + 8);
      WordFrame(m1, a + 4, Next(s.blocks, k + 1), s'.mem, a + 12);
    }
    MergeBlocks(s, k, s');
  }

  /** What the words of block `k`'s header say about its place in the list. */
  lemma {:induction false} WordsAt(s: State, k: nat)
    requires ListOk(s) && k < |s.blocks|
    ensures 16 <= s.blocks[k].addr && s.blocks[k].End() <= s.brk <= |s.mem| && s.brk < TWO32
    ensures
      var a := s.blocks[k].addr;
      && Get32(s.mem, a) == s.blocks[k].size
      && Get32(s.mem, a + 4) == Next(s.blocks, k)
      && (Get32(s.mem, a + 8) != 0 <==> s.blocks[k].free)
      && (s.blocks[k].free ==> Get32(s.mem, a + 8) == 1)
      && Get32(s.mem, a + 12) == BLOCK_MAGIC
      && (Get32(s.mem, a + 4) == NULL <==> k + 1 == |s.blocks|)
      && (k + 1 < |s.blocks| ==> Next(s.blocks, k) == s.blocks[k].End())
  {
    BlocksInMemory(s);
    assert HeaderAt(s.mem, s.blocks, k);
    TilesNeighbour(s.blocks, s.base, s.brk, k);
  }

  lemma {:induction false} LivePointersNonNull(s: State)
    requires ListOk(s)
    ensures NULL !in Buffers(s)
  {
    BlocksInMemory(s);
    LiveKeys(s.mem, s.blocks, s.base, s.brk);
  }

  lemma {:induction false} WordFrame(m: seq<Byte>, a: nat, w: Word, m': seq<Byte>, b: nat)
    requires a + 4 <= |m| && b + 4 <= |m| && (b + 4 <= a || a + 4 <= b)
    requires Stored(m, a, w, m')
    ensures |m'| == |m| && Get32(m', b) == Get32(m, b)
  {
  }

  lemma {:induction false} ByteBehind(s: State, p: nat, i: nat)
    requires WellFormed(s) && p in Buffers(s) && i < |Buffers(s)[p]|
    ensures p + i < |s.mem| && s.mem[p + i] == Buffers(s)[p][i]
  {
    var k := FindLive(s, p);
  }

  /** For the pointers free and realloc accept, the magic word tells live from foreign. */
  lemma {:induction false} MagicMeansLive(s: State, p: Word)
    requires WellFormed(s) && (p in Buffers(s) || Foreign(s, p))
    ensures HEADER <= p <= |s.mem|
    ensures Get32(s.mem, p - 4) == BLOCK_MAGIC <==> p in Buffers(s)
    ensures p in Buffers(s) ==> Get32(s.mem, p - HEADER) == |Buffers(s)[p]|
  {
    if p in Buffers(s) { var k := FindLive(s, p); }
  }

  lemma MulMonotone(a: nat, x: nat, y: nat)
    requires x <= y
    ensures a * x <= a * y
  {
  }

  /** calloc's overflow test by division is exact. */
  lemma ProductCheck(nmemb: Word, size: Word)
    ensures nmemb != 0 && size > 0xFFFF_FFFF / nmemb <==> nmemb * size >= TWO32
  {
    if nmemb != 0 {
      var q := 0xFFFF_FFFF / nmemb;
      assert nmemb * q <= 0xFFFF_FFFF < nmemb * q + nmemb;
      if size > q { MulMonotone(nmemb, q + 1, size); } else { MulMonotone(nmemb, size, q); }
    }
  }

  /** One more byte copied. */
  lemma PokeNext(src: seq<Byte>, dst: seq<Byte>, i: nat)
    requires i < |src| && i < |dst|
    ensures Poke(src[..i] + dst[i..], i, src[i]) == src[..i + 1] + dst[i + 1..]
  {
  }

  /** A word is its four bytes. */
  lemma FourBytes(w: Word)
    ensures 0 <= w / 0x100_0000 < 0x100
    ensures w == w % 0x100 + 0x100 * (w / 0x100 % 0x100) + 0x1_0000 * (w / 0x1_0000 % 0x100) +
            0x100_0000 * (w / 0x100_0000)
  {
    var x := w / 0x100;
    var y := x / 0x100;
    assert w == 0x100 * x + w % 0x100 && x == 0x100 * y + x % 0x100 && y == 0x100 * (y / 0x100) + y % 0x100;
    assert w / 0x1_0000 == y && w / 0x100_0000 == y / 0x100;
  }

  // ---------- the allocator ----------

  class Heap {
    const mem: array<Byte>
    const base: nat
    var brk: nat
    var freeList: Word
    ghost var blocks: seq<Block>

    ghost function S(): State
      reads this, mem
    {
      State(mem[..], base, brk, freeList, blocks)
    }

    /** A process whose break has not been moved yet. */
    constructor (memory: array<Byte>, start: nat)
      requires 16 <= start <= memory.Length <= TWO32 && start < TWO32
      ensures mem == memory && WellFormed(S())
      ensures brk == base == start && Buffers(S()) == map[]
    {
      mem, base, brk, freeList, blocks := memory, start, start, NULL, [];
    }

    function Load(a: nat): Word
      requires a + 4 <= mem.Length
      reads mem
    {
      Get32(mem[..], a)
    }

    method Store(a: nat, w: Word)
      requires a + 4 <= mem.Length
      modifies mem
      ensures Stored(old(mem[..]), a, w, mem[..])
    {
      FourBytes(w);
      mem[a] := w % 0x100;
      mem[a + 1] := w / 0x100 % 0x100;
      mem[a + 2] := w / 0x1_0000 % 0x100;
      mem[a + 3] := w / 0x100_0000;
    }

    method WriteHeader(a: nat, size: Word, next: Word, free: bool)
      requires a + HEADER <= mem.Length
      modifies mem
      ensures Header(mem[..], a, size, next, free) && SameOutside(old(mem[..]), mem[..], a, a + HEADER)
    {
      Store(a, size);
      Store(a + 4, next);
      Store(a + 8, if free then 1 else 0);
      Store(a + 12, BLOCK_MAGIC);
    }

    /** The kernel's brk only moves up, and only if it is `willing` to. */
    method Sbrk(increment: Word, willing: bool) returns (r: Word)
      requires brk <= mem.Length <= TWO32 && brk < TWO32
      modifies this`brk
      ensures brk <= mem.Length && brk < TWO32
      ensures r == SBRK_FAILED ==> brk == old(brk)
      ensures r != SBRK_FAILED ==> r == old(brk) && brk == r + increment
      ensures r != SBRK_FAILED <==>
              && 0 < old(brk) < 0x8000_0000
              && (increment > 0 ==> willing && old(brk) + increment < TWO32 && old(brk) + increment <= mem.Length)
    {
      var cur: Word := brk;
      if Signed(cur) <= 0 { return SBRK_FAILED; }
      if increment == 0 { return cur; }
      var target := (cur + increment) % TWO32;
      if willing && cur <= target <= mem.Length {
        brk := target;
        return cur;
      }
      return SBRK_FAILED;
    }

    method Malloc(request: Word, willing: bool) returns (r: Word)
      requires WellFormed(S()) && Servable(request)
      modifies this, mem
      ensures MallocResult(old(S()), request, willing, S(), r)
    {
      hide Tiles, Encoded, Live, Aligned, Header, Get32, Buffers, NoAdjacentFree;
      if request == 0 { return NULL; }
      var size := Rounded(request);
      var curr, prev := freeList, NULL;
      ghost var k := 0;
      if blocks != [] { WordsAt(S(), 0); }
      while curr != NULL
        invariant S() == old(S()) && 0 <= k <= |blocks|
        invariant curr == (if k < |blocks| then blocks[k].addr else NULL) && (curr == NULL <==> k == |blocks|)
        invariant prev == if k > 0 then blocks[k - 1].addr else NULL
        invariant forall i :: 0 <= i < k ==> !Fits(blocks[i], size)
        decreases |blocks| - k
      {
        WordsAt(S(), k);
        if k + 1 < |blocks| { WordsAt(S(), k + 1); }
        if Load(curr + 12) == BLOCK_MAGIC && Load(curr + 8) != 0 && Load(curr) >= size {
          FirstIsLowest(S(), k, size);
          r := Allot(curr, size, k);
          return;
        }
        prev, curr, k := curr, Load(curr + 4), k + 1;
      }
      r := Extend(prev, request, willing);
    }

    /** The body of malloc's search loop once block `k`, at `curr`, fits. */
    method Allot(curr: Word, size: Word, ghost k: nat) returns (r: Word)
      requires WellFormed(S()) && k < |blocks| && curr == blocks[k].addr
      requires Fits(blocks[k], size) && size % 8 == 0
      modifies this`blocks, mem
      ensures WellFormed(S()) && r == old(blocks[k].Payload()) && r != NULL
      ensures r !in old(Buffers(S())) && r in Buffers(S())
      ensures Buffers(S()) == old(Buffers(S()))[r := Buffers(S())[r]]
      ensures size <= |Buffers(S())[r]| < size + 32 && |Buffers(S())[r]| == Usable(old(blocks[k].size), size)
    {
      hide Tiles, Encoded, Live, Aligned, Header, Get32, ListOk;
      WordsAt(S(), k);
      if Load(curr) >= (size + HEADER + 16) % TWO32 {
        Split(curr, size, k);
        SplitNoAdjacent(old(blocks), k, blocks[k], blocks[k + 1]);
      } else {
        TakeNoAdjacent(old(blocks), k, blocks[k].(free := false));
      }
      Claim(curr, k);
      r := curr + HEADER;
    }

    /** Cutting `size` payload bytes off the free block `k` at `curr`. */
    method Split(curr: Word, size: Word, ghost k: nat)
      requires ListOk(S()) && k < |blocks| && curr == blocks[k].addr
      requires blocks[k].free && blocks[k].size >= size + 32 && size % 8 == 0
      modifies this`blocks, mem
      ensures ListOk(S()) && Buffers(S()) == old(Buffers(S()))
      ensures
        var rest := Block(curr + HEADER + size, old(blocks[k].size) - size - HEADER, true);
        blocks == Spliced(old(blocks), k, 1, [Block(curr, size, true), rest])
    {
      hide Tiles, Encoded, Live, Aligned, Header, Stored, SameOutside, Get32, ListOk, Buffers;
      ghost var s0, b := S(), blocks[k];
      WordsAt(s0, k);
      var next := curr + HEADER + size;
      WriteHeader(next, Load(curr) - size - HEADER, Load(curr + 4), true);
      ghost var m1 := mem[..];
      Store(curr, size);
      ghost var m2 := mem[..];
      Store(curr + 4, next);
      SplitStores(s0.mem, m1, m2, mem[..], curr, size, next, b.size - size - HEADER, Next(s0.blocks, k), b.End());
      blocks := Spliced(blocks, k, 1, [Block(curr, size, true), Block(next, b.size - size - HEADER, true)]);
      SplitBlock(s0, k, size, S());
    }

    /** Marking the free block `k` at `curr` used. */
    method Claim(curr: Word, ghost k: nat)
      requires ListOk(S()) && k < |blocks| && curr == blocks[k].addr && blocks[k].free
      modifies this`blocks, mem
      ensures ListOk(S()) && blocks == Spliced(old(blocks), k, 1, [old(blocks[k]).(free := false)])
      ensures blocks[k].Payload() !in old(Buffers(S())) && blocks[k].Payload() in Buffers(S())
      ensures Buffers(S()) == old(Buffers(S()))[blocks[k].Payload() := Buffers(S())[blocks[k].Payload()]]
      ensures |Buffers(S())[blocks[k].Payload()]| == blocks[k].size
    {
      hide Tiles, Encoded, Live, Aligned, Header, Stored, SameOutside, Get32, ListOk;
      ghost var s0 := S();
      WordsAt(s0, k);
      Store(curr + 8, 0);
      blocks := Spliced(blocks, k, 1, [blocks[k].(free := false)]);
      TakeBlock(s0, k, S());
    }

    /** The tail of malloc: no block fits, so the break is moved. */
    method Extend(prev: Word, request: Word, willing: bool) returns (r: Word)
      requires WellFormed(S()) && Servable(request) && request != 0
      requires prev == if blocks != [] then blocks[|blocks| - 1].addr else NULL
      requires !SomeFits(blocks, Rounded(request))
      modifies this, mem
      ensures MallocResult(old(S()), request, willing, S(), r)
    {
      var size := Rounded(request);
      var total := (HEADER + size) % TWO32;
      RequestArithmetic(request, brk);
      ghost var s0 := S();
      BlocksInMemory(s0);
      var block := Sbrk(total, willing);
      if block == SBRK_FAILED { return NULL; }
      Append(prev, block, size, s0);
      r := block + HEADER;
    }

    /** A used block of `size` bytes at the old break `a`, linked behind the last block. */
    method Append(prev: Word, a: Word, size: Word, ghost s: State)
      requires WellFormed(s) && s == S().(brk := a) && size % 8 == 0
      requires brk == a + HEADER + size && brk <= mem.Length && brk < TWO32
      requires prev == if blocks != [] then blocks[|blocks| - 1].addr else NULL
      modifies this`freeList, this`blocks, mem
      ensures WellFormed(S()) && a + HEADER !in Buffers(s) && a + HEADER in Buffers(S())
      ensures Buffers(S()) == Buffers(s)[a + HEADER := Buffers(S())[a + HEADER]]
      ensures |Buffers(S())[a + HEADER]| == size
    {
      hide Tiles, Encoded, Live, Aligned, Header, Stored, SameOutside, Get32, Buffers;
      BlocksInMemory(s);
      WriteHeader(a, size, NULL, false);
      ghost var m1 := mem[..];
      if prev != NULL {
        Store(prev + 4, a);
      } else {
        freeList := a;
      }
      blocks := blocks + [Block(a, size, false)];
      AppendBlock(s, size, m1, S());
    }

    method Free(ptr: Word)
      requires WellFormed(S()) && (ptr == NULL || ptr in Buffers(S()) || Foreign(S(), ptr))
      modifies this, mem
      ensures FreeResult(old(S()), ptr, S())
    {
      hide Buffers, Live, Tiles, Encoded, Aligned, Get32;
      ghost var s0 := S();
      LivePointersNonNull(s0);
      if ptr == NULL { return; }
      var block := ptr - HEADER;
      MagicMeansLive(s0, ptr);
      if Load(block + 12) != BLOCK_MAGIC { return; }
      Release(block);
      Coalesce();
    }

    method Release(block: Word)
      requires WellFormed(S()) && block + HEADER in Buffers(S())
      modifies this`blocks, mem
      ensures ListOk(S()) && Buffers(S()) == old(Buffers(S())) - {block + HEADER}
    {
      ghost var s0 := S();
      ghost var k := FindLive(s0, block + HEADER);
      Store(block + 8, 1);
      blocks := Spliced(blocks, k, 1, [blocks[k].(free := true)]);
      ReleaseBlock(s0, k, S());
    }

    /** The merge loop of free: one pass over the whole list. */
    method Coalesce()
      requires ListOk(S())
      modifies this`blocks, mem
      ensures WellFormed(S()) && Buffers(S()) == old(Buffers(S()))
    {
      hide Tiles, Encoded, Live, Aligned, Header, Get32, NoAdjacentUpTo, Buffers;
      var curr := freeList;
      ghost var k := 0;
      StartOfList(blocks);
      if blocks != [] { WordsAt(S(), k); }
      while curr != NULL && Load(curr + 4) != NULL
        invariant ListOk(S()) && Buffers(S()) == old(Buffers(S()))
        invariant if curr == NULL then blocks == [] else k < |blocks| && curr == blocks[k].addr
        invariant curr != NULL ==> curr + HEADER <= mem.Length && (Load(curr + 4) == NULL <==> k + 1 == |blocks|)
        invariant NoAdjacentUpTo(blocks, k)
        decreases |blocks| - k
      {
        WordsAt(S(), k);
        WordsAt(S(), k + 1);
        var next := Load(curr + 4);
        if Load(curr + 8) != 0 && Load(next + 8) != 0 && (curr + HEADER + Load(curr)) % TWO32 == next {
          MergeKeepsPrefix(blocks, k);
          Merge(curr, next, k);
        } else {
          StepKeepsPrefix(blocks, k);
          curr, k := next, k + 1;
        }
        WordsAt(S(), k);
      }
      WholeList(blocks, k);
    }

    method Merge(curr: Word, next: Word, ghost k: nat)
      requires ListOk(S()) && k + 1 < |blocks| && blocks[k].free && blocks[k + 1].free
      requires curr == blocks[k].addr && next == blocks[k + 1].addr
      modifies this`blocks, mem
      ensures ListOk(S()) && Buffers(S()) == old(Buffers(S()))
      ensures blocks == Merged(old(blocks), k)
    {
      hide Tiles, Encoded, Live, Aligned, Header, Stored, SameOutside, Get32, ListOk, Buffers, Merged;
      ghost var s0 := S();
      WordsAt(s0, k);
      WordsAt(s0, k + 1);
      Store(curr, (Load(curr) + HEADER + Load(next)) % TWO32);
      ghost var m1 := mem[..];
      WordFrame(s0.mem, curr, (s0.blocks[k].size + HEADER + s0.blocks[k + 1].size) % TWO32, m1, next + 4);
      Store(curr + 4, Load(next + 4));
      blocks := Merged(blocks, k);
      MergeStores(s0, k, m1, S());
    }

    /** A store by the client, through a live pointer and inside its buffer. */
    method Write(p: Word, off: nat, v: Byte)
      requires WellFormed(S()) && p in Buffers(S()) && off < |Buffers(S())[p]|
      modifies mem
      ensures WriteResult(old(S()), p, off, v, S())
    {
      hide Tiles, Encoded, Live, Aligned, Buffers, ListOk;
      ghost var s0 := S();
      ghost var k := FindLive(s0, p);
      mem[p + off] := v;
      WriteLive(s0, k, off, v, S());
    }

    /** memset(p, 0, n). */
    method Zero(p: Word, n: nat)
      requires WellFormed(S()) && p in Buffers(S()) && n <= |Buffers(S())[p]|
      modifies mem
      ensures WellFormed(S()) && p in Buffers(S())
      ensures Buffers(S()) == old(Buffers(S()))[p := Buffers(S())[p]]
      ensures |Buffers(S())[p]| == |old(Buffers(S())[p])|
      ensures forall j :: 0 <= j < n ==> Buffers(S())[p][j] == 0
      ensures Buffers(S())[p][n..] == old(Buffers(S())[p][n..])
    {
      hide Buffers, ListOk;
      for i := 0 to n
        invariant WellFormed(S()) && p in Buffers(S())
        invariant Buffers(S()) == old(Buffers(S()))[p := Buffers(S())[p]]
        invariant |Buffers(S())[p]| == |old(Buffers(S())[p])|
        invariant forall j :: 0 <= j < i ==> Buffers(S())[p][j] == 0
        invariant Buffers(S())[p][i..] == old(Buffers(S())[p])[i..]
      {
        Write(p, i, 0);
      }
    }

    /** memcpy(dst, src, n) between two live buffers. */
    method Copy(dst: Word, src: Word, n: nat)
      requires WellFormed(S()) && dst in Buffers(S()) && src in Buffers(S()) && dst != src
      requires n <= |Buffers(S())[dst]| && n <= |Buffers(S())[src]|
      modifies mem
      ensures WellFormed(S()) && dst in Buffers(S())
      ensures Buffers(S()) == old(Buffers(S()))[dst := Buffers(S())[dst]]
      ensures |Buffers(S())[dst]| == |old(Buffers(S())[dst])|
      ensures Buffers(S())[dst] == old(Buffers(S())[src][..n] + Buffers(S())[dst][n..])
    {
      hide Buffers, ListOk, Poke;
      for i := 0 to n
        invariant WellFormed(S()) && dst in Buffers(S())
        invariant Buffers(S()) == old(Buffers(S()))[dst := Buffers(S())[dst]]
        invariant |Buffers(S())[dst]| == |old(Buffers(S())[dst])|
        invariant Buffers(S())[dst] == old(Buffers(S())[src])[..i] + old(Buffers(S())[dst])[i..]
      {
        ByteBehind(S(), src, i);
        PokeNext(old(Buffers(S())[src]), old(Buffers(S())[dst]), i);
        Write(dst, i, mem[src + i]);
      }
    }

    method Calloc(nmemb: Word, size: Word, willing: bool) returns (r: Word)
      requires WellFormed(S())
      requires nmemb * size < TWO32 ==> nmemb * size <= 0xFFFF_FFE8
      modifies this, mem
      ensures CallocResult(old(S()), nmemb, size, willing, S(), r)
    {
      hide Buffers, WellFormed, Placed;
      ProductCheck(nmemb, size);
      if nmemb != 0 && size > 0xFFFF_FFFF / nmemb { return NULL; }
      var total := nmemb * size;
      RequestArithmetic(total, 0);
      r := Malloc(total, willing);
      if r != NULL { Zero(r, total); }
    }

    method Realloc(ptr: Word, size: Word, willing: bool) returns (r: Word)
      requires WellFormed(S()) && (ptr == NULL || ptr in Buffers(S()) || Foreign(S(), ptr))
      requires size <= 0xFFFF_FFE8
      modifies this, mem
      ensures ReallocResult(old(S()), ptr, size, willing, S(), r)
    {
      hide Buffers, WellFormed, Placed, Get32;
      ghost var s0 := S();
      if ptr == NULL { r := Malloc(size, willing); return; }
      if size == 0 { Free(ptr); return NULL; }
      var block := ptr - HEADER;
      MagicMeansLive(s0, ptr);
      if Load(block + 12) != BLOCK_MAGIC { return NULL; }
      if Load(block) >= size { return ptr; }
      RequestArithmetic(size, 0);
      r := Malloc(size, willing);
      if r == NULL { return; }
      MagicMeansLive(S(), ptr);
      Copy(r, ptr, Load(block));
      Free(ptr);
    }
  }
}
