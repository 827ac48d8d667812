/**
 The heap state and what each in-place update of the header words does to it.
 */
module HeapState {
  import opened Memory
  import opened HeapLayout

  /** Memory, first and current break, list head, and the blocks the list describes. */
  datatype State = State(mem: seq<Byte>, base: nat, brk: nat, head: nat, blocks: seq<Block>)

  /** The list in memory describes blocks that tile the heap; neighbours may both be free. */
  ghost predicate ListOk(s: State)
  {
    && 16 <= s.base <= s.brk <= |s.mem| <= TWO32 && s.brk < TWO32
    && Tiles(s.blocks, s.base, s.brk)
    && Aligned(s.blocks)
    && Encoded(s.mem, s.blocks)
    && s.head == (if s.blocks == [] then 0 else s.blocks[0].addr)
  }

  ghost predicate WellFormed(s: State)
  {
    ListOk(s) && NoAdjacentFree(s.blocks)
  }

  lemma {:induction false} BlocksInMemory(s: State)
    requires ListOk(s)
    ensures InMemory(s.mem, s.blocks)
    ensures forall i :: 0 <= i < |s.blocks| ==> 16 <= s.blocks[i].addr && s.blocks[i].End() <= s.brk
  {
    TilesBounds(s.blocks, s.base, s.brk);
  }

  /** The client's view of the heap: live pointers and the bytes behind them. */
  ghost function Buffers(s: State): map<nat, seq<Byte>>
    requires ListOk(s)
  {
    BlocksInMemory(s);
    Live(s.mem, s.blocks)
  }

  predicate Fits(b: Block, n: nat) { b.free && b.size >= n }

  // ---------- replacing a stretch of blocks ----------

  /** The blocks with `k..k+n` replaced by `xs`. */
  function Spliced(bs: seq<Block>, k: nat, n: nat, xs: seq<Block>): seq<Block>
    requires k + n <= |bs|
  {
    bs[..k] + xs + bs[k + n..]
  }

  lemma {:induction false} HeaderFrame(m: seq<Byte>, m': seq<Byte>, lo: nat, hi: nat, a: nat, size: nat, next: nat,
                                       free: bool)
    requires SameOutside(m, m', lo, hi) && Header(m, a, size, next, free)
    requires a + HEADER <= lo || hi <= a
    ensures Header(m', a, size, next, free)
  {
  }

  /** New headers in place of the blocks `k..k+n`, the rest of memory untouched. */
  lemma {:induction false} SpliceEncoded(m: seq<Byte>, m': seq<Byte>, bs: seq<Block>, k: nat, n: nat, xs: seq<Block>,
                                         lo: nat, hi: nat)
    requires Tiles(bs, lo, hi) && Encoded(m, bs) && k + n <= |bs| && 0 < n && xs != []
    requires Tiles(xs, bs[k].addr, bs[k + n - 1].End())
    requires SameOutside(m, m', bs[k].addr, bs[k + n - 1].End())
    requires forall j :: k <= j < k + |xs| ==> HeaderAt(m', Spliced(bs, k, n, xs), j)
    ensures Encoded(m', Spliced(bs, k, n, xs))
  {
    var bs' := Spliced(bs, k, n, xs);
    TilesOrdered(bs, lo, hi);
    assert xs[0].addr == bs[k].addr;
    forall j | 0 <= j < |bs'| ensures HeaderAt(m', bs', j) {
      if j < k || k + |xs| <= j {
        var i := if j < k then j else j - |xs| + n;
        assert bs'[j] == bs[i] && Next(bs', j) == Next(bs, i);
        assert HeaderAt(m, bs, i);
        HeaderFrame(m, m', bs[k].addr, bs[k + n - 1].End(), bs[i].addr, bs[i].size, Next(bs, i), bs[i].free);
      }
    }
  }

  lemma {:induction false} SpliceTiles(bs: seq<Block>, lo: nat, hi: nat, k: nat, n: nat, xs: seq<Block>)
    requires Tiles(bs, lo, hi) && k + n <= |bs| && 0 < n
    requires Tiles(xs, bs[k].addr, bs[k + n - 1].End())
    ensures Tiles(bs[..k], lo, bs[k].addr) && Tiles(bs[k + n..], bs[k + n - 1].End(), hi)
    ensures Tiles(Spliced(bs, k, n, xs), lo, hi)
  {
    TilesCut(bs, lo, hi, k);
    TilesCut(bs, lo, hi, k + n - 1);
    TilesConcat(bs[..k], xs, lo, bs[k].addr, bs[k + n - 1].End());
    TilesConcat(bs[..k] + xs, bs[k + n..], lo, bs[k + n - 1].End(), hi);
  }

  /** Live allocations outside the blocks `k..k+n`. */
  ghost function Rest(s: State, k: nat, n: nat): map<nat, seq<Byte>>
    requires ListOk(s) && k + n <= |s.blocks|
  {
    BlocksInMemory(s);
    Live(s.mem, s.blocks[k + n..]) + Live(s.mem, s.blocks[..k])
  }

  lemma {:induction false} LiveOfThree(m: seq<Byte>, a: seq<Block>, xs: seq<Block>, b: seq<Block>,
                                       lo: nat, x: nat, y: nat, hi: nat)
    requires Tiles(a, lo, x) && Tiles(xs, x, y) && Tiles(b, y, hi) && hi <= |m|
    ensures InMemory(m, a) && InMemory(m, xs) && InMemory(m, b) && InMemory(m, a + xs + b)
    ensures Live(m, a + xs + b) == Live(m, b) + Live(m, a) + Live(m, xs)
    ensures forall p :: p in Live(m, b) + Live(m, a) ==> p <= x || y < p
    ensures forall p :: p in Live(m, xs) ==> x < p <= y
  {
    hide Live, Tiles;
    TilesBounds(a, lo, x);
    TilesBounds(xs, x, y);
    TilesBounds(b, y, hi);
    LiveKeys(m, a, lo, x);
    LiveKeys(m, xs, x, y);
    LiveKeys(m, b, y, hi);
    LiveConcat(m, a, xs);
    LiveConcat(m, a + xs, b);
  }

  /**
   The one step all operations share: a stretch of blocks is rewritten in place. The list stays sound
   and the live allocations outside the stretch keep their bytes.
   */
  lemma {:induction false} Splice(s: State, k: nat, n: nat, xs: seq<Block>, s': State)
    requires ListOk(s) && k + n <= |s.blocks| && 0 < n && xs != [] && Aligned(xs)
    requires Tiles(xs, s.blocks[k].addr, s.blocks[k + n - 1].End())
    requires SameOutside(s.mem, s'.mem, s.blocks[k].addr, s.blocks[k + n - 1].End())
    requires s' == s.(mem := s'.mem, blocks := Spliced(s.blocks, k, n, xs))
    requires forall j :: k <= j < k + |xs| ==> HeaderAt(s'.mem, s'.blocks, j)
    ensures ListOk(s')
    ensures InMemory(s.mem, s.blocks[k..k + n]) && InMemory(s'.mem, xs)
    ensures Buffers(s) == Rest(s, k, n) + Live(s.mem, s.blocks[k..k + n])
    ensures Buffers(s') == Rest(s, k, n) + Live(s'.mem, xs)
    ensures forall p :: p in Rest(s, k, n) ==> p <= s.blocks[k].addr || s.blocks[k + n - 1].End() < p
  {
    hide Live, Tiles, Encoded, HeaderAt;
    var bs, lo, hi := s.blocks, s.blocks[k].addr, s.blocks[k + n - 1].End();
    BlocksInMemory(s);
    TilesFirst(xs, lo, hi);
    SpliceTiles(bs, s.base, s.brk, k, n, xs);
    SpliceEncoded(s.mem, s'.mem, bs, k, n, xs, s.base, s.brk);
    assert ListOk(s');
    SpliceMid(bs, s.base, s.brk, k, n);
    LiveOfThree(s.mem, bs[..k], bs[k..k + n], bs[k + n..], s.base, lo, hi, s.brk);
    LiveOfThree(s'.mem, bs[..k], xs, bs[k + n..], s.base, lo, hi, s.brk);
    assert bs == bs[..k] + bs[k..k + n] + bs[k + n..];
    OthersUntouched(s, k, n, s'.mem);
  }

  lemma {:induction false} SpliceMid(bs: seq<Block>, lo: nat, hi: nat, k: nat, n: nat)
    requires Tiles(bs, lo, hi) && k + n <= |bs| && 0 < n
    ensures Tiles(bs[k..k + n], bs[k].addr, bs[k + n - 1].End())
  {
    hide Tiles;
    TilesCut(bs, lo, hi, k);
    TilesCut(bs[k..], bs[k].addr, hi, n - 1);
    assert bs[k..][..n - 1] == bs[k..k + n - 1] && bs[k..][n - 1] == bs[k + n - 1];
    TilesOne(bs[k + n - 1]);
    TilesConcat(bs[k..k + n - 1], [bs[k + n - 1]], bs[k].addr, bs[k + n - 1].addr, bs[k + n - 1].End());
    assert bs[k..k + n] == bs[k..k + n - 1] + [bs[k + n - 1]];
  }

  /** Writing inside blocks `k..k+n` leaves the live bytes before and after them alone. */
  lemma {:induction false} OthersUntouched(s: State, k: nat, n: nat, m': seq<Byte>)
    requires ListOk(s) && k + n <= |s.blocks| && 0 < n
    requires SameOutside(s.mem, m', s.blocks[k].addr, s.blocks[k + n - 1].End())
    ensures InMemory(m', s.blocks[..k]) && InMemory(m', s.blocks[k + n..])
    ensures InMemory(s.mem, s.blocks[..k]) && InMemory(s.mem, s.blocks[k + n..])
    ensures Live(m', s.blocks[..k]) == Live(s.mem, s.blocks[..k])
    ensures Live(m', s.blocks[k + n..]) == Live(s.mem, s.blocks[k + n..])
  {
    BlocksInMemory(s);
    TilesOrdered(s.blocks, s.base, s.brk);
    LiveFrame(s.mem, m', s.blocks[..k]);
    LiveFrame(s.mem, m', s.blocks[k + n..]);
  }

  // ---------- the four list updates ----------

  /** Marking block `k` free drops it from the client's view. */
  lemma {:induction false} ReleaseBlock(s: State, k: nat, s': State)
    requires ListOk(s) && k < |s.blocks| && !s.blocks[k].free
    requires s.blocks[k].End() <= |s.mem| && Stored(s.mem, s.blocks[k].addr + 8, 1, s'.mem)
    requires s' == s.(mem := s'.mem, blocks := Spliced(s.blocks, k, 1, [s.blocks[k].(free := true)]))
    ensures ListOk(s') && Buffers(s') == Buffers(s) - {s.blocks[k].Payload()}
  {
    hide Live, Tiles;
    var b := s.blocks[k];
    assert HeaderAt(s.mem, s.blocks, k);
    assert HeaderAt(s'.mem, s'.blocks, k);
    TilesOne(b.(free := true));
    Splice(s, k, 1, [b.(free := true)], s');
    assert s.blocks[k..k + 1] == [b];
    LiveOne(s.mem, b);
    LiveOne(s'.mem, b.(free := true));
  }

  /** Marking free block `k` used hands its payload to the client. */
  lemma {:induction false} TakeBlock(s: State, k: nat, s': State)
    requires ListOk(s) && k < |s.blocks| && s.blocks[k].free
    requires s.blocks[k].End() <= |s.mem| && Stored(s.mem, s.blocks[k].addr + 8, 0, s'.mem)
    requires s' == s.(mem := s'.mem, blocks := Spliced(s.blocks, k, 1, [s.blocks[k].(free := false)]))
    ensures ListOk(s') && s.blocks[k].Payload() !in Buffers(s)
    ensures Buffers(s') == Buffers(s)[s.blocks[k].Payload() := s.mem[s.blocks[k].Payload()..s.blocks[k].End()]]
  {
    hide Live, Tiles;
    var b := s.blocks[k];
    assert HeaderAt(s.mem, s.blocks, k);
    assert HeaderAt(s'.mem, s'.blocks, k);
    TilesOne(b.(free := false));
    Splice(s, k, 1, [b.(free := false)], s');
    assert s.blocks[k..k + 1] == [b];
    LiveOne(s.mem, b);
    assert s'.mem[b.Payload()..b.End()] == s.mem[b.Payload()..b.End()];
    LiveOne(s'.mem, b.(free := false));
  }

  /** Multiples of 8 are closed under the size arithmetic of splitting and merging. */
  lemma SizeArithmetic(a: int, n: int)
    requires a % 8 == 0 && n % 8 == 0
    ensures (a - n - HEADER) % 8 == 0 && (a + HEADER + n) % 8 == 0
  {
    assert a - n - HEADER == 8 * (a / 8 - n / 8 - 2);
    assert a + HEADER + n == 8 * (a / 8 + n / 8 + 2);
  }

  /** Cutting free block `k` after `n` payload bytes. */
  lemma {:induction false} SplitBlock(s: State, k: nat, n: nat, s': State)
    requires ListOk(s) && k < |s.blocks| && s.blocks[k].free && n % 8 == 0
    requires s.blocks[k].size >= n + 32
    requires
      var b := s.blocks[k];
      var y := b.addr + HEADER + n;
      && SameOutside(s.mem, s'.mem, b.addr, b.End())
      && Header(s'.mem, b.addr, n, y, true)
      && Header(s'.mem, y, b.size - n - HEADER, Next(s.blocks, k), true)
      && s' == s.(mem := s'.mem,
                  blocks := Spliced(s.blocks, k, 1, [Block(b.addr, n, true), Block(y, b.size - n - HEADER, true)]))
    ensures ListOk(s') && Buffers(s') == Buffers(s)
  {
    hide Live, Tiles, Get32;
    var b := s.blocks[k];
    var x, y := Block(b.addr, n, true), Block(b.addr + HEADER + n, b.size - n - HEADER, true);
    SizeArithmetic(b.size, n);
    assert Aligned([x, y]);
    TilesOne(x);
    TilesOne(y);
    TilesConcat([x], [y], x.addr, y.addr, y.End());
    assert [x] + [y] == [x, y];
    assert HeaderAt(s'.mem, s'.blocks, k);
    assert HeaderAt(s'.mem, s'.blocks, k + 1);
    Splice(s, k, 1, [x, y], s');
    LiveAllFree(s.mem, s.blocks[k..k + 1]);
    LiveAllFree(s'.mem, [x, y]);
  }

  /** Free block `k` absorbs its free right neighbour. */
  lemma {:induction false} MergeBlocks(s: State, k: nat, s': State)
    requires ListOk(s) && k + 1 < |s.blocks| && s.blocks[k].free && s.blocks[k + 1].free
    requires
      var b, c := s.blocks[k], s.blocks[k + 1];
      && SameOutside(s.mem, s'.mem, b.addr, c.End())
      && Header(s'.mem, b.addr, b.size + HEADER + c.size, Next(s.blocks, k + 1), true)
      && s' == s.(mem := s'.mem,
                  blocks := Spliced(s.blocks, k, 2, [Block(b.addr, b.size + HEADER + c.size, true)]))
    ensures ListOk(s') && Buffers(s') == Buffers(s)
  {
    hide Live, Tiles, Get32;
    var b, c := s.blocks[k], s.blocks[k + 1];
    var x := Block(b.addr, b.size + HEADER + c.size, true);
    SizeArithmetic(b.size, c.size);
    assert Aligned([x]);
    TilesOne(x);
    TilesNeighbour(s.blocks, s.base, s.brk, k);
    assert HeaderAt(s'.mem, s'.blocks, k);
    Splice(s, k, 2, [x], s');
    LiveAllFree(s.mem, s.blocks[k..k + 2]);
    LiveAllFree(s'.mem, [x]);
  }

  /** A fresh block of `n` bytes at the old break is linked behind the last one; `m1` is memory before the link. */
  ghost predicate Appended(s: State, n: nat, m1: seq<Byte>, s': State)
    requires ListOk(s)
  {
    var bs := s.blocks;
    && n % 8 == 0 && s.brk + HEADER + n <= |s.mem| && s.brk + HEADER + n < TWO32
    && SameOutside(s.mem, m1, s.brk, s.brk + HEADER) && Header(m1, s.brk, n, 0, false)
    && (bs == [] ==> s'.mem == m1)
    && (bs != [] ==> bs[|bs| - 1].addr + 8 <= |m1| && Stored(m1, bs[|bs| - 1].addr + 4, s.brk, s'.mem))
    && s' == State(s'.mem, s.base, s.brk + HEADER + n, if bs == [] then s.brk else s.head,
                   bs + [Block(s.brk, n, false)])
  }

  /** Only the link word of the last block changes below the old break. */
  ghost predicate OnlyLinkChanged(s: State, m': seq<Byte>)
    requires s.brk <= |s.mem|
  {
    && |m'| == |s.mem|
    && forall i :: 0 <= i < s.brk ==>
                     m'[i] == s.mem[i] ||
                     (s.blocks != [] && s.blocks[|s.blocks| - 1].addr + 4 <= i < s.blocks[|s.blocks| - 1].addr + 8)
  }

  /** The list stays sound and gains exactly one allocation. */
  lemma {:induction false} AppendBlock(s: State, n: nat, m1: seq<Byte>, s': State)
    requires ListOk(s) && Appended(s, n, m1, s')
    ensures ListOk(s')
    ensures s.brk + HEADER !in Buffers(s)
    ensures s.brk + HEADER in Buffers(s') && |Buffers(s')[s.brk + HEADER]| == n
    ensures Buffers(s') == Buffers(s)[s.brk + HEADER := Buffers(s')[s.brk + HEADER]]
  {
    hide Live, Aligned, Tiles, Encoded, OnlyLinkChanged, Header, Stored, SameOutside;
    AppendKeepsList(s, n, m1, s');
    AppendLive(s, s'.mem, Block(s.brk, n, false));
  }

  lemma {:induction false} AppendKeepsList(s: State, n: nat, m1: seq<Byte>, s': State)
    requires ListOk(s) && Appended(s, n, m1, s')
    ensures ListOk(s') && OnlyLinkChanged(s, s'.mem)
  {
    hide Aligned, Tiles, Encoded;
    var bs, b := s.blocks, Block(s.brk, n, false);
    BlocksInMemory(s);
    AppendTiles(s, b);
    if bs != [] { HeaderFrame(m1, s'.mem, bs[|bs| - 1].addr + 4, bs[|bs| - 1].addr + 8, s.brk, n, 0, false); }
    AppendEncoded(s, s', b);
  }

  lemma {:induction false} AppendTiles(s: State, b: Block)
    requires ListOk(s) && b.addr == s.brk && b.size % 8 == 0
    ensures Tiles(s.blocks + [b], s.base, b.End()) && Aligned(s.blocks + [b])
  {
    assert Tiles([b], s.brk, b.End());
    TilesConcat(s.blocks, [b], s.base, s.brk, b.End());
  }

  /** Every payload below the old break keeps its bytes. */
  lemma {:induction false} PayloadsKept(s: State, m': seq<Byte>, i: nat)
    requires ListOk(s) && OnlyLinkChanged(s, m') && i < |s.blocks|
    ensures s.blocks[i].End() <= s.brk
    ensures m'[s.blocks[i].Payload()..s.blocks[i].End()] == s.mem[s.blocks[i].Payload()..s.blocks[i].End()]
  {
    hide Tiles, Encoded, Aligned;
    BlocksInMemory(s);
    TilesOrdered(s.blocks, s.base, s.brk);
    if i < |s.blocks| - 1 { assert s.blocks[i].End() <= s.blocks[|s.blocks| - 1].addr; }
  }

  lemma {:induction false} AppendLive(s: State, m': seq<Byte>, b: Block)
    requires ListOk(s) && OnlyLinkChanged(s, m') && b.addr == s.brk && b.End() <= |s.mem| && !b.free
    ensures InMemory(m', s.blocks + [b])
    ensures b.Payload() !in Buffers(s)
    ensures Live(m', s.blocks + [b]) == Buffers(s)[b.Payload() := m'[b.Payload()..b.End()]]
  {
    hide Live, Tiles, Encoded, Aligned;
    var bs := s.blocks;
    BlocksInMemory(s);
    forall i | 0 <= i < |bs|
      ensures m'[bs[i].Payload()..bs[i].End()] == s.mem[bs[i].Payload()..bs[i].End()]
    {
      PayloadsKept(s, m', i);
    }
    LiveFrame(s.mem, m', bs);
    LiveKeys(s.mem, bs, s.base, s.brk);
    LiveConcat(m', bs, [b]);
    LiveOne(m', b);
  }

  lemma {:induction false} WordKept(s: State, m': seq<Byte>, a: nat)
    requires s.brk <= |s.mem| && OnlyLinkChanged(s, m') && a + 4 <= s.brk
    requires s.blocks == [] || a + 4 <= s.blocks[|s.blocks| - 1].addr + 4 || s.blocks[|s.blocks| - 1].addr + 8 <= a
    ensures Get32(m', a) == Get32(s.mem, a)
  {
    assert m'[a] == s.mem[a] && m'[a + 1] == s.mem[a + 1] && m'[a + 2] == s.mem[a + 2] && m'[a + 3] == s.mem[a + 3];
  }

  /** The headers in front keep their words, up to the link of the last one. */
  lemma {:induction false} HeaderKept(s: State, m': seq<Byte>, j: nat)
    requires ListOk(s) && OnlyLinkChanged(s, m') && j < |s.blocks|
    ensures s.blocks[j].addr + HEADER <= |m'|
    ensures j < |s.blocks| - 1 ==> HeaderAt(m', s.blocks, j)
    ensures Header(m', s.blocks[j].addr, s.blocks[j].size, Get32(m', s.blocks[j].addr + 4), s.blocks[j].free)
  {
    hide Tiles, Aligned, Get32, OnlyLinkChanged;
    var a := s.blocks[j].addr;
    BlocksInMemory(s);
    TilesOrdered(s.blocks, s.base, s.brk);
    LengthKept(s, m');
    assert HeaderAt(s.mem, s.blocks, j);
    if j < |s.blocks| - 1 {
      assert s.blocks[j].End() <= s.blocks[|s.blocks| - 1].addr;
      WordKept(s, m', a + 4);
    }
    WordKept(s, m', a);
    WordKept(s, m', a + 8);
    WordKept(s, m', a + 12);
  }

  lemma LengthKept(s: State, m': seq<Byte>)
    requires s.brk <= |s.mem| && OnlyLinkChanged(s, m')
    ensures |m'| == |s.mem|
  {
  }

  lemma {:induction false} AppendEncoded(s: State, s': State, b: Block)
    requires ListOk(s) && OnlyLinkChanged(s, s'.mem) && b.addr == s.brk && s'.blocks == s.blocks + [b]
    requires Header(s'.mem, b.addr, b.size, 0, b.free)
    requires
      var bs := s.blocks;
      bs != [] ==> bs[|bs| - 1].addr + 8 <= |s'.mem| && Get32(s'.mem, bs[|bs| - 1].addr + 4) == s.brk
    ensures Encoded(s'.mem, s'.blocks)
  {
    hide ListOk, OnlyLinkChanged, Get32, Header;
    forall j | 0 <= j < |s'.blocks| ensures HeaderAt(s'.mem, s'.blocks, j) {
      if j < |s.blocks| { HeaderKept(s, s'.mem, j); }
    }
  }
}
