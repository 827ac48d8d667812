/**
 The block list of the allocator, seen as a sequence of blocks: tiling of the heap,
 the headers stored in memory, and the map of live allocations.
 */
module HeapLayout {
  import opened Memory

  const HEADER: nat := 16
  const BLOCK_MAGIC: Word := 0x4C42_5344

  /** A header at `addr` followed by `size` payload bytes. */
  datatype Block = Block(addr: nat, size: nat, free: bool) {
    function Payload(): nat { addr + HEADER }
    function End(): nat { Payload() + size }
  }

  /** The blocks lie one after the other and fill `lo..hi` exactly. */
  ghost predicate Tiles(bs: seq<Block>, lo: nat, hi: nat)
  {
    if bs == [] then lo == hi
    else bs[0].addr == lo && Tiles(bs[1..], bs[0].End(), hi)
  }

  ghost predicate NoAdjacentFree(bs: seq<Block>)
  {
    forall i, j :: 0 <= i < j < |bs| && j == i + 1 ==> !(bs[i].free && bs[j].free)
  }

  ghost predicate Aligned(bs: seq<Block>)
  {
    forall i :: 0 <= i < |bs| ==> bs[i].size % 8 == 0
  }

  function Next(bs: seq<Block>, i: nat): nat
    requires i < |bs|
  {
    if i + 1 < |bs| then bs[i + 1].addr else 0
  }

  /** A block header: four consecutive words. */
  ghost predicate Header(m: seq<Byte>, a: nat, size: nat, next: nat, free: bool)
  {
    && a + HEADER <= |m|
    && Get32(m, a) == size
    && Get32(m, a + 4) == next
    && Get32(m, a + 8) == (if free then 1 else 0)
    && Get32(m, a + 12) == BLOCK_MAGIC
  }

  ghost predicate HeaderAt(m: seq<Byte>, bs: seq<Block>, i: nat)
    requires i < |bs|
  {
    Header(m, bs[i].addr, bs[i].size, Next(bs, i), bs[i].free)
  }

  ghost predicate Encoded(m: seq<Byte>, bs: seq<Block>)
  {
    forall i :: 0 <= i < |bs| ==> HeaderAt(m, bs, i)
  }

  ghost predicate InMemory(m: seq<Byte>, bs: seq<Block>)
  {
    forall i :: 0 <= i < |bs| ==> bs[i].End() <= |m|
  }

  /** Live allocations: payload address to payload bytes. */
  ghost function Live(m: seq<Byte>, bs: seq<Block>): map<nat, seq<Byte>>
    requires InMemory(m, bs)
  {
    if bs == [] then map[]
    else if bs[0].free then Live(m, bs[1..])
    else
      var b := bs[0];
      assert b.End() <= |m|;
      Live(m, bs[1..])[b.Payload() := m[b.Payload()..b.End()]]
  }

  /** Bytes taken by the blocks, headers included. */
  ghost function Footprint(bs: seq<Block>): nat
  {
    if bs == [] then 0 else HEADER + bs[0].size + Footprint(bs[1..])
  }

  // ---------- tiling ----------

  lemma TilesFirst(bs: seq<Block>, lo: nat, hi: nat)
    requires Tiles(bs, lo, hi) && bs != []
    ensures bs[0].addr == lo
  {
  }

  lemma TilesOne(b: Block)
    ensures Tiles([b], b.addr, b.End())
  {
  }

  lemma {:induction false} TilesConcat(a: seq<Block>, b: seq<Block>, lo: nat, mid: nat, hi: nat)
    requires Tiles(a, lo, mid) && Tiles(b, mid, hi)
    ensures Tiles(a + b, lo, hi)
  {
    if a == [] {
      assert a + b == b;
    } else {
      TilesConcat(a[1..], b, a[0].End(), mid, hi);
      assert (a + b)[1..] == a[1..] + b;
    }
  }

  /** Cutting a tiling before block `k`. */
  lemma {:induction false} TilesCut(bs: seq<Block>, lo: nat, hi: nat, k: nat)
    requires Tiles(bs, lo, hi) && k < |bs|
    ensures Tiles(bs[..k], lo, bs[k].addr)
    ensures Tiles(bs[k..], bs[k].addr, hi)
    ensures Tiles(bs[k + 1..], bs[k].End(), hi)
  {
    if k == 0 {
      assert bs[0..] == bs;
    } else {
      TilesCut(bs[1..], bs[0].End(), hi, k - 1);
      assert bs[1..][..k - 1] == bs[..k][1..];
      assert bs[1..][k - 1..] == bs[k..];
      assert bs[1..][k..] == bs[k + 1..];
    }
  }

  lemma {:induction false} TilesBounds(bs: seq<Block>, lo: nat, hi: nat)
    requires Tiles(bs, lo, hi)
    ensures lo <= hi
    ensures forall i :: 0 <= i < |bs| ==> lo <= bs[i].addr && bs[i].End() <= hi
  {
    if bs != [] {
      TilesBounds(bs[1..], bs[0].End(), hi);
      forall i | 0 <= i < |bs| ensures lo <= bs[i].addr && bs[i].End() <= hi {
        if i > 0 { assert bs[i] == bs[1..][i - 1]; }
      }
    }
  }

  /** The list is strictly address-ordered and no two blocks overlap. */
  lemma {:induction false} TilesOrdered(bs: seq<Block>, lo: nat, hi: nat)
    requires Tiles(bs, lo, hi)
    ensures forall i, j :: 0 <= i < j < |bs| ==> bs[i].End() <= bs[j].addr
  {
    forall i, j | 0 <= i < j < |bs| ensures bs[i].End() <= bs[j].addr {
      TilesCut(bs, lo, hi, i);
      TilesBounds(bs[i + 1..], bs[i].End(), hi);
      assert bs[j] == bs[i + 1..][j - i - 1];
    }
  }

  lemma {:induction false} TilesNeighbour(bs: seq<Block>, lo: nat, hi: nat, k: nat)
    requires Tiles(bs, lo, hi) && k < |bs|
    ensures bs[k].End() == if k + 1 < |bs| then bs[k + 1].addr else hi
  {
    TilesCut(bs, lo, hi, k);
    if k + 1 < |bs| { assert bs[k + 1..][0] == bs[k + 1]; }
  }

  lemma {:induction false} TilesFootprint(bs: seq<Block>, lo: nat, hi: nat)
    requires Tiles(bs, lo, hi)
    ensures Footprint(bs) == hi - lo
  {
    if bs != [] { TilesFootprint(bs[1..], bs[0].End(), hi); }
  }

  // ---------- live allocations ----------

  lemma {:induction false} LiveAllFree(m: seq<Byte>, bs: seq<Block>)
    requires InMemory(m, bs) && forall i :: 0 <= i < |bs| ==> bs[i].free
    ensures Live(m, bs) == map[]
  {
    if bs != [] { LiveAllFree(m, bs[1..]); }
  }

  lemma LiveOne(m: seq<Byte>, b: Block)
    requires b.End() <= |m|
    ensures Live(m, [b]) == if b.free then map[] else map[b.Payload() := m[b.Payload()..b.End()]]
  {
  }

  lemma {:induction false} LiveConcat(m: seq<Byte>, a: seq<Block>, b: seq<Block>)
    requires InMemory(m, a) && InMemory(m, b)
    ensures InMemory(m, a + b)
    ensures Live(m, a + b) == Live(m, b) + Live(m, a)
  {
    if a == [] {
      assert a + b == b;
    } else {
      assert (a + b)[1..] == a[1..] + b;
      LiveConcat(m, a[1..], b);
    }
  }

  lemma {:induction false} LiveKeys(m: seq<Byte>, bs: seq<Block>, lo: nat, hi: nat)
    requires InMemory(m, bs) && Tiles(bs, lo, hi)
    ensures forall p :: p in Live(m, bs) ==> lo + HEADER <= p <= hi
  {
    if bs != [] {
      LiveKeys(m, bs[1..], bs[0].End(), hi);
      TilesBounds(bs, lo, hi);
    }
  }

  /** The live map depends only on the bytes of live payloads. */
  lemma {:induction false} LiveFrame(m: seq<Byte>, m': seq<Byte>, bs: seq<Block>)
    requires |m'| == |m| && InMemory(m, bs)
    requires forall i :: 0 <= i < |bs| && !bs[i].free ==>
                           m'[bs[i].Payload()..bs[i].End()] == m[bs[i].Payload()..bs[i].End()]
    ensures Live(m', bs) == Live(m, bs)
  {
    if bs != [] {
      assert forall i :: 0 <= i < |bs| - 1 ==> bs[1..][i] == bs[i + 1];
      LiveFrame(m, m', bs[1..]);
    }
  }

  /** Live pointers are exactly the payload addresses of blocks in use. */
  lemma {:induction false} LiveLookup(m: seq<Byte>, bs: seq<Block>, lo: nat, hi: nat, p: nat)
    requires Tiles(bs, lo, hi) && InMemory(m, bs)
    ensures p in Live(m, bs) <==> exists i :: 0 <= i < |bs| && !bs[i].free && bs[i].Payload() == p
    ensures forall i :: 0 <= i < |bs| && !bs[i].free && bs[i].Payload() == p ==>
                          p in Live(m, bs) && Live(m, bs)[p] == m[p..bs[i].End()]
  {
    if bs != [] {
      LiveLookup(m, bs[1..], bs[0].End(), hi, p);
      LiveKeys(m, bs[1..], bs[0].End(), hi);
      assert forall i :: 0 < i < |bs| ==> bs[i] == bs[1..][i - 1];
      assert forall i :: 0 <= i < |bs| - 1 ==> bs[1..][i] == bs[i + 1];
      TilesOrdered(bs, lo, hi);
    }
  }

  // ---------- free space is canonical ----------

  /** Two lists describe the same allocations. */
  ghost predicate SameInUse(cs: seq<Block>, bs: seq<Block>)
  {
    forall x: Block :: !x.free ==> (x in cs <==> x in bs)
  }

  lemma {:induction false} FirstBlocksAgree(cs: seq<Block>, bs: seq<Block>, lo: nat, hi: nat)
    requires Tiles(cs, lo, hi) && Tiles(bs, lo, hi) && cs != [] && bs != []
    requires NoAdjacentFree(cs) && SameInUse(cs, bs)
    ensures cs[0] == bs[0] || bs[0].End() <= cs[0].End()
    ensures !cs[0].free ==> cs[0] == bs[0]
  {
    TilesOrdered(cs, lo, hi);
    TilesOrdered(bs, lo, hi);
    if !cs[0].free {
      assert cs[0] in bs;
    } else if cs[0].End() < bs[0].End() {
      TilesBounds(bs, lo, hi);
      TilesNeighbour(cs, lo, hi, 0);
      assert false;
    }
  }

  lemma SameInUseSymmetric(cs: seq<Block>, bs: seq<Block>)
    requires SameInUse(cs, bs)
    ensures SameInUse(bs, cs)
  {
  }

  lemma {:induction false} FirstApart(bs: seq<Block>, lo: nat, hi: nat, x: Block)
    requires Tiles(bs, lo, hi) && bs != []
    ensures x in bs[1..] <==> x in bs && x != bs[0]
  {
    TilesBounds(bs[1..], bs[0].End(), hi);
    assert bs == [bs[0]] + bs[1..];
  }

  /** Equal first blocks can be taken off. */
  lemma {:induction false} RestInUse(cs: seq<Block>, bs: seq<Block>, lo: nat, hi: nat)
    requires Tiles(cs, lo, hi) && Tiles(bs, lo, hi) && cs != [] && bs != [] && cs[0] == bs[0]
    requires SameInUse(cs, bs)
    ensures SameInUse(cs[1..], bs[1..])
  {
    forall x: Block | !x.free ensures x in cs[1..] <==> x in bs[1..] {
      FirstApart(cs, lo, hi, x);
      FirstApart(bs, lo, hi, x);
    }
  }

  /**
   Between the allocations in use there is exactly one way to lay out coalesced free blocks:
   the block list is a function of the break and of the live blocks, whatever the history.
   */
  lemma {:induction false} CanonicalLayout(cs: seq<Block>, bs: seq<Block>, lo: nat, hi: nat)
    requires Tiles(cs, lo, hi) && Tiles(bs, lo, hi)
    requires NoAdjacentFree(cs) && NoAdjacentFree(bs) && SameInUse(cs, bs)
    ensures cs == bs
  {
    hide SameInUse;
    if cs == [] || bs == [] {
      TilesBounds(cs, lo, hi);
      TilesBounds(bs, lo, hi);
    } else {
      SameInUseSymmetric(cs, bs);
      FirstBlocksAgree(cs, bs, lo, hi);
      FirstBlocksAgree(bs, cs, lo, hi);
      RestInUse(cs, bs, lo, hi);
      CanonicalLayout(cs[1..], bs[1..], cs[0].End(), hi);
      assert cs == [cs[0]] + cs[1..] && bs == [bs[0]] + bs[1..];
    }
  }
}
