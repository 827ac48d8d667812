/** Flat byte memory of a 32-bit little-endian machine. */
module Memory {

  type Byte = b: int | 0 <= b < 256

  const TWO32: int := 0x1_0000_0000

  type Word = w: int | 0 <= w < 0x1_0000_0000

  /** The 32-bit value stored at byte address `a`. */
  function Get32(m: seq<Byte>, a: nat): (w: Word)
    requires a + 4 <= |m|
  {
    m[a] as int + 0x100 * (m[a + 1] as int) + 0x1_0000 * (m[a + 2] as int) + 0x100_0000 * (m[a + 3] as int)
  }

  /** `m` with the byte at `a` set to `v`. */
  function Poke(m: seq<Byte>, a: nat, v: Byte): seq<Byte>
    requires a < |m|
  {
    m[a := v]
  }

  /** `m'` is `m` after the word `w` has been stored at byte address `a`. */
  ghost predicate Stored(m: seq<Byte>, a: nat, w: Word, m': seq<Byte>)
    requires a + 4 <= |m|
  {
    SameOutside(m, m', a, a + 4) && Get32(m', a) == w
  }

  /** `m'` differs from `m` at most in the bytes `lo..hi`. */
  ghost predicate SameOutside(m: seq<Byte>, m': seq<Byte>, lo: int, hi: int)
  {
    |m'| == |m| && forall i :: 0 <= i < |m| && (i < lo || hi <= i) ==> m'[i] == m[i]
  }

  /** A 32-bit `long` read from its bit pattern. */
  function Signed(w: Word): (v: int)
    ensures -0x8000_0000 <= v < 0x8000_0000
    ensures v % TWO32 == w
  {
    if w < 0x8000_0000 then w else w - TWO32
  }

  function Pow2(k: nat): (p: nat)
    ensures p > 0
  {
    if k == 0 then 1 else 2 * Pow2(k - 1)
  }
}
