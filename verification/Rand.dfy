/** rand: a 32-bit linear congruential generator with full period. */
module Rand {
  import opened Memory

  const MULTIPLIER: int := 1103515245
  const INCREMENT: int := 12345
  const RAND_MAX: int := 32767

  function Step(x: Word): Word
  {
    (x * MULTIPLIER + INCREMENT) % TWO32
  }

  function Output(x: Word): (r: int)
    ensures 0 <= r <= RAND_MAX
  {
    x / 65536 % (RAND_MAX + 1)
  }

  class Generator {
    var nextRand: Word

    constructor ()
      ensures nextRand == 1
    {
      nextRand := 1;
    }

    method Srand(seed: Word)
      modifies this
      ensures nextRand == seed
    {
      nextRand := seed;
    }

    /** The `n`-th call after seeding with `seed` returns the output of the `n`-th state. */
    method Rand(ghost seed: Word, ghost n: nat) returns (r: int)
      requires nextRand == State(n, seed)
      modifies this
      ensures nextRand == State(n + 1, seed) && r == Output(nextRand)
    {
      nextRand := (nextRand * MULTIPLIER + INCREMENT) % TWO32;
      r := nextRand / 65536 % (RAND_MAX + 1);
    }
  }

  /** The state `n` steps after `x`. */
  function State(n: nat, x: Word): Word
  {
    if n == 0 then x else Step(State(n - 1, x))
  }

  // ---------- the n-fold step is affine ----------

  function Factor(n: nat): int
  {
    if n == 0 then 1 else MULTIPLIER * Factor(n - 1)
  }

  function Offset(n: nat): int
  {
    if n == 0 then 0 else MULTIPLIER * Offset(n - 1) + INCREMENT
  }

  lemma ModStep(s: int, q: int)
    ensures (MULTIPLIER * (s + TWO32 * q) + INCREMENT) % TWO32 == (MULTIPLIER * s + INCREMENT) % TWO32
  {
    var a := MULTIPLIER * s + INCREMENT;
    assert MULTIPLIER * (s + TWO32 * q) + INCREMENT == a + TWO32 * (MULTIPLIER * q);
    ModShift(a, MULTIPLIER * q);
  }

  lemma ModShift(a: int, q: int)
    ensures (a + TWO32 * q) % TWO32 == a % TWO32
  {
    var d, r := a / TWO32, a % TWO32;
    assert a + TWO32 * q == TWO32 * (d + q) + r;
  }

  lemma {:induction false} StateIsAffine(n: nat, x: Word)
    ensures State(n, x) == (Factor(n) * x + Offset(n)) % TWO32
  {
    if n > 0 {
      StateIsAffine(n - 1, x);
      var y := Factor(n - 1) * x + Offset(n - 1);
      var q := y / TWO32;
      assert y == y % TWO32 + TWO32 * q;
      ModStep(y % TWO32, q);
      AffineStep(n, x);
    }
  }

  lemma AffineStep(n: nat, x: int)
    requires n > 0
    ensures MULTIPLIER * (Factor(n - 1) * x + Offset(n - 1)) + INCREMENT == Factor(n) * x + Offset(n)
  {
    assert MULTIPLIER * (Factor(n - 1) * x) == (MULTIPLIER * Factor(n - 1)) * x;
  }

  lemma AffineNext(n: nat)
    ensures Factor(0) == 1 && Offset(0) == 0
    ensures n > 0 ==> Factor(n) == MULTIPLIER * Factor(n - 1) && Offset(n) == MULTIPLIER * Offset(n - 1) + INCREMENT
  {
  }

  lemma Associate(a: int, b: int, c: int)
    ensures (a * b) * c == a * (b * c)
  {
  }

  lemma Distribute(a: int, b: int, c: int)
    ensures a * (b + c) == a * b + a * c
  {
  }

  lemma {:induction false} AffineSum(m: nat, n: nat)
    ensures Factor(m + n) == Factor(m) * Factor(n)
    ensures Offset(m + n) == Factor(m) * Offset(n) + Offset(m)
  {
    hide Factor, Offset;
    AffineNext(m);
    AffineNext(m + n);
    if m > 0 {
      AffineSum(m - 1, n);
      var f := Factor(m - 1);
      Associate(MULTIPLIER, f, Factor(n));
      Associate(MULTIPLIER, f, Offset(n));
      Distribute(MULTIPLIER, f * Offset(n), Offset(m - 1));
    }
  }

  lemma {:induction false} StateSum(m: nat, n: nat, x: Word)
    ensures State(m + n, x) == State(m, State(n, x))
  {
    if m > 0 { StateSum(m - 1, n, x); }
  }

  // ---------- powers of two in the affine map ----------

  lemma {:induction false} Pow2Sum(a: nat, b: nat)
    ensures Pow2(a + b) == Pow2(a) * Pow2(b)
  {
    hide Pow2;
    Pow2Next(a);
    Pow2Next(a + b);
    if a > 0 {
      Pow2Sum(a - 1, b);
      Associate(2, Pow2(a - 1), Pow2(b));
    }
  }

  lemma Pow2Next(k: nat)
    ensures Pow2(0) == 1 && (k > 0 ==> Pow2(k) == 2 * Pow2(k - 1))
  {
  }

  lemma Pow2Of32()
    ensures Pow2(32) == TWO32
  {
    assert Pow2(4) == 16;
    Pow2Sum(4, 4);
    Pow2Sum(8, 8);
    Pow2Sum(16, 16);
  }

  /** `n` steps multiply by 1 mod 2^(k+2) and add an odd multiple of 2^k. */
  ghost predicate ExactlyTwos(n: nat, k: nat, u: int, v: int)
  {
    Factor(n) == 1 + Pow2(k + 2) * u && Offset(n) == Pow2(k) * (2 * v + 1)
  }

  lemma {:induction false} FactorIsOneModFour(n: nat) returns (u: int)
    ensures Factor(n) == 1 + 4 * u
  {
    if n == 0 { return 0; }
    u := FactorIsOneModFour(n - 1);
    u := 275878811 + MULTIPLIER * u;
  }

  lemma {:induction false} OffsetParity(n: nat) returns (v: int)
    ensures Offset(n) == 2 * v + n % 2
  {
    if n == 0 { return 0; }
    v := OffsetParity(n - 1);
    v := MULTIPLIER * v + if n % 2 == 1 then 6172 else 551763795;
  }

  /** Doubling the number of steps doubles the power of two, and keeps it exact. */
  lemma {:induction false} Doubling(n: nat, k: nat, u: int, v: int) returns (u': int, v': int)
    requires ExactlyTwos(n, k, u, v)
    ensures ExactlyTwos(n + n, k + 1, u', v')
  {
    AffineSum(n, n);
    var p := Pow2(k);
    assert Pow2(k + 1) == 2 * p && Pow2(k + 2) == 4 * p && Pow2(k + 3) == 8 * p;
    u' := u + 2 * p * (u * u);
    v' := v + p * u * (2 * v + 1);
    SquareOfFactor(p, u);
    OffsetTwice(p, u, v);
  }

  lemma SquareOfFactor(p: int, u: int)
    ensures (1 + 4 * p * u) * (1 + 4 * p * u) == 1 + 8 * p * (u + 2 * p * (u * u))
  {
    var w := p * u;
    assert 4 * p * u == 4 * w && 8 * p * (u + 2 * p * (u * u)) == 8 * w + 16 * (p * p * (u * u));
    assert w * w == p * p * (u * u);
    assert (1 + 4 * w) * (1 + 4 * w) == 1 + 8 * w + 16 * (w * w);
  }

  lemma OffsetTwice(p: int, u: int, v: int)
    ensures (1 + 4 * p * u) * (p * (2 * v + 1)) + p * (2 * v + 1) == 2 * p * (2 * (v + p * u * (2 * v + 1)) + 1)
  {
    var o, w := 2 * v + 1, p * u;
    var q := p * o;
    assert 4 * p * u == 4 * w;
    assert (1 + 4 * w) * q + q == 2 * q + 4 * (w * q);
    assert w * q == p * (w * o) by { assert w * (p * o) == p * (w * o); }
    assert 2 * (v + w * o) + 1 == o + 2 * (w * o);
    assert 2 * p * (o + 2 * (w * o)) == 2 * q + 4 * (p * (w * o));
  }

  lemma {:induction false} OddTimesPower(m: nat, k: nat) returns (u: int, v: int)
    requires m % 2 == 1
    ensures m * Pow2(k) >= 0 && ExactlyTwos(m * Pow2(k), k, u, v)
  {
    if k == 0 {
      u := FactorIsOneModFour(m);
      v := OffsetParity(m);
      assert Pow2(2) == 4;
    } else {
      u, v := OddTimesPower(m, k - 1);
      u, v := Doubling(m * Pow2(k - 1), k - 1, u, v);
      assert m * Pow2(k - 1) + m * Pow2(k - 1) == m * Pow2(k);
    }
  }

  lemma {:induction false} OddPart(n: nat) returns (m: nat, k: nat)
    requires n > 0
    ensures m % 2 == 1 && n == m * Pow2(k) && Pow2(k) <= n
  {
    if n % 2 == 1 {
      m, k := n, 0;
    } else {
      m, k := OddPart(n / 2);
      assert n == 2 * (m * Pow2(k)) == m * Pow2(k + 1);
      k := k + 1;
    }
  }

  lemma {:induction false} Pow2Monotone(a: nat, b: nat)
    requires a <= b
    ensures Pow2(a) <= Pow2(b)
  {
    Pow2Sum(a, b - a);
    assert Pow2(a) * Pow2(b - a) >= Pow2(a) * 1;
  }

  // ---------- the period ----------

  /** The distance travelled in `n` steps is an odd multiple of 2^k, where 2^k is the power of two in `n`. */
  lemma {:induction false} DistanceTravelled(n: nat, k: nat, u: int, v: int, x: int)
    requires ExactlyTwos(n, k, u, v)
    ensures Factor(n) * x + Offset(n) == x + Pow2(k) * (4 * (u * x) + 2 * v + 1)
  {
    var p := Pow2(k);
    assert Pow2(k + 2) == 4 * p;
    assert (1 + 4 * p * u) * x == x + p * (4 * (u * x));
    assert p * (4 * (u * x)) + p * (2 * v + 1) == p * (4 * (u * x) + 2 * v + 1);
  }

  /** An odd multiple of `p` is not a multiple of `2 * p`. */
  lemma OddMultiple(p: int, r: int, d: int, q: int)
    requires p > 0 && d % 2 == 1
    ensures p * d != (2 * p * r) * q
  {
    assert (2 * p * r) * q == p * (2 * (r * q));
    assert d != 2 * (r * q);
  }

  /** Fewer than 2^32 steps never come back to the start. */
  lemma {:induction false} NoShortCycle(n: nat, x: Word)
    requires 0 < n < TWO32
    ensures State(n, x) != x
  {
    hide Factor, Offset, State, Pow2, ExactlyTwos;
    var m, k := OddPart(n);
    var u, v := OddTimesPower(m, k);
    Pow2Of32();
    if k >= 32 { Pow2Monotone(32, k); }
    SplitPow2(k);
    StateIsAffine(n, x);
    DistanceTravelled(n, k, u, v, x);
    OddDistance(u * x, v);
    NotAMultiple(Pow2(k), Pow2(31 - k), 4 * (u * x) + 2 * v + 1, x);
  }

  lemma OddDistance(w: int, v: int)
    ensures (4 * w + 2 * v + 1) % 2 == 1
  {
  }

  lemma NotAMultiple(p: int, r: int, d: int, x: int)
    requires p > 0 && TWO32 == 2 * p * r && d % 2 == 1 && 0 <= x < TWO32
    ensures (x + p * d) % TWO32 != x
  {
    var y := x + p * d;
    var q := y / TWO32;
    OddMultiple(p, r, d, q);
    assert y == TWO32 * q + y % TWO32;
  }

  lemma SplitPow2(k: nat)
    requires k < 32
    ensures TWO32 == 2 * Pow2(k) * Pow2(31 - k)
  {
    hide Pow2;
    Pow2Of32();
    Pow2Sum(k, 31 - k);
    Pow2Sum(1, 31);
    Pow2OfOne();
    assert 2 * (Pow2(k) * Pow2(31 - k)) == 2 * Pow2(k) * Pow2(31 - k);
  }

  lemma Pow2OfOne()
    ensures Pow2(1) == 2
  {
  }

  /** After 2^32 steps the generator is back where it started. */
  lemma {:induction false} FullCycle(n: nat, x: Word)
    requires n == TWO32
    ensures State(n, x) == x
  {
    hide Factor, Offset, State, Pow2, ExactlyTwos;
    Pow2Of32();
    var u, v := OddTimesPower(1, 32);
    StateIsAffine(n, x);
    DistanceTravelled(n, 32, u, v, x);
    ModShift(x, 4 * (u * x) + 2 * v + 1);
  }

  /** The period is exactly 2^32: the seed recurs at the multiples of 2^32 and nowhere else. */
  lemma {:induction false} PeriodExactly(n: nat, x: Word)
    ensures State(n, x) == x <==> n % TWO32 == 0
  {
    hide State;
    if n == 0 {
      NoSteps(x);
    } else if n < TWO32 {
      NoShortCycle(n, x);
    } else {
      var period: nat := TWO32;
      FullCycle(period, x);
      StateSum(n - period, period, x);
      PeriodExactly(n - period, x);
    }
  }

  lemma NoSteps(x: Word)
    ensures State(0, x) == x
  {
  }

  /** Within one period no state repeats. */
  lemma {:induction false} StatesDistinct(x: Word, i: nat, j: nat)
    requires i < j < TWO32
    ensures State(i, x) != State(j, x)
  {
    StateSum(j - i, i, x);
    NoShortCycle(j - i, State(i, x));
  }

  ghost function Visited(x: Word, n: nat): set<int>
  {
    set i | 0 <= i < n :: State(i, x)
  }

  lemma {:induction false} VisitedSize(x: Word, n: nat)
    requires n <= TWO32
    ensures |Visited(x, n)| == n
  {
    hide State;
    if n > 0 {
      VisitedSize(x, n - 1);
      forall i | 0 <= i < n - 1 ensures State(i, x) != State(n - 1, x) { StatesDistinct(x, i, n - 1); }
      assert Visited(x, n) == Visited(x, n - 1) + {State(n - 1, x)};
    } else {
      assert Visited(x, n) == {};
    }
  }

  /** The numbers `lo..lo+n`. */
  ghost function Interval(lo: int, n: nat): set<int>
  {
    if n == 0 then {} else Interval(lo, n - 1) + {lo + n - 1}
  }

  lemma {:induction false} IntervalSize(lo: int, n: nat)
    ensures |Interval(lo, n)| == n
    ensures forall i :: i in Interval(lo, n) <==> lo <= i < lo + n
  {
    if n > 0 { IntervalSize(lo, n - 1); }
  }

  lemma {:induction false} SmallerSubset(a: set<int>, b: set<int>)
    requires a <= b
    ensures |a| <= |b|
  {
    assert b == a + (b - a);
  }

  /** From every seed the generator passes through every 32-bit state, `n` being its period. */
  lemma {:induction false} VisitsEveryState(n: nat, x: Word, y: Word)
    requires n == TWO32
    ensures exists i :: 0 <= i < n && State(i, x) == y
  {
    VisitedSize(x, n);
    IntervalSize(0, n);
    if y !in Visited(x, n) {
      SmallerSubset(Visited(x, n) + {y}, Interval(0, n));
    }
  }

  // ---------- outputs are equally frequent ----------

  /** The steps among the first `n` at which the state is in `t`. */
  ghost function Hits(x: Word, t: set<int>, n: nat): set<int>
  {
    set i | 0 <= i < n && State(i, x) in t
  }

  /** One more state is hit exactly once more. */
  lemma {:induction false} HitsOneMore(n: nat, x: Word, t: set<int>, y: Word)
    requires n == TWO32 && y !in t
    ensures |Hits(x, t + {y}, n)| == |Hits(x, t, n)| + 1
  {
    hide State;
    VisitsEveryState(n, x, y);
    var k :| 0 <= k < n && State(k, x) == y;
    forall i | 0 <= i < n && i != k ensures State(i, x) != y {
      if i < k { StatesDistinct(x, i, k); } else { StatesDistinct(x, k, i); }
    }
    assert Hits(x, t + {y}, n) == Hits(x, t, n) + {k};
  }

  lemma HitsNone(x: Word, n: nat)
    ensures Hits(x, {}, n) == {}
  {
    hide State;
  }

  lemma IntervalStep(lo: int, m: nat)
    ensures Interval(lo, m) == if m == 0 then {} else Interval(lo, m - 1) + {lo + m - 1}
  {
  }

  lemma {:induction false} HitsSize(n: nat, x: Word, lo: int, m: nat)
    requires n == TWO32 && 0 <= lo && lo + m <= TWO32
    ensures |Hits(x, Interval(lo, m), n)| == m
  {
    hide State, Hits, Interval;
    IntervalStep(lo, m);
    if m == 0 {
      HitsNone(x, n);
    } else {
      HitsSize(n, x, lo, m - 1);
      IntervalSize(lo, m - 1);
      HitsOneMore(n, x, Interval(lo, m - 1), lo + m - 1);
    }
  }

  /** The steps among the first `n` at which the output is `v`. */
  ghost function Returning(x: Word, v: int, n: nat): set<int>
  {
    set i | 0 <= i < n && Output(State(i, x)) == v
  }

  /** Over one period every value 0..32767 is returned exactly 2^17 times. */
  lemma {:induction false} OutputsEquallyFrequent(n: nat, x: Word, v: int)
    requires n == TWO32 && 0 <= v <= RAND_MAX
    ensures |Returning(x, v, n)| == 131072
  {
    hide Interval, State, Output;
    var lo, hi := Interval(65536 * v, 65536), Interval(0x8000_0000 + 65536 * v, 65536);
    IntervalSize(65536 * v, 65536);
    IntervalSize(0x8000_0000 + 65536 * v, 65536);
    HitsSize(n, x, 65536 * v, 65536);
    HitsSize(n, x, 0x8000_0000 + 65536 * v, 65536);
    forall i | 0 <= i < n ensures Output(State(i, x)) == v <==> State(i, x) in lo || State(i, x) in hi {
      OutputStates(State(i, x), v);
    }
    assert Returning(x, v, n) == Hits(x, lo, n) + Hits(x, hi, n);
    assert Hits(x, lo, n) !! Hits(x, hi, n);
  }

  lemma OutputStates(s: Word, v: int)
    requires 0 <= v <= RAND_MAX
    ensures Output(s) == v <==> 65536 * v <= s < 65536 * v + 65536 || 0x8000_0000 <= s - 65536 * v < 0x8000_0000 + 65536
  {
    var q := s / 65536;
    assert q % 32768 == if q < 32768 then q else q - 32768;
  }
}
