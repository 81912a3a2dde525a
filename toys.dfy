/**
 * `next_power_of2` and `popf` from z3_toys.h.
 *
 * `size_t` is 64 bits wide: the model keeps sizes as naturals below 2^64 and
 * writes the decrement and increment of `next_power_of2` modulo 2^64.  The
 * shifts and ORs are spelled out on naturals, one binary digit at a time.
 */
module Toys {
  import opened Wrappers

  /** 2^64: arithmetic on `size_t` wraps around here. */
  const SizeMod: nat := 0x1_0000_0000_0000_0000

  function Pow2(k: nat): (r: nat)
    ensures r >= 1
  {
    if k == 0 then 1 else 2 * Pow2(k - 1)
  }

  /** Bit `i` of `x` (0 or 1). */
  function Bit(x: nat, i: nat): (r: nat)
    ensures r < 2
  {
    if i == 0 then x % 2 else Bit(x / 2, i - 1)
  }

  /** `a | b` */
  function Or(a: nat, b: nat): nat
    decreases a + b
  {
    if a == 0 then b
    else if b == 0 then a
    else 2 * Or(a / 2, b / 2) + (if a % 2 == 1 || b % 2 == 1 then 1 else 0)
  }

  /** `x >> s` */
  function Shr(x: nat, s: nat): nat
  {
    if s == 0 then x else Shr(x / 2, s - 1)
  }

  /** `x | (x >> s)`: one smearing step of `next_power_of2`. */
  function Smear(x: nat, s: nat): nat
  {
    Or(x, Shr(x, s))
  }

  /** The shifts by 1, 2, 4, 8 and 16 of `next_power_of2`. */
  function Smear32(m: nat): nat
  {
    Smear(Smear(Smear(Smear(Smear(m, 1), 2), 4), 8), 16)
  }

  /** Smear32 followed by the shift by 32 that a 64-bit value needs. */
  function Smear64(m: nat): nat
  {
    Smear(Smear32(m), 32)
  }

  /** `n--` on a `size_t`. */
  function Dec(n: nat): nat
    requires n < SizeMod
  {
    (n + SizeMod - 1) % SizeMod
  }

  /**
   * `next_power_of2` as written: the five steps `n |= n >> 1`, ..., `n |= n >> 16`.
   * On a 64-bit `size_t` that smears only 32 bits (see AsWrittenWrongAbove32).
   */
  function NextPowerOf2AsWritten(n: nat): nat
    requires n < SizeMod
  {
    (Smear32(Dec(n)) + 1) % SizeMod
  }

  /**
   * `next_power_of2` with the step `n |= n >> 32` that a 64-bit `size_t` needs.
   * Only the lemmas about the intended property (NextPowerOf2IsLeast and its
   * helpers) use it; `ZStrings` uses the source's NextPowerOf2AsWritten. On
   * inputs of at most 2^32 the two agree (AsWrittenAgreesUpTo32).
   */
  function NextPowerOf2(n: nat): nat
    requires n < SizeMod
  {
    (Smear64(Dec(n)) + 1) % SizeMod
  }

  /** The bit test `(n & (n - 1)) == 0`, for n >= 1. */
  predicate IsPowerOfTwo(x: nat)
  {
    x == 1 || (x >= 2 && x % 2 == 0 && IsPowerOfTwo(x / 2))
  }

  /** The least k with 2^k >= n. */
  function CeilLog2(n: nat): nat
  {
    if n <= 1 then 0 else 1 + CeilLog2((n + 1) / 2)
  }

  function Min(a: nat, b: nat): nat { if a <= b then a else b }

  // ----- facts about bits -----

  lemma {:induction false} Pow2Mono(j: nat, k: nat)
    requires j <= k
    ensures Pow2(j) <= Pow2(k)
    decreases k
  {
    if j < k { Pow2Mono(j, k - 1); }
  }

  lemma {:induction false} Pow2Split(a: nat, b: nat)
    ensures Pow2(a + b) == Pow2(a) * Pow2(b)
    decreases a
  {
    if a > 0 { Pow2Split(a - 1, b); }
  }

  lemma Pow2Square(a: nat, v: nat)
    requires Pow2(a) == v
    ensures Pow2(a + a) == v * v
  {
    Pow2Split(a, a);
  }

  lemma Pow2Of32(k: nat)
    requires k == 32
    ensures Pow2(k) == 0x1_0000_0000
  {
    var j := k / 8;
    assert Pow2(j - 4) == 1;
    assert Pow2(j - 3) == 2;
    assert Pow2(j - 2) == 4;
    assert Pow2(j - 1) == 8;
    assert Pow2(j) == 16;
    Pow2Square(j, 16);
    Pow2Square(2 * j, 256);
    Pow2Square(4 * j, 0x1_0000);
  }

  lemma Pow2Of64(k: nat)
    requires k == 64
    ensures Pow2(k) == SizeMod && Pow2(k - 1) == 0x8000_0000_0000_0000
  {
    Pow2Of32(k / 2);
    Pow2Square(k / 2, 0x1_0000_0000);
  }

  lemma Pow2Values()
    ensures Pow2(32) == 0x1_0000_0000
    ensures Pow2(63) == 0x8000_0000_0000_0000
    ensures Pow2(64) == SizeMod
  {
    Pow2Of32(32);
    Pow2Of64(64);
  }

  lemma {:induction false} BitOfZero(i: nat)
    ensures Bit(0, i) == 0
    decreases i
  {
    if i > 0 { BitOfZero(i - 1); }
  }

  lemma {:induction false} BitOfPow2(k: nat, j: nat)
    ensures Bit(Pow2(k), j) == if j == k then 1 else 0
    decreases k
  {
    if j > 0 {
      if k == 0 {
        BitOfZero(j - 1);
      } else {
        BitOfPow2(k - 1, j - 1);
      }
    }
  }

  lemma {:induction false} BitSetBound(x: nat, i: nat)
    requires Bit(x, i) == 1
    ensures x >= Pow2(i)
    decreases i
  {
    if i > 0 { BitSetBound(x / 2, i - 1); }
  }

  lemma {:induction false} OrBit(a: nat, b: nat, i: nat)
    ensures Bit(Or(a, b), i) == if Bit(a, i) == 1 || Bit(b, i) == 1 then 1 else 0
    decreases i
  {
    BitOfZero(i);
    if a != 0 && b != 0 {
      var o := Or(a / 2, b / 2);
      var low := if a % 2 == 1 || b % 2 == 1 then 1 else 0;
      assert Or(a, b) == 2 * o + low;
      if i == 0 {
        assert Bit(Or(a, b), 0) == (2 * o + low) % 2 == low;
      } else {
        assert Bit(Or(a, b), i) == Bit((2 * o + low) / 2, i - 1) == Bit(o, i - 1);
        OrBit(a / 2, b / 2, i - 1);
      }
    }
  }

  lemma {:induction false} ShrBit(x: nat, s: nat, i: nat)
    ensures Bit(Shr(x, s), i) == Bit(x, i + s)
    decreases s
  {
    if s > 0 {
      ShrBit(x / 2, s - 1, i);
    }
  }

  lemma {:induction false} ShrAtMost(x: nat, s: nat)
    ensures Shr(x, s) <= x
    decreases s
  {
    if s > 0 { ShrAtMost(x / 2, s - 1); }
  }

  lemma {:induction false} OrBound(a: nat, b: nat, k: nat)
    requires a < Pow2(k) && b < Pow2(k)
    ensures Or(a, b) < Pow2(k)
    decreases k
  {
    if a != 0 && b != 0 {
      OrBound(a / 2, b / 2, k - 1);
    }
  }

  lemma {:induction false} AllOnes(x: nat, k: nat)
    requires x < Pow2(k)
    requires forall i :: 0 <= i < k ==> Bit(x, i) == 1
    ensures x == Pow2(k) - 1
    decreases k
  {
    if k > 0 {
      assert Bit(x, 0) == 1;
      forall i | 0 <= i < k - 1 ensures Bit(x / 2, i) == 1 {
        assert Bit(x, i + 1) == 1;
      }
      AllOnes(x / 2, k - 1);
    }
  }

  lemma {:induction false} TopBit(m: nat, k: nat)
    requires k >= 1 && Pow2(k - 1) <= m < Pow2(k)
    ensures Bit(m, k - 1) == 1
    decreases k
  {
    if k > 1 { TopBit(m / 2, k - 1); }
  }

  lemma {:induction false} CeilLog2Bounds(n: nat)
    requires n >= 1
    ensures n <= Pow2(CeilLog2(n))
    ensures n >= 2 ==> CeilLog2(n) >= 1 && Pow2(CeilLog2(n) - 1) < n
    decreases n
  {
    if n >= 2 {
      CeilLog2Bounds((n + 1) / 2);
    }
  }

  lemma {:induction false} CeilLog2Least(n: nat, k: nat)
    requires n >= 1 && n <= Pow2(k)
    ensures CeilLog2(n) <= k
    decreases n
  {
    if n >= 2 {
      assert k >= 1;
      CeilLog2Least((n + 1) / 2, k - 1);
    }
  }

  lemma {:induction false} CeilLog2OfPow2(k: nat)
    ensures CeilLog2(Pow2(k)) == k
    decreases k
  {
    if k > 0 {
      assert (Pow2(k) + 1) / 2 == Pow2(k - 1);
      CeilLog2OfPow2(k - 1);
    }
  }

  // ----- the smearing steps -----

  /** The top `t` of the `k` low bits of `x` are set, and `x` has no bit at or above `k`. */
  ghost predicate HighBits(x: nat, k: nat, t: nat)
  {
    t <= k && x < Pow2(k) && forall i :: k - t <= i < k ==> Bit(x, i) == 1
  }

  lemma SmearBit(x: nat, s: nat, i: nat)
    ensures Bit(Smear(x, s), i) == if Bit(x, i) == 1 || Bit(x, i + s) == 1 then 1 else 0
  {
    OrBit(x, Shr(x, s), i);
    ShrBit(x, s, i);
  }

  /** A smearing step by `s` doubles the run of set top bits, up to all `k` bits. */
  lemma SmearStep(x: nat, k: nat, t: nat, s: nat)
    requires HighBits(x, k, t) && 1 <= s && (s <= t || t == k)
    ensures HighBits(Smear(x, s), k, Min(t + s, k))
  {
    ShrAtMost(x, s);
    OrBound(x, Shr(x, s), k);
    var t' := Min(t + s, k);
    forall i | k - t' <= i < k ensures Bit(Smear(x, s), i) == 1 {
      SmearBit(x, s, i);
      if i < k - t {
        assert k - t <= i + s < k;
      }
    }
  }

  /** With its top `k`-bit run complete, the smeared value is `2^k - 1`. */
  lemma SmearChain(m: nat, k: nat)
    requires 1 <= k <= 32 && Pow2(k - 1) <= m < Pow2(k)
    ensures Smear32(m) == Pow2(k) - 1
    ensures Smear64(m) == Pow2(k) - 1
  {
    TopBit(m, k);
    var m1 := Smear(m, 1);
    SmearStep(m, k, 1, 1);
    var m2 := Smear(m1, 2);
    SmearStep(m1, k, Min(2, k), 2);
    var m3 := Smear(m2, 4);
    SmearStep(m2, k, Min(4, k), 4);
    var m4 := Smear(m3, 8);
    SmearStep(m3, k, Min(8, k), 8);
    var m5 := Smear(m4, 16);
    SmearStep(m4, k, Min(16, k), 16);
    SmearStep(m5, k, k, 32);
    AllOnes(m5, k);
    AllOnes(Smear(m5, 32), k);
  }

  lemma SmearChain64(m: nat, k: nat)
    requires 1 <= k <= 64 && Pow2(k - 1) <= m < Pow2(k)
    ensures Smear64(m) == Pow2(k) - 1
  {
    TopBit(m, k);
    var m1 := Smear(m, 1);
    SmearStep(m, k, 1, 1);
    var m2 := Smear(m1, 2);
    SmearStep(m1, k, Min(2, k), 2);
    var m3 := Smear(m2, 4);
    SmearStep(m2, k, Min(4, k), 4);
    var m4 := Smear(m3, 8);
    SmearStep(m3, k, Min(8, k), 8);
    var m5 := Smear(m4, 16);
    SmearStep(m4, k, Min(16, k), 16);
    SmearStep(m5, k, Min(32, k), 32);
    AllOnes(Smear(m5, 32), k);
  }

  lemma SmearOfZero()
    ensures Smear32(0) == 0 && Smear64(0) == 0
  {
    forall s: nat ensures Smear(0, s) == 0 {
      ShrAtMost(0, s);
    }
  }

  lemma DecPositive(n: nat)
    requires 1 <= n < SizeMod
    ensures Dec(n) == n - 1
  {
  }

  lemma NextPowerOf2Unfold(n: nat, v: nat)
    requires n < SizeMod && Smear64(Dec(n)) == v
    ensures v + 1 < SizeMod ==> NextPowerOf2(n) == v + 1
  {
  }

  lemma AsWrittenUnfold(n: nat, v: nat)
    requires n < SizeMod && Smear32(Dec(n)) == v
    ensures v + 1 < SizeMod ==> NextPowerOf2AsWritten(n) == v + 1
  {
  }

  // ----- what next_power_of2 promises -----

  lemma NextPowerOf2OfOne(n: nat)
    requires n == 1
    ensures NextPowerOf2(n) == 1 && NextPowerOf2AsWritten(n) == 1 && Pow2(CeilLog2(n)) == 1
  {
    DecPositive(n);
    SmearOfZero();
    NextPowerOf2Unfold(n, 0);
    AsWrittenUnfold(n, 0);
  }

  lemma CeilLog2AtMost(n: nat, k: nat, bound: nat)
    requires 1 <= n <= bound && k <= 63 && bound == Pow2(k)
    ensures CeilLog2(n) <= k && Pow2(CeilLog2(n)) <= bound
  {
    CeilLog2Least(n, k);
    Pow2Mono(CeilLog2(n), k);
  }

  lemma SmearAboveOne(n: nat, k: nat)
    requires 2 <= n && k == CeilLog2(n) && k <= 63
    ensures Smear32(n - 1) == Pow2(k) - 1 || k > 32
    ensures Smear64(n - 1) == Pow2(k) - 1
  {
    var m := n - 1;
    assert 1 <= k && Pow2(k - 1) <= m < Pow2(k) by { CeilLog2Bounds(n); }
    SmearChain64(m, k);
    if k <= 32 { SmearChain(m, k); }
  }

  /** For 1 <= n <= 2^63 the result is 2^CeilLog2(n), the least power of two at least n. */
  lemma NextPowerOf2Exact(n: nat)
    requires 1 <= n <= 0x8000_0000_0000_0000
    ensures NextPowerOf2(n) == Pow2(CeilLog2(n))
  {
    if n == 1 {
      NextPowerOf2OfOne(n);
    } else {
      Pow2Values();
      CeilLog2AtMost(n, 63, 0x8000_0000_0000_0000);
      var k := CeilLog2(n);
      SmearAboveOne(n, k);
      DecPositive(n);
      NextPowerOf2Unfold(n, Pow2(k) - 1);
    }
  }

  /** The smallest power of two at least `n`, and below `2n`. */
  lemma NextPowerOf2IsLeast(n: nat)
    requires 1 <= n <= 0x8000_0000_0000_0000
    ensures IsPowerOfTwo(NextPowerOf2(n))
    ensures n <= NextPowerOf2(n) < 2 * n
    ensures forall k: nat :: Pow2(k) >= n ==> Pow2(k) >= NextPowerOf2(n)
  {
    NextPowerOf2Exact(n);
    var k := CeilLog2(n);
    CeilLog2Bounds(n);
    Pow2IsPowerOfTwo(k);
    forall j: nat | Pow2(j) >= n ensures Pow2(j) >= Pow2(k) {
      CeilLog2Least(n, j);
      Pow2Mono(k, j);
    }
  }

  /** A power of two is its own next power of two. */
  lemma NextPowerOf2OfPower(k: nat)
    requires k <= 63
    ensures Pow2(k) < SizeMod && NextPowerOf2(Pow2(k)) == Pow2(k)
  {
    Pow2Values();
    Pow2Mono(k, 63);
    NextPowerOf2Exact(Pow2(k));
    CeilLog2OfPow2(k);
  }

  lemma {:induction false} Pow2IsPowerOfTwo(k: nat)
    ensures IsPowerOfTwo(Pow2(k))
    decreases k
  {
    if k > 0 { Pow2IsPowerOfTwo(k - 1); }
  }

  /** The bit test and "some power of two" agree. */
  lemma {:induction false} PowerOfTwoIsPow2(x: nat)
    requires IsPowerOfTwo(x)
    ensures x == Pow2(CeilLog2(x))
    decreases x
  {
    if x != 1 {
      PowerOfTwoIsPow2(x / 2);
      assert (x + 1) / 2 == x / 2;
    }
  }

  /** The source's five steps suffice for every n in 1..2^32. */
  lemma AsWrittenAgreesUpTo32(n: nat)
    requires 1 <= n <= 0x1_0000_0000
    ensures NextPowerOf2AsWritten(n) == NextPowerOf2(n)
  {
    if n == 1 {
      NextPowerOf2OfOne(n);
    } else {
      Pow2Values();
      CeilLog2AtMost(n, 32, 0x1_0000_0000);
      var k := CeilLog2(n);
      SmearAboveOne(n, k);
      DecPositive(n);
      NextPowerOf2Unfold(n, Pow2(k) - 1);
      AsWrittenUnfold(n, Pow2(k) - 1);
    }
  }

  lemma {:induction false} OrAtLeast(a: nat, b: nat)
    ensures Or(a, b) >= a && Or(a, b) >= b
    decreases a + b
  {
    if a != 0 && b != 0 {
      OrAtLeast(a / 2, b / 2);
    }
  }

  /** One shift-and-or keeps every bit and sets none at or above `2^k`. */
  lemma SmearBounds(x: nat, s: nat, k: nat)
    requires x < Pow2(k)
    ensures x <= Smear(x, s) < Pow2(k)
  {
    ShrAtMost(x, s);
    OrAtLeast(x, Shr(x, s));
    OrBound(x, Shr(x, s), k);
  }

  lemma Smear32Bounds(m: nat, k: nat)
    requires m < Pow2(k)
    ensures m <= Smear32(m) < Pow2(k)
  {
    var x1 := Smear(m, 1);
    SmearBounds(m, 1, k);
    var x2 := Smear(x1, 2);
    SmearBounds(x1, 2, k);
    var x4 := Smear(x2, 4);
    SmearBounds(x2, 4, k);
    var x8 := Smear(x4, 8);
    SmearBounds(x4, 8, k);
    SmearBounds(x8, 16, k);
  }

  /**
   * The five steps as written still give a capacity that holds `n`, and no
   * wrap-around, for every n in 1..2^63; it need not be a power of two.
   */
  lemma AsWrittenCovers(n: nat)
    requires 1 <= n <= 0x8000_0000_0000_0000
    ensures n <= NextPowerOf2AsWritten(n) <= 0x8000_0000_0000_0000
  {
    Pow2Values();
    DecPositive(n);
    Smear32Bounds(n - 1, 63);
    AsWrittenUnfold(n, Smear32(n - 1));
  }

  /** No bit below `b` is set. */
  ghost predicate LowClear(x: nat, b: nat)
  {
    forall j :: 0 <= j < b ==> Bit(x, j) == 0
  }

  lemma LowClearStep(x: nat, b: nat, s: nat)
    requires LowClear(x, b) && s <= b
    ensures LowClear(Smear(x, s), b - s)
  {
    forall j | 0 <= j < b - s ensures Bit(Smear(x, s), j) == 0 {
      OrBit(x, Shr(x, s), j);
      ShrBit(x, s, j);
    }
  }

  lemma Pow2AtMost63(k: nat)
    requires k < 63
    ensures Pow2(k) < 0x8000_0000_0000_0000
  {
    Pow2Values();
    Pow2Mono(k + 1, 63);
  }

  lemma OddIsNotPowerOfTwo(x: nat)
    requires x > 1 && x % 2 == 1
    ensures !IsPowerOfTwo(x)
  {
  }

  /** With the 32 low bits of `m` clear, the five shifts leave bit 0 clear. */
  lemma Smear32KeepsEven(m: nat)
    requires LowClear(m, 32)
    ensures Smear32(m) % 2 == 0
  {
    var m1 := Smear(m, 1);
    LowClearStep(m, 32, 1);
    var m2 := Smear(m1, 2);
    LowClearStep(m1, 31, 2);
    var m3 := Smear(m2, 4);
    LowClearStep(m2, 29, 4);
    var m4 := Smear(m3, 8);
    LowClearStep(m3, 25, 8);
    LowClearStep(m4, 17, 16);
    assert Bit(Smear(m4, 16), 0) == 0;
  }

  /** The five shifts keep a set bit `b` and add nothing at or above `k`. */
  lemma Smear32Range(m: nat, b: nat, k: nat)
    requires Bit(m, b) == 1 && m < Pow2(k)
    ensures Pow2(b) <= Smear32(m) < Pow2(k)
  {
    var m1 := Smear(m, 1);
    var m2 := Smear(m1, 2);
    var m3 := Smear(m2, 4);
    var m4 := Smear(m3, 8);
    var m5 := Smear(m4, 16);
    SmearBit(m, 1, b);
    SmearBit(m1, 2, b);
    SmearBit(m2, 4, b);
    SmearBit(m3, 8, b);
    SmearBit(m4, 16, b);
    BitSetBound(m5, b);
    ShrAtMost(m, 1);
    OrBound(m, Shr(m, 1), k);
    ShrAtMost(m1, 2);
    OrBound(m1, Shr(m1, 2), k);
    ShrAtMost(m2, 4);
    OrBound(m2, Shr(m2, 4), k);
    ShrAtMost(m3, 8);
    OrBound(m3, Shr(m3, 8), k);
    ShrAtMost(m4, 16);
    OrBound(m4, Shr(m4, 16), k);
  }

  /**
   * Counterexample: for n = 2^k + 1 with 32 <= k < 63 (the first is
   * 2^32 + 1) the source returns an odd number above 1, so not a power of
   * two; the five shifts never carry bit k down to bit 0.
   */
  lemma AsWrittenWrongAbove32(k: nat, n: nat)
    requires 32 <= k < 63 && n == Pow2(k) + 1
    ensures n < SizeMod && !IsPowerOfTwo(NextPowerOf2AsWritten(n))
    ensures IsPowerOfTwo(NextPowerOf2(n))
  {
    Pow2AtMost63(k);
    AsWrittenOddAbove32(k, n);
    OddIsNotPowerOfTwo(NextPowerOf2AsWritten(n));
    NextPowerOf2IsLeast(n);
  }

  lemma AsWrittenOddAbove32(k: nat, n: nat)
    requires 32 <= k < 63 && n == Pow2(k) + 1
    ensures n < SizeMod && NextPowerOf2AsWritten(n) > 1 && NextPowerOf2AsWritten(n) % 2 == 1
  {
    var m := Pow2(k);
    assert m < 0x8000_0000_0000_0000 by { Pow2AtMost63(k); }
    assert Dec(n) == m by { DecPositive(n); }
    var v := Smear32(m);
    assert v % 2 == 0 && 1 <= v < 2 * m by { Smear32OfHighPower(k, m); }
    assert NextPowerOf2AsWritten(n) == v + 1 by { AsWrittenUnfold(n, v); }
  }

  /** For 2^k with k >= 32 the five shifts give an even number in [2^k, 2^(k+1)). */
  lemma Smear32OfHighPower(k: nat, m: nat)
    requires 32 <= k && m == Pow2(k)
    ensures Smear32(m) % 2 == 0 && 1 <= Smear32(m) < 2 * m
  {
    forall j | 0 <= j < 32 ensures Bit(m, j) == 0 {
      BitOfPow2(k, j);
    }
    Smear32KeepsEven(m);
    BitOfPow2(k, k);
    Smear32Range(m, k, k + 1);
  }

  // ----- popf -----

  /** `popf` with nothing left prints a message and exits with failure. */
  datatype PopfError = NoValue

  /** The caller's `(c, v)` pair of `popf`: a count and the values `v` points at. */
  class ArgCursor<T> {
    var count: int
    var rest: seq<T>

    constructor (c: int, v: seq<T>)
      ensures count == c && rest == v
    {
      count, rest := c, v;
    }

    /** `popf(c, v)`: when `c > 0`, yields `*v`, decrements `c` and advances `v`. */
    method Popf() returns (r: Result<T, PopfError>)
      requires count <= |rest|
      modifies this
      ensures old(count) > 0 ==> r == Ok(old(rest)[0]) && count == old(count) - 1 && rest == old(rest)[1..]
      ensures old(count) <= 0 ==> r == Err(NoValue) && count == old(count) && rest == old(rest)
      ensures count <= |rest|
    {
      if count > 0 {
        count := count - 1;
        r := Ok(rest[0]);
        rest := rest[1..];
      } else {
        r := Err(NoValue);
      }
    }
  }
}
