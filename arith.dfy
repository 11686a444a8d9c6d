/**
 * Fixed-width unsigned arithmetic shared by the allocator modules: the
 * width of size_t and uintptr_t (64 bits), powers of two, wrap-around,
 * and the mask idioms `x & -a` / `x & ~(a - 1)` for a power of two `a`.
 */
module Arith {

  /** 2^64: one more than SIZE_T_MAX. */
  const SIZE_T_LIMIT: nat := 0x1_0000_0000_0000_0000
  const SIZE_T_MAX: nat := SIZE_T_LIMIT - 1
  /** 2^32: the range of an `unsigned` (32-bit) variable. */
  const UINT_LIMIT: nat := 0x1_0000_0000

  /** A value a size_t can hold. */
  predicate IsSizeT(x: int) { 0 <= x < SIZE_T_LIMIT }

  /** The result of a size_t computation: the true value modulo 2^64. */
  function Wrap(x: int): (r: nat)
    ensures IsSizeT(r)
    ensures IsSizeT(x) ==> r == x
  {
    x % SIZE_T_LIMIT
  }

  /** A size_t sum wraps at most once. */
  lemma WrapAdd(x: nat, y: nat)
    requires IsSizeT(x) && IsSizeT(y)
    ensures Wrap(x + y) == if x + y < SIZE_T_LIMIT then x + y else x + y - SIZE_T_LIMIT
  {
    if x + y >= SIZE_T_LIMIT {
      DivModUnique(x + y, SIZE_T_LIMIT, 1, x + y - SIZE_T_LIMIT);
    }
  }

  /** A size_t difference that goes below 0 wraps to the top. */
  lemma WrapSub(x: nat, y: nat)
    requires IsSizeT(x) && IsSizeT(y)
    ensures Wrap(x - y) == if x >= y then x - y else x - y + SIZE_T_LIMIT
  {
    if x < y {
      DivModUnique(x - y, SIZE_T_LIMIT, -1, x - y + SIZE_T_LIMIT);
    }
  }

  function Pow2(k: nat): (r: nat)
    ensures r >= 1
  {
    if k == 0 then 1 else 2 * Pow2(k - 1)
  }

  lemma {:induction false} Pow2Add(a: nat, b: nat)
    ensures Pow2(a + b) == Pow2(a) * Pow2(b)
  {
    if a > 0 {
      Pow2Add(a - 1, b);
    }
  }

  lemma {:induction false} Pow2Monotone(a: nat, b: nat)
    requires a <= b
    ensures Pow2(a) <= Pow2(b)
  {
    if a < b {
      Pow2Monotone(a, b - 1);
    }
  }

  lemma {:induction false} Pow2StrictMonotone(a: nat, b: nat)
    requires a < b
    ensures Pow2(a) < Pow2(b)
  {
    Pow2Monotone(a, b - 1);
  }

  /** The only power of two in [2^j, 2^(j+1)) is 2^j. */
  lemma Pow2Between(a: nat, j: nat)
    requires IsPow2(a) && Pow2(j) <= a < 2 * Pow2(j)
    ensures a == Pow2(j)
  {
    var k := Log2(a);
    if k < j {
      Pow2StrictMonotone(k, j);
    } else if k > j {
      Pow2Monotone(j + 1, k);
    }
  }

  lemma Pow2SixtyFour()
    ensures Pow2(64) == SIZE_T_LIMIT
    ensures Pow2(32) == UINT_LIMIT
  {
    assert Pow2(8) == 256;
    Pow2Add(8, 8);
    assert Pow2(16) == 0x1_0000;
    Pow2Add(16, 16);
    assert Pow2(32) == UINT_LIMIT;
    Pow2Add(32, 32);
  }

  /** True iff `x` is 2^k for some k. */
  predicate IsPow2(x: nat)
    decreases x
  {
    x == 1 || (x > 1 && x % 2 == 0 && IsPow2(x / 2))
  }

  /** The exponent of a power of two. */
  function Log2(x: nat): (k: nat)
    requires IsPow2(x)
    ensures Pow2(k) == x
    decreases x
  {
    if x == 1 then 0 else 1 + Log2(x / 2)
  }

  lemma {:induction false} Pow2IsPow2(k: nat)
    ensures IsPow2(Pow2(k))
  {
    if k > 0 {
      Pow2IsPow2(k - 1);
      assert Pow2(k) / 2 == Pow2(k - 1);
    }
  }

  /** The low bits of `x` below the power of two `a`: `x & (a - 1)`. */
  function LowBits(x: nat, a: nat): (r: nat)
    requires a > 0
    ensures r < a
  {
    x % a
  }

  /** `x & ~(a - 1)` for a power of two `a`: `x` with its bits below `a` cleared. */
  function MaskLow(x: nat, a: nat): (r: nat)
    requires a > 0
    ensures r <= x && x - r < a
    ensures r % a == 0
  {
    DivMod(x, a);
    MulMod(x / a, a);
    x - x % a
  }

  /**
   * `(x + (a - 1)) & ~(a - 1)` on size_t for a power of two `a` (the same as
   * `& -a`): round up to a multiple of `a`, wrapping to 0 near SIZE_T_MAX.
   */
  function AlignUp(x: nat, a: nat): (r: nat)
    requires IsPow2(a) && a < SIZE_T_LIMIT && IsSizeT(x)
    ensures r % a == 0 && IsSizeT(r)
  {
    MaskLow(Wrap(x + (a - 1)), a)
  }

  /** Without wrap-around the result is the multiple of `a` at or above `x` and less than `a` above it. */
  lemma AlignUpNoWrap(x: nat, a: nat)
    requires IsPow2(a) && a < SIZE_T_LIMIT && IsSizeT(x)
    requires x + (a - 1) < SIZE_T_LIMIT
    ensures x <= AlignUp(x, a) && AlignUp(x, a) - x < a
  {
  }

  /** ... which is the smallest multiple at or above `x`, whether or not the sum wraps. */
  lemma AlignUpLeast(x: nat, a: nat, m: nat)
    requires IsPow2(a) && a < SIZE_T_LIMIT && IsSizeT(x)
    requires x + (a - 1) < SIZE_T_LIMIT
    requires m % a == 0 && m >= x
    ensures m >= AlignUp(x, a)
  {
    var r := AlignUp(x, a);
    if m < r {
      MultiplesSpaced(m, r, a);
      assert false;
    }
  }

  /** When `x + (a - 1)` wraps, the result collapses to 0. */
  lemma AlignUpWrap(x: nat, a: nat)
    requires IsPow2(a) && a < SIZE_T_LIMIT && IsSizeT(x)
    requires x + (a - 1) >= SIZE_T_LIMIT
    ensures AlignUp(x, a) == 0
  {
    var w := x + (a - 1) - SIZE_T_LIMIT;
    assert Wrap(x + (a - 1)) == w by {
      DivModUnique(x + (a - 1), SIZE_T_LIMIT, 1, w);
    }
    DivModUnique(w, a, 0, w);
  }

  /** The sum wraps exactly when the true multiple above `x` is 2^64 itself. */
  lemma AlignUpWrapsIff(x: nat, a: nat)
    requires IsPow2(a) && a < SIZE_T_LIMIT && IsSizeT(x)
    ensures (x + (a - 1) >= SIZE_T_LIMIT) == (x > SIZE_T_LIMIT - a)
  {
  }

  /** Rounding a multiple of `a` leaves it unchanged. */
  lemma AlignUpOfMultiple(x: nat, a: nat)
    requires IsPow2(a) && a < SIZE_T_LIMIT && IsSizeT(x)
    requires x % a == 0
    ensures AlignUp(x, a) == x
  {
    MultipleBelowLimit(x, a);
    AlignUpNoWrap(x, a);
    AlignUpLeast(x, a, x);
  }

  /** The true (unbounded) least multiple of `a` at or above `x`. */
  function RoundUp(x: nat, a: nat): (r: nat)
    requires a > 0
    ensures r % a == 0 && x <= r < x + a
  {
    MaskLow(x + (a - 1), a)
  }

  lemma RoundUpLeast(x: nat, a: nat, m: nat)
    requires a > 0 && m % a == 0 && m >= x
    ensures m >= RoundUp(x, a)
  {
    if m < RoundUp(x, a) {
      MultiplesSpaced(m, RoundUp(x, a), a);
      assert false;
    }
  }

  /**
   * The size_t rounding agrees with the true one while that fits in a size_t
   * (exactly when `x + (a - 1)` does not wrap) and is 0 otherwise.
   */
  lemma AlignUpIsRoundUp(x: nat, a: nat)
    requires IsPow2(a) && a < SIZE_T_LIMIT && IsSizeT(x)
    ensures (RoundUp(x, a) < SIZE_T_LIMIT) == (x + (a - 1) < SIZE_T_LIMIT)
    ensures AlignUp(x, a) == if RoundUp(x, a) < SIZE_T_LIMIT then RoundUp(x, a) else 0
  {
    if x + (a - 1) >= SIZE_T_LIMIT {
      AlignUpWrap(x, a);
      Pow2DividesLimit(a);
      var r := RoundUp(x, a);
      if r < SIZE_T_LIMIT {
        MultiplesSpaced(r, SIZE_T_LIMIT, a);
        assert false;
      }
    }
  }

  /** A power of two divides every larger power of two. */
  lemma Pow2Divides(a: nat, b: nat)
    requires IsPow2(a) && IsPow2(b) && a <= b
    ensures b % a == 0
  {
    var i, j := Log2(a), Log2(b);
    if j < i {
      Pow2StrictMonotone(j, i);
      assert false;
    }
    Pow2Add(j - i, i);
    MulMod(Pow2(j - i), a);
  }

  /** A power of two below 2^64 divides 2^64, so multiples of it stay aligned across wrap-around. */
  lemma {:induction false} Pow2DividesLimit(a: nat)
    requires IsPow2(a) && a <= SIZE_T_LIMIT
    ensures SIZE_T_LIMIT % a == 0
  {
    var k := Log2(a);
    Pow2SixtyFour();
    assert k <= 64 by {
      if k > 64 {
        Pow2StrictMonotone(64, k);
        assert false;
      }
    }
    Pow2Add(64 - k, k);
    MulMod(Pow2(64 - k), a);
  }

  /** The largest multiple of `a` below 2^64 is 2^64 - a. */
  lemma MultipleBelowLimit(m: nat, a: nat)
    requires IsPow2(a) && a <= SIZE_T_LIMIT
    requires m % a == 0 && m < SIZE_T_LIMIT
    ensures m + a <= SIZE_T_LIMIT
  {
    Pow2DividesLimit(a);
    MultiplesSpaced(m, SIZE_T_LIMIT, a);
  }

  /** Two multiples of `a` that differ are at least `a` apart. */
  lemma MultiplesSpaced(m: nat, n: nat, a: nat)
    requires a > 0 && m % a == 0 && n % a == 0 && m < n
    ensures m + a <= n
  {
    var i, j := m / a, n / a;
    assert m == i * a;
    assert n == j * a;
    if j <= i {
      MulMonotone(j, i, a);
    }
    assert i + 1 <= j;
    MulMonotone(i + 1, j, a);
  }

  lemma DivMod(x: nat, a: nat)
    requires a > 0
    ensures x == (x / a) * a + x % a
  {
  }

  /** Division is determined by any quotient and remainder that fit. */
  lemma DivModUnique(x: int, a: int, q: int, r: int)
    requires a > 0 && 0 <= r < a && x == q * a + r
    ensures x / a == q && x % a == r
  {
    var q', r' := x / a, x % a;
    assert x == q' * a + r';
    assert q <= q' by {
      if q' < q {
        MulMonotone(q' + 1, q, a);
        assert false;
      }
    }
    assert q' <= q by {
      if q < q' {
        MulMonotone(q + 1, q', a);
        assert false;
      }
    }
  }

  /** A multiple of a multiple of b is a multiple of b. */
  lemma ModTransitive(t: nat, a: nat, b: nat)
    requires a > 0 && b > 0 && t % a == 0 && a % b == 0
    ensures t % b == 0
  {
    DivMod(t, a);
    DivMod(a, b);
    assert t == (t / a) * (a / b) * b;
    MulMod((t / a) * (a / b), b);
  }

  lemma MulMod(i: nat, a: nat)
    requires a > 0
    ensures (i * a) % a == 0 && (i * a) / a == i
  {
    DivModUnique(i * a, a, i, 0);
  }

  /** Multiples of `a` are closed under sum and difference. */
  lemma MultipleSum(x: nat, y: nat, a: nat)
    requires a > 0 && x % a == 0 && y % a == 0
    ensures (x + y) % a == 0
    ensures x >= y ==> (x - y) % a == 0
  {
    DivMod(x, a);
    DivMod(y, a);
    assert x + y == (x / a + y / a) * a;
    MulMod(x / a + y / a, a);
    if x >= y {
      assert x - y == (x / a - y / a) * a;
      MulMod(x / a - y / a, a);
    }
  }

  lemma MulSuccessor(i: int, a: int)
    ensures (i + 1) * a == i * a + a && a * (i + 1) == a * i + a
  {
  }

  lemma MulMonotone(i: int, j: int, a: nat)
    requires i <= j
    ensures i * a <= j * a
  {
  }

  // ---------------------------------------------------------------------
  // Bitwise and / or on unsigned values, bit by bit from the least significant
  // ---------------------------------------------------------------------

  /** `x >> k` on an unsigned: k halvings, each dropping the low bit. */
  function Shr(x: nat, k: nat): nat
  {
    if k == 0 then x else Shr(x / 2, k - 1)
  }

  /** Shifting right by k divides by 2^k. */
  lemma {:induction false} ShrIsDiv(x: nat, k: nat)
    ensures Shr(x, k) == x / Pow2(k)
  {
    if k > 0 {
      ShrIsDiv(x / 2, k - 1);
      var p := Pow2(k - 1);
      var q, r := (x / 2) / p, (x / 2) % p;
      DivMod(x / 2, p);
      assert q * (2 * p) == 2 * (q * p);
      DivModUnique(x, 2 * p, q, 2 * r + x % 2);
    }
  }

  /** Two shifts in a row are one shift by the sum. */
  lemma {:induction false} ShrAdd(x: nat, a: nat, b: nat)
    ensures Shr(Shr(x, a), b) == Shr(x, a + b)
  {
    if a > 0 {
      ShrAdd(x / 2, a - 1, b);
    }
  }

  function BitAnd(x: nat, y: nat): nat
    decreases x
  {
    if x == 0 then 0 else 2 * BitAnd(x / 2, y / 2) + (if x % 2 == 1 && y % 2 == 1 then 1 else 0)
  }

  function BitOr(x: nat, y: nat): nat
    decreases x + y
  {
    if x == 0 && y == 0 then 0 else 2 * BitOr(x / 2, y / 2) + (if x % 2 == 1 || y % 2 == 1 then 1 else 0)
  }

  lemma {:induction false} BitAndSelf(x: nat)
    ensures BitAnd(x, x) == x
  {
    if x > 0 {
      BitAndSelf(x / 2);
    }
  }

  /** `((a - 1) & a) == 0` is the power-of-two test, for every nonzero `a`. */
  lemma {:induction false} PredecessorAndIsPow2Test(a: nat)
    requires a >= 1
    ensures (BitAnd(a - 1, a) == 0) == IsPow2(a)
  {
    if a > 1 {
      if a % 2 == 0 {
        assert (a - 1) / 2 == a / 2 - 1;
        PredecessorAndIsPow2Test(a / 2);
      } else {
        assert (a - 1) / 2 == a / 2;
        BitAndSelf(a / 2);
      }
    }
  }

  /** An or of two values fits in k bits exactly when both do. */
  lemma {:induction false} BitOrBelow(x: nat, y: nat, k: nat)
    ensures (BitOr(x, y) < Pow2(k)) == (x < Pow2(k) && y < Pow2(k))
  {
    if k == 0 {
      BitOrZero(x, y);
    } else if x != 0 || y != 0 {
      BitOrBelow(x / 2, y / 2, k - 1);
    }
  }

  lemma {:induction false} BitOrZero(x: nat, y: nat)
    ensures (BitOr(x, y) == 0) == (x == 0 && y == 0)
    decreases x + y
  {
    if x != 0 || y != 0 {
      BitOrZero(x / 2, y / 2);
    }
  }

  /** Below 2^m, a mask of ones from bit 0 to bit m - 1 keeps every bit. */
  lemma {:induction false} LowMaskKeeps(x: nat, m: nat)
    requires x < Pow2(m)
    ensures BitAnd(x, Pow2(m) - 1) == x
  {
    if x > 0 {
      var half := Pow2(m - 1);
      assert Pow2(m) == 2 * half;
      var mask := Pow2(m) - 1;
      assert mask / 2 == half - 1 && mask % 2 == 1;
      LowMaskKeeps(x / 2, m - 1);
      assert BitAnd(x, mask) == 2 * BitAnd(x / 2, half - 1) + x % 2;
    }
  }

  lemma ModPow2Split(x: nat, k: nat)
    requires k >= 1
    ensures x % Pow2(k) == 2 * ((x / 2) % Pow2(k - 1)) + x % 2
  {
    var p := Pow2(k - 1);
    var q, r := (x / 2) / p, (x / 2) % p;
    assert x / 2 == q * p + r;
    assert x == q * (2 * p) + (2 * r + x % 2);
    DivModUnique(x, 2 * p, q, 2 * r + x % 2);
  }

  /** An even mask keeps no low bit: the and is twice the and of the halves. */
  lemma BitAndEvenMask(x: nat, mask: nat)
    requires mask % 2 == 0
    ensures BitAnd(x, mask) == 2 * BitAnd(x / 2, mask / 2)
  {
  }

  /** The k low bits of x, collected one halving at a time. */
  function BitsBelow(x: nat, k: nat): nat
  {
    if k == 0 then 0 else 2 * BitsBelow(x / 2, k - 1) + x % 2
  }

  /** The k low bits are the remainder modulo 2^k. */
  lemma {:induction false} BitsBelowIsMod(x: nat, k: nat)
    ensures BitsBelow(x, k) == x % Pow2(k)
  {
    if k == 0 {
      DivModUnique(x, 1, x, 0);
    } else {
      BitsBelowIsMod(x / 2, k - 1);
      ModPow2Split(x, k);
    }
  }

  lemma {:induction false} BitAndZero(x: nat)
    ensures BitAnd(x, 0) == 0
  {
    if x > 0 {
      BitAndZero(x / 2);
    }
  }

  lemma {:induction false} BitOrZeroRight(x: nat)
    ensures BitOr(x, 0) == x
  {
    if x > 0 {
      BitOrZeroRight(x / 2);
    }
  }

  /** A mask of m low ones keeps the m low bits. */
  lemma {:induction false} LowMaskIsBitsBelow(x: nat, m: nat)
    ensures BitAnd(x, Pow2(m) - 1) == BitsBelow(x, m)
  {
    if m == 0 {
      BitAndZero(x);
    } else {
      var mask := Pow2(m) - 1;
      assert mask % 2 == 1 && mask / 2 == Pow2(m - 1) - 1;
      LowMaskIsBitsBelow(x / 2, m - 1);
      assert BitAnd(x, mask) == 2 * BitAnd(x / 2, mask / 2) + x % 2;
    }
  }

  /** `x & (2^m - 1)` is the remainder of x modulo 2^m. */
  lemma LowMaskIsMod(x: nat, m: nat)
    ensures BitAnd(x, Pow2(m) - 1) == x % Pow2(m)
  {
    LowMaskIsBitsBelow(x, m);
    BitsBelowIsMod(x, m);
  }

  lemma {:induction false} HighMaskClearsBitsBelow(x: nat, m: nat, k: nat)
    requires k <= m && Pow2(k) <= Pow2(m) && x < Pow2(m)
    ensures BitAnd(x, Pow2(m) - Pow2(k)) == x - BitsBelow(x, k)
  {
    if k == 0 {
      LowMaskKeeps(x, m);
    } else {
      var hm, hk := Pow2(m - 1), Pow2(k - 1);
      var mask := Pow2(m) - Pow2(k);
      assert mask == 2 * (hm - hk) && mask / 2 == hm - hk;
      HighMaskClearsBitsBelow(x / 2, m - 1, k - 1);
      BitAndEvenMask(x, mask);
    }
  }

  /** A mask of ones from bit k to bit m - 1 clears the k low bits of a value below 2^m. */
  lemma HighMaskClearsLow(x: nat, m: nat, k: nat)
    requires k <= m && Pow2(k) <= Pow2(m) && x < Pow2(m)
    ensures BitAnd(x, Pow2(m) - Pow2(k)) == x - x % Pow2(k)
  {
    HighMaskClearsBitsBelow(x, m, k);
    BitsBelowIsMod(x, k);
  }

  /** So `x & -a` (that is, `x & ~(a - 1)`) on size_t is MaskLow. */
  lemma MaskLowIsBitAnd(x: nat, a: nat)
    requires IsSizeT(x) && IsPow2(a) && a <= SIZE_T_LIMIT
    ensures BitAnd(x, SIZE_T_LIMIT - a) == MaskLow(x, a)
  {
    var k := Log2(a);
    Pow2SixtyFour();
    if k > 64 {
      Pow2StrictMonotone(64, k);
    }
    HighMaskClearsLow(x, 64, k);
  }
}
