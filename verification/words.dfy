/** Fixed-width machine words as bounded naturals.

    A C integer of `w` bits is modelled as a natural below `Pow2(w)`; the
    wrap-around of unsigned arithmetic is written out with `% Pow2(w)`.  The
    bitwise operators are defined bit by bit on naturals, and the lemmas here
    connect them to ordinary arithmetic: a right shift is a division, masking
    with low ones is a remainder, masking with high ones rounds down. */
module Words {

  /* ---------------------------------------------------------------------- */
  /*  Powers of two                                                          */
  /* ---------------------------------------------------------------------- */

  function Pow2(k: nat): (r: nat)
    ensures r >= 1
  {
    if k == 0 then 1 else 2 * Pow2(k - 1)
  }

  /** Number of values of a 64-bit word; `usize` and `u64` live below it. */
  const WordModulus: nat := 0x1_0000_0000_0000_0000

  /* The C integer types of the library, as ranges of mathematical integers. */
  type u8 = x: nat | x < 0x100
  type u16 = x: nat | x < 0x1_0000
  type u32 = x: nat | x < 0x1_0000_0000
  type u64 = x: nat | x < 0x1_0000_0000_0000_0000
  type usize = u64
  type i8 = x: int | -0x80 <= x < 0x80
  type i16 = x: int | -0x8000 <= x < 0x8000
  type i32 = x: int | -0x8000_0000 <= x < 0x8000_0000
  type i64 = x: int | -0x8000_0000_0000_0000 <= x < 0x8000_0000_0000_0000

  /** Unsigned 64-bit subtraction, wrapping below zero. */
  function SubWrap(x: u64, y: u64): u64 {
    if x >= y then x - y else x - y + WordModulus
  }

  /** Unsigned 64-bit addition, wrapping past the top. */
  function AddWrap(x: u64, y: u64): u64 {
    if x + y < WordModulus then x + y else x + y - WordModulus
  }

  /** Wrapping addition agrees with addition modulo 2^64. */
  lemma AddWrapMod(x: u64, n: nat, c: u64)
    requires x == n % WordModulus
    ensures AddWrap(x, c) == (n + c) % WordModulus
  {
    var q, r := n / WordModulus, n % WordModulus;
    if r + c < WordModulus {
      DivUnique(n + c, WordModulus, q, r + c);
    } else {
      DivUnique(n + c, WordModulus, q + 1, r + c - WordModulus);
    }
  }

  /** The powers of two that bound the library's integer types. */
  lemma Pow2Small()
    ensures Pow2(3) == 8 && Pow2(4) == 16 && Pow2(5) == 32 && Pow2(6) == 64
    ensures Pow2(7) == 0x80 && Pow2(8) == 0x100
  {
  }

  lemma Pow2Of16()
    ensures Pow2(14) == 0x4000 && Pow2(15) == 0x8000 && Pow2(16) == 0x1_0000
  {
    Pow2Add(6, 8);
    Pow2Add(8, 8);
    Pow2Small();
  }

  lemma Pow2Of32()
    ensures Pow2(30) == 0x4000_0000 && Pow2(31) == 0x8000_0000 && Pow2(32) == 0x1_0000_0000
  {
    Pow2Add(14, 16);
    Pow2Add(16, 16);
    Pow2Of16();
  }

  lemma Pow2Of64()
    ensures Pow2(62) == 0x4000_0000_0000_0000 && Pow2(63) == 0x8000_0000_0000_0000
    ensures Pow2(64) == WordModulus
  {
    Pow2Add(30, 32);
    Pow2Add(32, 32);
    Pow2Of32();
  }

  lemma {:induction false} Pow2Add(a: nat, b: nat)
    ensures Pow2(a + b) == Pow2(a) * Pow2(b)
    decreases a
  {
    if a > 0 {
      Pow2Add(a - 1, b);
      calc {
        Pow2(a + b);
        2 * Pow2(a - 1 + b);
        2 * (Pow2(a - 1) * Pow2(b));
        (2 * Pow2(a - 1)) * Pow2(b);
      }
    }
  }

  lemma {:induction false} Pow2Monotone(a: nat, b: nat)
    requires a <= b
    ensures Pow2(a) <= Pow2(b)
    decreases b - a
  {
    if a < b {
      Pow2Monotone(a, b - 1);
    }
  }

  /** Between distinct exponents the powers differ at least twofold. */
  lemma Pow2StrictMonotone(a: nat, b: nat)
    requires a < b
    ensures 2 * Pow2(a) <= Pow2(b)
  {
    Pow2Monotone(a + 1, b);
  }

  /** `n` is a power of two. */
  ghost predicate IsPowerOfTwo(n: nat) {
    exists k: nat :: n == Pow2(k)
  }

  /** Floor of the base-two logarithm: the index of the highest set bit. */
  function Log2Floor(x: nat): (k: nat)
    requires x >= 1
    ensures Pow2(k) <= x < 2 * Pow2(k)
  {
    if x == 1 then 0 else 1 + Log2Floor(x / 2)
  }

  /** A value below `Pow2(w)` has its top bit below `w`. */
  lemma Log2FloorBelow(x: nat, w: nat)
    requires 1 <= x < Pow2(w)
    ensures Log2Floor(x) < w
  {
    if w <= Log2Floor(x) {
      Pow2Monotone(w, Log2Floor(x));
    }
  }

  /** A power of two lying in `[Pow2(k), 2 * Pow2(k))` is `Pow2(k)`. */
  lemma {:induction false} Pow2Between(j: nat, k: nat)
    requires Pow2(k) <= Pow2(j) < 2 * Pow2(k)
    ensures j == k
  {
    if j < k {
      Pow2Monotone(j + 1, k);
    } else if j > k {
      Pow2Monotone(k + 1, j);
    }
  }

  /* ---------------------------------------------------------------------- */
  /*  Division facts                                                         */
  /* ---------------------------------------------------------------------- */

  lemma DivUnique(a: nat, d: nat, q: nat, r: nat)
    requires d > 0 && a == d * q + r && r < d
    ensures a / d == q && a % d == r
  {
    var q', r' := a / d, a % d;
    assert a == d * q' + r';
    if q < q' {
      assert d * q' >= d * (q + 1) by { MulMonotone(d, q + 1, q'); }
    } else if q > q' {
      assert d * q >= d * (q' + 1) by { MulMonotone(d, q' + 1, q); }
    }
  }

  /** A remainder below the divisor is the number itself. */
  lemma ModSmall(x: nat, m: nat)
    requires x < m
    ensures x % m == x
  {
    DivUnique(x, m, 0, x);
  }

  lemma MulMonotone(d: nat, x: nat, y: nat)
    requires x <= y
    ensures d * x <= d * y
  {
  }

  /** Dividing by `2m` is halving and then dividing by `m`. */
  lemma DivHalf(a: nat, m: nat)
    requires m > 0
    ensures a / (2 * m) == (a / 2) / m
    ensures a % (2 * m) == 2 * ((a / 2) % m) + a % 2
  {
    var q, r := (a / 2) / m, (a / 2) % m;
    assert a / 2 == m * q + r;
    assert a == (2 * m) * q + (2 * r + a % 2);
    DivUnique(a, 2 * m, q, 2 * r + a % 2);
  }

  lemma MulIntMonotone(d: nat, x: int, y: int)
    requires x <= y
    ensures d * x <= d * y
  {
  }

  /** A quotient of naturals is a natural no larger than the dividend. */
  lemma DivBounds(a: nat, d: nat)
    requires d >= 1
    ensures 0 <= a / d <= a
  {
    var q := a / d;
    assert a == d * q + a % d;
    if q < 0 {
      MulIntMonotone(d, q, -1);
    } else if q > a {
      MulIntMonotone(q, 1, d);
    }
  }

  /** Logical shift right (`>>`) by `j` bits. */
  function ShiftRight(x: nat, j: nat): (r: nat)
    ensures r <= x
  {
    DivBounds(x, Pow2(j));
    x / Pow2(j)
  }

  /** Shifting right by `j` bits is dividing by `Pow2(j)`, one bit at a time. */
  lemma {:induction false} DivPow2Step(a: nat, j: nat)
    requires j > 0
    ensures a / Pow2(j) == (a / 2) / Pow2(j - 1)
  {
    DivHalf(a, Pow2(j - 1));
  }

  /* ---------------------------------------------------------------------- */
  /*  Bits                                                                   */
  /* ---------------------------------------------------------------------- */

  /** Bit `i` of `x`. */
  predicate Bit(x: nat, i: nat) {
    if i == 0 then x % 2 == 1 else Bit(x / 2, i - 1)
  }

  /** Bitwise OR (`|`). */
  function Or(a: nat, b: nat): nat
    decreases a + b
  {
    if a == 0 && b == 0 then 0
    else 2 * Or(a / 2, b / 2) + (if a % 2 == 1 || b % 2 == 1 then 1 else 0)
  }

  /** Bitwise AND (`&`). */
  function And(a: nat, b: nat): nat
    decreases a
  {
    if a == 0 || b == 0 then 0
    else 2 * And(a / 2, b / 2) + (if a % 2 == 1 && b % 2 == 1 then 1 else 0)
  }

  /** Bitwise exclusive OR (`^`). */
  function Xor(a: nat, b: nat): nat
    decreases a + b
  {
    if a == 0 && b == 0 then 0
    else 2 * Xor(a / 2, b / 2) + (if a % 2 != b % 2 then 1 else 0)
  }

  /** Exclusive OR with 0 changes nothing. */
  lemma {:induction false} XorZero(a: nat)
    ensures Xor(a, 0) == a
    decreases a
  {
    if a > 0 {
      XorZero(a / 2);
    }
  }

  /** Bitwise complement (`~`) of a `w`-bit word. */
  function Not(a: nat, w: nat): (r: nat)
    requires a < Pow2(w)
    ensures r < Pow2(w) && a + r == Pow2(w) - 1
  {
    Pow2(w) - 1 - a
  }

  lemma {:induction false} BitOfZero(i: nat)
    ensures !Bit(0, i)
  {
    if i > 0 {
      BitOfZero(i - 1);
    }
  }

  lemma {:induction false} BitOfOr(a: nat, b: nat, i: nat)
    ensures Bit(Or(a, b), i) == (Bit(a, i) || Bit(b, i))
    decreases i
  {
    if a == 0 && b == 0 {
      BitOfZero(i);
    } else if i > 0 {
      BitOfOr(a / 2, b / 2, i - 1);
    }
  }

  lemma {:induction false} BitOfAnd(a: nat, b: nat, i: nat)
    ensures Bit(And(a, b), i) == (Bit(a, i) && Bit(b, i))
    decreases i
  {
    if a == 0 || b == 0 {
      BitOfZero(i);
    } else if i > 0 {
      BitOfAnd(a / 2, b / 2, i - 1);
    }
  }

  lemma {:induction false} BitOfXor(a: nat, b: nat, i: nat)
    ensures Bit(Xor(a, b), i) == (Bit(a, i) != Bit(b, i))
    decreases i
  {
    if a == 0 && b == 0 {
      BitOfZero(i);
    } else if i > 0 {
      BitOfXor(a / 2, b / 2, i - 1);
    }
  }

  /** Bit `i` of `x >> j` is bit `i + j` of `x`. */
  lemma {:induction false} BitOfShiftRight(x: nat, j: nat, i: nat)
    ensures Bit(ShiftRight(x, j), i) == Bit(x, i + j)
    decreases j
  {
    if j > 0 {
      DivPow2Step(x, j);
      BitOfShiftRight(x / 2, j - 1, i);
    }
  }

  /** A value below `Pow2(n)` has no bit at or above `n`. */
  lemma {:induction false} BitsAbove(x: nat, n: nat, i: nat)
    requires x < Pow2(n) && n <= i
    ensures !Bit(x, i)
    decreases n
  {
    if n == 0 {
      BitOfZero(i);
    } else {
      BitsAbove(x / 2, n - 1, i - 1);
    }
  }

  /** Two values below `Pow2(n)` with the same low `n` bits are equal. */
  lemma {:induction false} BitsEqual(a: nat, b: nat, n: nat)
    requires a < Pow2(n) && b < Pow2(n)
    requires forall i: nat :: i < n ==> Bit(a, i) == Bit(b, i)
    ensures a == b
    decreases n
  {
    if n > 0 {
      assert Bit(a, 0) == Bit(b, 0);
      forall i: nat | i < n - 1
        ensures Bit(a / 2, i) == Bit(b / 2, i)
      {
        assert Bit(a, i + 1) == Bit(b, i + 1);
      }
      BitsEqual(a / 2, b / 2, n - 1);
    }
  }

  /** The block of `k` low ones, `Pow2(k) - 1`, has exactly the bits below k. */
  lemma {:induction false} BitOfLowOnes(k: nat, i: nat)
    ensures Bit(Pow2(k) - 1, i) == (i < k)
    decreases k
  {
    if k == 0 {
      BitOfZero(i);
    } else {
      assert (Pow2(k) - 1) / 2 == Pow2(k - 1) - 1;
      if i > 0 {
        BitOfLowOnes(k - 1, i - 1);
      }
    }
  }

  /** A `w`-bit value whose set bits are exactly those up to `k` is
      `Pow2(k + 1) - 1`. */
  lemma LowOnesFromBits(s: nat, k: nat, w: nat)
    requires s < Pow2(w) && k < w
    requires forall i: nat :: i < w ==> Bit(s, i) == (i <= k)
    ensures s == Pow2(k + 1) - 1
  {
    Pow2Monotone(k + 1, w);
    forall i: nat | i < w
      ensures Bit(s, i) == Bit(Pow2(k + 1) - 1, i)
    {
      BitOfLowOnes(k + 1, i);
    }
    BitsEqual(s, Pow2(k + 1) - 1, w);
  }

  lemma {:induction false} BitOfLog2Floor(x: nat)
    requires x >= 1
    ensures Bit(x, Log2Floor(x))
  {
    if x > 1 {
      BitOfLog2Floor(x / 2);
    }
  }

  /** Bit `i` of `Pow2(k)` is set exactly when `i == k`. */
  lemma {:induction false} BitOfPow2(k: nat, i: nat)
    ensures Bit(Pow2(k), i) == (i == k)
    decreases k
  {
    if k == 0 {
      if i > 0 {
        BitOfZero(i - 1);
      }
    } else if i > 0 {
      BitOfPow2(k - 1, i - 1);
    }
  }

  /** Some bit in positions `[lo, lo + count)` of `x` is set. */
  predicate AnyBitIn(x: nat, lo: nat, count: nat)
    decreases count
  {
    count > 0 && (Bit(x, lo) || AnyBitIn(x, lo + 1, count - 1))
  }

  lemma {:induction false} AnyBitInSplit(x: nat, lo: nat, a: nat, b: nat)
    ensures AnyBitIn(x, lo, a + b) == (AnyBitIn(x, lo, a) || AnyBitIn(x, lo + a, b))
    decreases a
  {
    if a > 0 {
      AnyBitInSplit(x, lo + 1, a - 1, b);
    }
  }

  lemma {:induction false} AnyBitInWitness(x: nat, lo: nat, count: nat, p: nat)
    requires lo <= p < lo + count && Bit(x, p)
    ensures AnyBitIn(x, lo, count)
    decreases p - lo
  {
    if lo < p {
      AnyBitInWitness(x, lo + 1, count - 1, p);
    }
  }

  lemma {:induction false} AnyBitInAbove(x: nat, lo: nat, count: nat)
    requires x < Pow2(lo)
    ensures !AnyBitIn(x, lo, count)
    decreases count
  {
    if count > 0 {
      BitsAbove(x, lo, lo);
      Pow2Monotone(lo, lo + 1);
      AnyBitInAbove(x, lo + 1, count - 1);
    }
  }

  /* ---------------------------------------------------------------------- */
  /*  Bounds and masks                                                       */
  /* ---------------------------------------------------------------------- */

  lemma {:induction false} OrBelow(a: nat, b: nat, n: nat)
    requires a < Pow2(n) && b < Pow2(n)
    ensures Or(a, b) < Pow2(n)
    decreases n
  {
    if n > 0 && !(a == 0 && b == 0) {
      OrBelow(a / 2, b / 2, n - 1);
    }
  }

  lemma {:induction false} XorBelow(a: nat, b: nat, n: nat)
    requires a < Pow2(n) && b < Pow2(n)
    ensures Xor(a, b) < Pow2(n)
    decreases n
  {
    if n > 0 && !(a == 0 && b == 0) {
      XorBelow(a / 2, b / 2, n - 1);
    }
  }

  /** AND never sets a bit absent from either operand, so it is bounded by both. */
  lemma {:induction false} AndAtMost(a: nat, b: nat)
    ensures And(a, b) <= a && And(a, b) <= b
    decreases a
  {
    if a != 0 && b != 0 {
      AndAtMost(a / 2, b / 2);
    }
  }

  /** Masking with `k` low ones keeps the remainder modulo `Pow2(k)`. */
  lemma {:induction false} AndLowOnes(x: nat, k: nat)
    ensures And(x, Pow2(k) - 1) == x % Pow2(k)
    decreases k
  {
    if k == 0 {
      assert Pow2(k) == 1;
    } else if x == 0 {
      assert And(x, Pow2(k) - 1) == 0;
    } else {
      var p := Pow2(k - 1);
      AndLowStep(x, k, p);
      AndLowOnes(x / 2, k - 1);
    }
  }

  /** One step of the induction: the low bit, then the halved value
      against one fewer ones. */
  lemma AndLowStep(x: nat, k: nat, p: nat)
    requires k > 0 && p == Pow2(k - 1) && x != 0
    ensures And(x, Pow2(k) - 1) == 2 * And(x / 2, p - 1) + x % 2
    ensures x % Pow2(k) == 2 * ((x / 2) % p) + x % 2
  {
    ModPow2Step(x, k, p);
    AndOdd(x, p - 1);
  }

  /** A remainder modulo `Pow2(k)` is the low bit plus twice the halved
      value's remainder modulo `Pow2(k - 1)`. */
  lemma ModPow2Step(x: nat, k: nat, p: nat)
    requires k > 0 && p == Pow2(k - 1)
    ensures Pow2(k) - 1 == 2 * (p - 1) + 1
    ensures x % Pow2(k) == 2 * ((x / 2) % p) + x % 2
  {
    assert Pow2(k) == 2 * p;
    DivHalf(x, p);
  }

  /** ANDing with an odd mask keeps the low bit and ANDs the rest. */
  lemma AndOdd(x: nat, q: nat)
    requires x != 0
    ensures And(x, 2 * q + 1) == 2 * And(x / 2, q) + x % 2
  {
    assert (2 * q + 1) / 2 == q && (2 * q + 1) % 2 == 1;
  }

  /** The `w`-bit mask with the bits from `j` upwards set: `~(Pow2(j) - 1)`. */
  function HighOnes(w: nat, j: nat): nat
    requires j <= w
  {
    Pow2Monotone(j, w);
    Pow2(w) - Pow2(j)
  }

  /** Masking a `w`-bit value with the ones from bit `j` up clears its low `j`
      bits: the result is `x` rounded down to a multiple of `Pow2(j)`. */
  lemma {:induction false} AndHighOnes(x: nat, w: nat, j: nat)
    requires j <= w && x < Pow2(w)
    ensures And(x, HighOnes(w, j)) == (x / Pow2(j)) * Pow2(j)
    decreases j
  {
    if j == 0 {
      AndAllOnes(x, w);
    } else if j == w {
      AndNoOnes(x, w);
    } else if x != 0 {
      HalfBelow(x, w);
      AndHighOnes(x / 2, w - 1, j - 1);
      AndHighOnesStep(x, w, j);
    }
  }

  lemma AndAllOnes(x: nat, w: nat)
    requires x < Pow2(w)
    ensures And(x, HighOnes(w, 0)) == (x / Pow2(0)) * Pow2(0)
  {
    AndLowOnes(x, w);
    DivUnique(x, Pow2(w), 0, x);
  }

  lemma AndNoOnes(x: nat, w: nat)
    requires x < Pow2(w)
    ensures And(x, HighOnes(w, w)) == (x / Pow2(w)) * Pow2(w)
  {
    DivUnique(x, Pow2(w), 0, x);
  }

  lemma HalfBelow(x: nat, w: nat)
    requires 0 < w && x < Pow2(w)
    ensures x / 2 < Pow2(w - 1)
  {
  }

  lemma AndHighOnesStep(x: nat, w: nat, j: nat)
    requires 0 < j < w && 0 < x < Pow2(w)
    requires And(x / 2, HighOnes(w - 1, j - 1)) == ((x / 2) / Pow2(j - 1)) * Pow2(j - 1)
    ensures And(x, HighOnes(w, j)) == (x / Pow2(j)) * Pow2(j)
  {
    HighOnesHalf(w, j);
    AndEven(x, HighOnes(w - 1, j - 1));
    DivPow2Step(x, j);
    Pow2Twice(x / Pow2(j), j);
  }

  /** The high-ones mask is twice the mask one bit narrower. */
  lemma HighOnesHalf(w: nat, j: nat)
    requires 0 < j < w
    ensures HighOnes(w, j) == 2 * HighOnes(w - 1, j - 1) && HighOnes(w - 1, j - 1) != 0
  {
    Pow2StrictMonotone(j - 1, w - 1);
  }

  /** ANDing with an even mask clears the low bit and ANDs the rest. */
  lemma AndEven(x: nat, q: nat)
    requires x != 0 && q != 0
    ensures And(x, 2 * q) == 2 * And(x / 2, q)
  {
    assert (2 * q) / 2 == q && (2 * q) % 2 == 0;
  }

  lemma Pow2Twice(q: nat, j: nat)
    requires j > 0
    ensures q * Pow2(j) == 2 * (q * Pow2(j - 1))
  {
    var p := Pow2(j - 1);
    assert Pow2(j) == 2 * p;
    MulTwice(q, p);
  }

  lemma MulTwice(q: nat, p: nat)
    ensures q * (2 * p) == 2 * (q * p)
  {
  }
}
