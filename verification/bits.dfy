/** Bit helpers of CflatBit.h (and their copies in CflatCore.h): power-of-two
    rounding, `cflat_is_pow2`, `cflat_align_pow2` and the De Bruijn integer
    logarithms.

    Values are the naturals of `Words`; a `w`-bit type is a natural below
    `Pow2(w)` and a signed one an integer in `[-Pow2(w-1), Pow2(w-1))`.  The
    functions for the four widths share one definition of the bit smear
    (`x |= x >> 1; x |= x >> 2; ...`), parameterised by the number `n` of
    smear steps: a `Pow2(n)`-bit body performs `n` of them. */
module Bits {
  import opened Words

  /* ---------------------------------------------------------------------- */
  /*  The smear                                                              */
  /* ---------------------------------------------------------------------- */

  /** The first `n` smear steps, with shifts 1, 2, 4, ..., `Pow2(n - 1)`. */
  function Smear(x: nat, n: nat): nat
    decreases n
  {
    if n == 0 then x
    else
      var v := Smear(x, n - 1);
      Or(v, ShiftRight(v, Pow2(n - 1)))
  }

  /** After `n` steps, bit `i` is set iff some bit of `x` in `[i, i + 2^n)` is. */
  lemma {:induction false} SmearBits(x: nat, n: nat, i: nat)
    ensures Bit(Smear(x, n), i) == AnyBitIn(x, i, Pow2(n))
    decreases n
  {
    if n > 0 {
      var v := Smear(x, n - 1);
      var p := Pow2(n - 1);
      BitOfOr(v, ShiftRight(v, p), i);
      BitOfShiftRight(v, p, i);
      SmearBits(x, n - 1, i);
      SmearBits(x, n - 1, i + p);
      AnyBitInSplit(x, i, p, p);
    }
  }

  lemma {:induction false} SmearBelow(x: nat, n: nat, w: nat)
    requires x < Pow2(w)
    ensures Smear(x, n) < Pow2(w)
    decreases n
  {
    if n > 0 {
      var v := Smear(x, n - 1);
      SmearBelow(x, n - 1, w);
      OrBelow(v, ShiftRight(v, Pow2(n - 1)), w);
    }
  }

  lemma {:induction false} SmearOfZero(n: nat)
    ensures Smear(0, n) == 0
    decreases n
  {
    if n > 0 {
      SmearOfZero(n - 1);
    }
  }

  /** On a `Pow2(n)`-bit value with top bit `k` the smear yields the `k + 1`
      low ones. */
  lemma SmearOfPositive(x: nat, n: nat)
    requires 1 <= x < Pow2(Pow2(n))
    ensures Log2Floor(x) < Pow2(n)
    ensures Smear(x, n) == Pow2(Log2Floor(x) + 1) - 1
  {
    var w := Pow2(n);
    var s := Smear(x, n);
    Log2FloorBelow(x, w);
    SmearBelow(x, n, w);
    forall i: nat | i < w
      ensures Bit(s, i) == (i <= Log2Floor(x))
    {
      SmearOfPositiveBit(x, n, i);
    }
    LowOnesFromBits(s, Log2Floor(x), w);
  }

  lemma SmearOfPositiveBit(x: nat, n: nat, i: nat)
    requires 1 <= x < Pow2(Pow2(n)) && i < Pow2(n)
    ensures Bit(Smear(x, n), i) == (i <= Log2Floor(x))
  {
    var k := Log2Floor(x);
    Log2FloorBelow(x, Pow2(n));
    SmearBits(x, n, i);
    if i <= k {
      BitOfLog2Floor(x);
      AnyBitInWitness(x, i, Pow2(n), k);
    } else {
      Pow2Monotone(k + 1, i);
      AnyBitInAbove(x, i, Pow2(n));
    }
  }

  /** The isolated top bit `s - (s >> 1)` of a smeared `Pow2(k + 1) - 1`. */
  lemma TopOfLowOnes(k: nat)
    ensures (Pow2(k + 1) - 1) - (Pow2(k + 1) - 1) / 2 == Pow2(k)
  {
  }

  /* ---------------------------------------------------------------------- */
  /*  cflat_is_pow2 and cflat_align_pow2                                     */
  /* ---------------------------------------------------------------------- */

  /** `cflat_is_pow2(x)`: non-zero, and clearing the lowest set bit leaves 0. */
  predicate IsPow2(x: nat) {
    x != 0 && And(x, x - 1) == 0
  }

  /** The macro's test holds exactly for the powers of two. */
  lemma IsPow2Iff(x: nat)
    ensures IsPow2(x) <==> IsPowerOfTwo(x)
  {
    if x != 0 {
      var k := Log2Floor(x);
      if x == Pow2(k) {
        AndOfPow2(k);
      } else {
        assert Pow2(k) <= x - 1 < 2 * Pow2(k);
        assert Log2Floor(x - 1) == k by {
          Pow2Between(Log2Floor(x - 1), k) by {
            Pow2Le2(Log2Floor(x - 1), k, x - 1);
          }
        }
        BitOfLog2Floor(x);
        BitOfLog2Floor(x - 1);
        BitOfAnd(x, x - 1, k);
        if And(x, x - 1) == 0 {
          BitOfZero(k);
        }
        if IsPowerOfTwo(x) {
          var j: nat :| x == Pow2(j);
          Pow2Between(j, k);
        }
      }
    }
  }

  /** Two powers of two bracketing the same value `v` are within a factor of two. */
  lemma Pow2Le2(j: nat, k: nat, v: nat)
    requires Pow2(j) <= v < 2 * Pow2(j) && Pow2(k) <= v < 2 * Pow2(k)
    ensures Pow2(k) <= Pow2(j) < 2 * Pow2(k)
  {
    if j < k {
      Pow2Monotone(j + 1, k);
    } else if k < j {
      Pow2Monotone(k + 1, j);
    }
  }

  lemma AndOfPow2(k: nat)
    ensures And(Pow2(k), Pow2(k) - 1) == 0
  {
    var a := And(Pow2(k), Pow2(k) - 1);
    AndAtMost(Pow2(k), Pow2(k) - 1);
    forall i: nat | i < k
      ensures Bit(a, i) == Bit(0, i)
    {
      BitOfAnd(Pow2(k), Pow2(k) - 1, i);
      BitOfPow2(k, i);
      BitOfZero(i);
    }
    BitsEqual(a, 0, k);
  }

  /** `cflat_align_pow2(x, b)` on `usize`: `(x + b - 1) & ~(b - 1)`, with the
      additions wrapping modulo 2^64. */
  function AlignPow2(x: usize, b: usize): (r: usize)
  {
    Pow2Of64();
    var sum := AddWrap(x, SubWrap(b, 1));
    var mask := Not(SubWrap(b, 1), 64);
    AndAtMost(sum, mask);
    And(sum, mask)
  }

  /** For a power-of-two `b` and no wrap in `x + b - 1`, the macro yields the
      least multiple of `b` that is at least `x`. */
  lemma AlignPow2Rounds(x: usize, b: usize, j: nat)
    requires b == Pow2(j) && x + b - 1 < WordModulus
    ensures AlignPow2(x, b) % b == 0
    ensures x <= AlignPow2(x, b) < x + b
    ensures forall y: nat :: x <= y && y % b == 0 ==> AlignPow2(x, b) <= y
  {
    Pow2Of64();
    if j >= 64 {
      Pow2Monotone(64, j);
    }
    Pow2Monotone(j, 64);
    var z := x + b - 1;
    assert AddWrap(x, SubWrap(b, 1)) == z;
    assert Not(b - 1, 64) == HighOnes(64, j);
    AndHighOnes(z, 64, j);
    var q := z / b;
    assert AlignPow2(x, b) == q * b;
    RoundDown(z, b);
    forall y: nat | x <= y && y % b == 0
      ensures q * b <= y
    {
      MultipleAtLeast(x, b, y);
    }
  }

  /** The macro lands on the one multiple of `b` in `[x, x + b)`. */
  lemma AlignPow2Is(x: usize, b: usize, j: nat, y: nat)
    requires b == Pow2(j) && x + b - 1 < WordModulus
    requires x <= y < x + b && y % b == 0
    ensures AlignPow2(x, b) == y
  {
    AlignPow2Rounds(x, b, j);
    var r := AlignPow2(x, b);
    assert r <= y && r % b == 0 && x <= r;
    if r < y {
      MultiplesApart(r, y, b);
    }
  }

  /** Distinct multiples of `b` are at least `b` apart. */
  lemma MultiplesApart(r: nat, y: nat, b: nat)
    requires b > 0 && r < y && r % b == 0 && y % b == 0
    ensures r + b <= y
  {
    var qr, qy := r / b, y / b;
    DivMod(r, b);
    DivMod(y, b);
    assert r == qr * b && y == qy * b;
    if qy <= qr {
      MulMonotone(b, qy, qr);
      assert false;
    }
    MulMonotone(b, qr + 1, qy);
    assert (qr + 1) * b == qr * b + b;
  }

  lemma DivMod(a: nat, d: nat)
    requires d > 0
    ensures a == (a / d) * d + a % d && a % d < d
  {
  }

  /** Rounding `z` down to a multiple of `b` loses less than `b`. */
  lemma RoundDown(z: nat, b: nat)
    requires b > 0
    ensures (z / b) * b % b == 0
    ensures z - b < (z / b) * b <= z
  {
    DivMod(z, b);
    DivUnique((z / b) * b, b, z / b, 0);
  }

  /** `((x + b - 1) / b) * b` is the first multiple of `b` reaching `x`. */
  lemma MultipleAtLeast(x: nat, b: nat, y: nat)
    requires b > 0 && x <= y && y % b == 0
    ensures ((x + b - 1) / b) * b <= y
  {
    var q := (x + b - 1) / b;
    var m := y / b;
    DivMod(x + b - 1, b);
    DivMod(y, b);
    if m < q {
      MulMonotone(b, m + 1, q);
    } else {
      MulMonotone(b, q, m);
    }
  }

  /** For a `b` that is not a power of two the mask is no rounding: three does
      not divide `cflat_align_pow2(1, 3)`. */
  lemma AlignPow2NeedsPow2()
    ensures !IsPowerOfTwo(3) && AlignPow2(1, 3) == 1
  {
    Pow2Of64();
    assert AlignPow2(1, 3) == And(3, WordModulus - 3);
    assert And(3, WordModulus - 3) == 1;
  }

  /** Rounding twice is rounding once: without a wrap the macro's result
      is already a multiple of `b`, and the macro keeps it. */
  lemma AlignPow2Twice(x: usize, b: usize, j: nat)
    requires b == Pow2(j) && x + b - 1 < WordModulus
    ensures AlignPow2(AlignPow2(x, b), b) == AlignPow2(x, b)
  {
    AlignPow2Rounds(x, b, j);
    var r := AlignPow2(x, b);
    Pow2Of64();
    if j >= 64 {
      Pow2Monotone(64, j);
    }
    Pow2Add(j, 64 - j);
    DivUnique(WordModulus, b, Pow2(64 - j), 0);
    MultiplesApart(r, WordModulus, b);
    AlignPow2Is(r, b, j, r);
  }

  /* ---------------------------------------------------------------------- */
  /*  Rounding to powers of two, generic in the width                        */
  /* ---------------------------------------------------------------------- */

  /** Unsigned `next_pow2` on `Pow2(n)`-bit words: `x--`, smear, `++x`, the
      last increment wrapping. */
  function NextPow2Unsigned(x: nat, n: nat): (r: nat)
    requires x < Pow2(Pow2(n))
  {
    if x == 0 then 1
    else
      var s := Smear(x - 1, n) + 1;
      if s < Pow2(Pow2(n)) then s else 0
  }

  /** Past 1 the unsigned steps give the next power of two above `x - 1`,
      unless that is the word size, where `++x` wraps to 0. */
  lemma NextPow2OfPositive(x: nat, n: nat)
    requires 1 < x < Pow2(Pow2(n))
    ensures Log2Floor(x - 1) < Pow2(n)
    ensures NextPow2Unsigned(x, n) ==
      if Log2Floor(x - 1) + 1 < Pow2(n) then Pow2(Log2Floor(x - 1) + 1) else 0
  {
    var w := Pow2(n);
    var k := Log2Floor(x - 1);
    if w <= k {
      Pow2Monotone(w, k);
    }
    SmearOfPositive(x - 1, n);
    if k + 1 < w {
      Pow2StrictMonotone(k + 1, w);
    }
  }

  /** 0 maps to 1; up to half the range the result is the least power of two
      at least `x`; above that the increment wraps to 0. */
  lemma NextPow2UnsignedSpec(x: nat, n: nat)
    requires x < Pow2(Pow2(n)) && n >= 1
    ensures x == 0 ==> NextPow2Unsigned(x, n) == 1
    ensures 0 < x <= Pow2(Pow2(n) - 1) ==>
      var r := NextPow2Unsigned(x, n);
      IsPowerOfTwo(r) && x <= r < 2 * x
    ensures x > Pow2(Pow2(n) - 1) ==> NextPow2Unsigned(x, n) == 0
  {
    var w := Pow2(n);
    if x == 1 {
      SmearOfZero(n);
      Pow2Monotone(1, w);
      assert NextPow2Unsigned(x, n) == Pow2(0);
    } else if x > 1 {
      var k := Log2Floor(x - 1);
      NextPow2OfPositive(x, n);
      if k + 1 < w {
        Pow2Monotone(k + 1, w - 1);
        assert NextPow2Unsigned(x, n) == Pow2(k + 1);
      }
    }
  }

  /** Two's complement reading of a `w`-bit pattern. */
  function ToSigned(v: nat, w: nat): (r: int)
    requires 1 <= w && v < Pow2(w)
    ensures -(Pow2(w - 1) as int) <= r < Pow2(w - 1)
  {
    if v < Pow2(w - 1) then v else v - Pow2(w)
  }

  /** Signed `next_pow2`: 1 for `x <= 1`, else the unsigned bit steps on the
      positive `x`, with `++x` overflowing to the most negative value. */
  function NextPow2Signed(x: int, n: nat): (r: int)
    requires n >= 1 && -(Pow2(Pow2(n) - 1) as int) <= x < Pow2(Pow2(n) - 1)
  {
    if x <= 1 then 1
    else
      SmearBelow(x - 1, n, Pow2(n) - 1);
      ToSigned(Smear(x - 1, n) + 1, Pow2(n))
  }

  /** Past 1 the signed steps give the next power of two above `x - 1`,
      unless that is the sign bit, which reads as the most negative value. */
  lemma NextPow2SignedOfPositive(x: int, n: nat)
    requires n >= 1 && 1 < x < Pow2(Pow2(n) - 1)
    ensures Log2Floor(x - 1) + 1 < Pow2(n)
    ensures NextPow2Signed(x, n) ==
      if Log2Floor(x - 1) + 1 < Pow2(n) - 1 then Pow2(Log2Floor(x - 1) + 1)
      else -(Pow2(Pow2(n) - 1) as int)
  {
    var w, k := NextPow2SignedSteps(x, n);
    if k + 1 < w - 1 {
      Pow2StrictMonotone(k + 1, w - 1);
      ToSignedSmall(Pow2(k + 1), w);
    } else {
      ToSignedSignBit(w);
    }
  }

  /** The bit steps of signed `next_pow2` yield the two's complement reading
      of the next power of two above `x - 1`. */
  lemma NextPow2SignedSteps(x: int, n: nat) returns (w: nat, k: nat)
    requires n >= 1 && 1 < x < Pow2(Pow2(n) - 1)
    ensures w == Pow2(n) && k == Log2Floor(x - 1) && 1 <= k + 1 < w
    ensures NextPow2Signed(x, n) == ToSigned(Pow2(k + 1), w)
  {
    w := Pow2(n);
    k := Log2Floor(x - 1);
    Log2FloorBelow(x - 1, w - 1);
    SmearOfPositive(x - 1, n);
  }

  /** A pattern below the sign bit reads as itself. */
  lemma ToSignedSmall(v: nat, w: nat)
    requires w >= 1 && v < Pow2(w - 1)
    ensures v < Pow2(w) && ToSigned(v, w) == v
  {
    assert Pow2(w) == 2 * Pow2(w - 1);
  }

  /** The sign bit alone reads as the most negative value. */
  lemma ToSignedSignBit(w: nat)
    requires w >= 1
    ensures Pow2(w - 1) < Pow2(w)
    ensures ToSigned(Pow2(w - 1), w) == -(Pow2(w - 1) as int)
  {
    assert Pow2(w) == 2 * Pow2(w - 1);
  }

  lemma NextPow2SignedSpec(x: int, n: nat)
    requires n >= 1 && -(Pow2(Pow2(n) - 1) as int) <= x < Pow2(Pow2(n) - 1)
    ensures x <= 1 ==> NextPow2Signed(x, n) == 1
    ensures 1 < x <= Pow2(Pow2(n) - 2) ==>
      var r := NextPow2Signed(x, n);
      r >= 0 && IsPowerOfTwo(r) && x <= r < 2 * x
    ensures x > Pow2(Pow2(n) - 2) ==> NextPow2Signed(x, n) == -(Pow2(Pow2(n) - 1) as int)
  {
    var w := Pow2(n);
    assert w >= 2 by {
      Pow2Monotone(1, n);
    }
    if x > 1 {
      var k := Log2Floor(x - 1);
      NextPow2SignedOfPositive(x, n);
      if k + 1 < w - 1 {
        Pow2Monotone(k + 1, w - 2);
        assert NextPow2Signed(x, n) == Pow2(k + 1);
      }
    }
  }

  /** `prev_pow2` on `Pow2(n)`-bit words: smear, then keep the top bit. */
  function PrevPow2Unsigned(x: nat, n: nat): (r: nat)
    requires x < Pow2(Pow2(n))
  {
    if x == 0 then 0
    else
      var s := Smear(x, n);
      s - s / 2
  }

  /** 0 maps to 0, anything else to the largest power of two at most `x`. */
  lemma PrevPow2UnsignedSpec(x: nat, n: nat)
    requires x < Pow2(Pow2(n))
    ensures x == 0 ==> PrevPow2Unsigned(x, n) == 0
    ensures x != 0 ==> PrevPow2Unsigned(x, n) == Pow2(Log2Floor(x))
    ensures x != 0 ==>
      var r := PrevPow2Unsigned(x, n);
      IsPowerOfTwo(r) && r <= x < 2 * r
  {
    if x != 0 {
      SmearOfPositive(x, n);
      TopOfLowOnes(Log2Floor(x));
    }
  }

  /* ---------------------------------------------------------------------- */
  /*  The C functions, one per width                                         */
  /* ---------------------------------------------------------------------- */

  /** `cflat_next_pow2_u8`. */
  function NextPow2U8(x: u8): (r: u8)
    ensures x == 0 ==> r == 1
    ensures 0 < x <= 0x80 ==> IsPowerOfTwo(r) && x <= r < 2 * x
    ensures x > 0x80 ==> r == 0
  {
    Pow2Small();
    NextPow2UnsignedSpec(x, 3);
    NextPow2Unsigned(x, 3)
  }

  /** `cflat_next_pow2_u16`. */
  function NextPow2U16(x: u16): (r: u16)
    ensures x == 0 ==> r == 1
    ensures 0 < x <= 0x8000 ==> IsPowerOfTwo(r) && x <= r < 2 * x
    ensures x > 0x8000 ==> r == 0
  {
    Pow2Small();
    Pow2Of16();
    NextPow2UnsignedSpec(x, 4);
    NextPow2Unsigned(x, 4)
  }

  /** `cflat_next_pow2_u32`. */
  function NextPow2U32(x: u32): (r: u32)
    ensures x == 0 ==> r == 1
    ensures 0 < x <= 0x8000_0000 ==> IsPowerOfTwo(r) && x <= r < 2 * x
    ensures x > 0x8000_0000 ==> r == 0
  {
    Pow2Small();
    Pow2Of32();
    NextPow2UnsignedSpec(x, 5);
    NextPow2Unsigned(x, 5)
  }

  /** `cflat_next_pow2_u64`, the `next_pow2` of every `usize` capacity. */
  function NextPow2U64(x: u64): (r: u64)
    ensures x == 0 ==> r == 1
    ensures 0 < x <= 0x8000_0000_0000_0000 ==> IsPowerOfTwo(r) && x <= r < 2 * x
    ensures x > 0x8000_0000_0000_0000 ==> r == 0
  {
    Pow2Small();
    Pow2Of64();
    NextPow2UnsignedSpec(x, 6);
    NextPow2Unsigned(x, 6)
  }

  /** `cflat_next_pow2_i8` as written: the smear stops after `x |= x >> 1`.
      (`cflat_is_pow2_i8` in CflatCore.h has the same body.) */
  function NextPow2I8AsWritten(x: i8): (r: i8)
    ensures x <= 1 ==> r == 1
    ensures 1 < x ==> r == -0x80 || x <= r
  {
    if x <= 1 then 1
    else
      var y := x - 1;
      Pow2Small();
      DivBounds(y, 2);
      OrBelow(y, y / 2, 7);
      OrAtLeast(y, y / 2);
      ToSigned(Or(y, y / 2) + 1, 8)
  }

  lemma {:induction false} OrAtLeast(a: nat, b: nat)
    ensures a <= Or(a, b)
    decreases a + b
  {
    if !(a == 0 && b == 0) {
      OrAtLeast(a / 2, b / 2);
    }
  }

  /** The single shift leaves bits of `x - 1` unsmeared: 9 maps to 13, which
      is not a power of two. */
  lemma NextPow2I8AsWrittenMisses()
    ensures NextPow2I8AsWritten(9) == 13 && !IsPowerOfTwo(13)
  {
    Pow2Small();
    assert Or(8, 4) == 12;
  }

  /** `cflat_next_pow2_i8` with the full smear of the other widths. */
  function NextPow2I8(x: i8): (r: i8)
    ensures x <= 1 ==> r == 1
    ensures 1 < x <= 0x40 ==> r > 0 && IsPowerOfTwo(r) && x <= r < 2 * x
    ensures x > 0x40 ==> r == -0x80
  {
    Pow2Small();
    NextPow2SignedSpec(x, 3);
    NextPow2Signed(x, 3)
  }

  /** `cflat_next_pow2_i16` (and the misnamed `cflat_is_pow2_i16`). */
  function NextPow2I16(x: i16): (r: i16)
    ensures x <= 1 ==> r == 1
    ensures 1 < x <= 0x4000 ==> r > 0 && IsPowerOfTwo(r) && x <= r < 2 * x
    ensures x > 0x4000 ==> r == -0x8000
  {
    Pow2Small();
    Pow2Of16();
    NextPow2SignedSpec(x, 4);
    NextPow2Signed(x, 4)
  }

  /** `cflat_is_pow2_i8` of CflatCore.h: the body of `cflat_next_pow2_i8`,
      with its single smear step, under the name of a test.  Read as a
      truth value it holds for every input. */
  function IsPow2I8AsWritten(x: i8): (r: i8)
    ensures r != 0
    ensures x <= 1 ==> r == 1
  {
    NextPow2I8AsWritten(x)
  }

  /** `cflat_is_pow2_i16` of CflatCore.h: the body of `cflat_next_pow2_i16`
      under the name of a test, which likewise holds for every input. */
  function IsPow2I16AsWritten(x: i16): (r: i16)
    ensures r != 0
    ensures x <= 1 ==> r == 1
  {
    NextPow2I16(x)
  }

  /** The 8-bit misnamed test says yes to 3, which is not a power of two:
      it returns 4, the next power of two. */
  lemma IsPow2I8Misnamed()
    ensures !IsPow2(3) && IsPow2I8AsWritten(3) == NextPow2I8(3) == 4
  {
    Pow2Small();
    assert And(3, 2) == 2;
    assert Or(2, 1) == 3;
    assert IsPowerOfTwo(4) by {
      assert 4 == Pow2(2);
    }
    PowerOfTwoBetween(3, NextPow2I8(3), 4);
  }

  /** The same for the 16-bit one. */
  lemma IsPow2I16Misnamed()
    ensures !IsPow2(3) && IsPow2I16AsWritten(3) == NextPow2I16(3) == 4
  {
    assert And(3, 2) == 2;
    assert IsPowerOfTwo(4) by {
      assert 4 == Pow2(2);
    }
    PowerOfTwoBetween(3, NextPow2I16(3), 4);
  }

  /** `cflat_next_pow2_i32`. */
  function NextPow2I32(x: i32): (r: i32)
    ensures x <= 1 ==> r == 1
    ensures 1 < x <= 0x4000_0000 ==> r > 0 && IsPowerOfTwo(r) && x <= r < 2 * x
    ensures x > 0x4000_0000 ==> r == -0x8000_0000
  {
    Pow2Small();
    Pow2Of32();
    NextPow2SignedSpec(x, 5);
    NextPow2Signed(x, 5)
  }

  /** `cflat_next_pow2_i64`. */
  function NextPow2I64(x: i64): (r: i64)
    ensures x <= 1 ==> r == 1
    ensures 1 < x <= 0x4000_0000_0000_0000 ==> r > 0 && IsPowerOfTwo(r) && x <= r < 2 * x
    ensures x > 0x4000_0000_0000_0000 ==> r == -0x8000_0000_0000_0000
  {
    Pow2Small();
    Pow2Of64();
    NextPow2SignedSpec(x, 6);
    NextPow2Signed(x, 6)
  }

  /** `cflat_prev_pow2_u8`. */
  function PrevPow2U8(x: u8): (r: u8)
    ensures x == 0 ==> r == 0
    ensures x != 0 ==> IsPowerOfTwo(r) && r <= x < 2 * r
  {
    Pow2Small();
    PrevPow2UnsignedSpec(x, 3);
    PrevPow2Unsigned(x, 3)
  }

  /** `cflat_prev_pow2_u16`. */
  function PrevPow2U16(x: u16): (r: u16)
    ensures x == 0 ==> r == 0
    ensures x != 0 ==> IsPowerOfTwo(r) && r <= x < 2 * r
  {
    Pow2Small();
    Pow2Of16();
    PrevPow2UnsignedSpec(x, 4);
    PrevPow2Unsigned(x, 4)
  }

  /** `cflat_prev_pow2_u32`. */
  function PrevPow2U32(x: u32): (r: u32)
    ensures x == 0 ==> r == 0
    ensures x != 0 ==> IsPowerOfTwo(r) && r <= x < 2 * r
  {
    Pow2Small();
    Pow2Of32();
    PrevPow2UnsignedSpec(x, 5);
    PrevPow2Unsigned(x, 5)
  }

  /** `cflat_prev_pow2_u64`. */
  function PrevPow2U64(x: u64): (r: u64)
    ensures x == 0 ==> r == 0
    ensures x != 0 ==> IsPowerOfTwo(r) && r <= x < 2 * r
  {
    Pow2Small();
    Pow2Of64();
    PrevPow2UnsignedSpec(x, 6);
    PrevPow2Unsigned(x, 6)
  }

  /** `cflat_prev_pow2_i8`: the signed bodies return 0 for `x <= 0` and run
      the unsigned steps on a positive `x`. */
  function PrevPow2I8(x: i8): (r: i8)
    ensures x <= 0 ==> r == 0
    ensures x > 0 ==> r > 0 && IsPowerOfTwo(r) && r <= x < 2 * r
  {
    if x <= 0 then 0 else PrevPow2U8(x)
  }

  /** `cflat_prev_pow2_i16`. */
  function PrevPow2I16(x: i16): (r: i16)
    ensures x <= 0 ==> r == 0
    ensures x > 0 ==> r > 0 && IsPowerOfTwo(r) && r <= x < 2 * r
  {
    if x <= 0 then 0 else PrevPow2U16(x)
  }

  /** `cflat_prev_pow2_i32`. */
  function PrevPow2I32(x: i32): (r: i32)
    ensures x <= 0 ==> r == 0
    ensures x > 0 ==> r > 0 && IsPowerOfTwo(r) && r <= x < 2 * r
  {
    if x <= 0 then 0 else PrevPow2U32(x)
  }

  /** `cflat_prev_pow2_i64`. */
  function PrevPow2I64(x: i64): (r: i64)
    ensures x <= 0 ==> r == 0
    ensures x > 0 ==> r > 0 && IsPowerOfTwo(r) && r <= x < 2 * r
  {
    if x <= 0 then 0 else PrevPow2U64(x)
  }

  /** Between `x` and `2x` there is only one power of two. */
  lemma PowerOfTwoBetween(x: nat, r: nat, t: nat)
    requires IsPowerOfTwo(r) && x <= r < 2 * x
    requires IsPowerOfTwo(t) && x <= t < 2 * x
    ensures r == t
  {
    var a: nat :| r == Pow2(a);
    var b: nat :| t == Pow2(b);
    if a < b {
      Pow2Monotone(a + 1, b);
    } else if b < a {
      Pow2Monotone(b + 1, a);
    }
  }

  /** The rounding of `next_pow2` is unique: a power of two `r` with
      `x <= r < 2x` is the one `cflat_next_pow2_u64` computes. */
  lemma NextPow2U64Unique(x: u64, r: nat)
    requires 0 < x <= 0x8000_0000_0000_0000
    requires IsPowerOfTwo(r) && x <= r < 2 * x
    ensures r == NextPow2U64(x)
  {
    PowerOfTwoBetween(x, r, NextPow2U64(x));
  }

  /* ---------------------------------------------------------------------- */
  /*  De Bruijn logarithms: cflat_log2_u64 / cflat_log2_u32                   */
  /* ---------------------------------------------------------------------- */

  /** `cflat__log2_lut_64`, eight entries per row. */
  const Log2Lut64Rows: seq<seq<nat>> := [
    [63, 0, 58, 1, 59, 47, 53, 2],
    [60, 39, 48, 27, 54, 33, 42, 3],
    [61, 51, 37, 40, 49, 18, 28, 20],
    [55, 30, 34, 11, 43, 14, 22, 4],
    [62, 57, 46, 52, 38, 26, 32, 41],
    [50, 36, 17, 19, 29, 10, 13, 21],
    [56, 45, 25, 31, 35, 16, 9, 12],
    [44, 24, 15, 8, 23, 7, 6, 5]]

  /** `cflat__log2_lut_32`, eight entries per row. */
  const Log2Lut32Rows: seq<seq<nat>> := [
    [0, 9, 1, 10, 13, 21, 2, 29],
    [11, 14, 16, 18, 22, 25, 3, 30],
    [8, 12, 20, 28, 15, 17, 24, 7],
    [19, 27, 23, 6, 26, 5, 4, 31]]

  function Log2Lut64(i: nat): nat
    requires i < 64
  {
    Log2Lut64Rows[i / 8][i % 8]
  }

  function Log2Lut32(i: nat): nat
    requires i < 32
  {
    Log2Lut32Rows[i / 8][i % 8]
  }

  /** Slot of the 64-bit table: the top six bits of the wrapped product with
      the De Bruijn constant 0x07EDD5E59A4E28C2. */
  function DeBruijnSlot64(h: nat): (i: nat)
    ensures i < 64
  {
    ((h * 0x07ED_D5E5_9A4E_28C2) % 0x1_0000_0000_0000_0000) / 0x400_0000_0000_0000
  }

  /** Slot of the 32-bit table: the top five bits of the wrapped product with
      0x07C4ACDD. */
  function DeBruijnSlot32(s: nat): (i: nat)
    ensures i < 32
  {
    ((s * 0x07C4_ACDD) % 0x1_0000_0000) / 0x800_0000
  }

  /** The powers of two below 2^64 as numerals, for checking the tables. */
  lemma Pow2Numerals()
    ensures Pow2(0) == 0x1
    ensures Pow2(1) == 0x2
    ensures Pow2(2) == 0x4
    ensures Pow2(3) == 0x8
    ensures Pow2(4) == 0x10
    ensures Pow2(5) == 0x20
    ensures Pow2(6) == 0x40
    ensures Pow2(7) == 0x80
    ensures Pow2(8) == 0x100
    ensures Pow2(9) == 0x200
    ensures Pow2(10) == 0x400
    ensures Pow2(11) == 0x800
    ensures Pow2(12) == 0x1000
    ensures Pow2(13) == 0x2000
    ensures Pow2(14) == 0x4000
    ensures Pow2(15) == 0x8000
    ensures Pow2(16) == 0x1_0000
    ensures Pow2(17) == 0x2_0000
    ensures Pow2(18) == 0x4_0000
    ensures Pow2(19) == 0x8_0000
    ensures Pow2(20) == 0x10_0000
    ensures Pow2(21) == 0x20_0000
    ensures Pow2(22) == 0x40_0000
    ensures Pow2(23) == 0x80_0000
    ensures Pow2(24) == 0x100_0000
    ensures Pow2(25) == 0x200_0000
    ensures Pow2(26) == 0x400_0000
    ensures Pow2(27) == 0x800_0000
    ensures Pow2(28) == 0x1000_0000
    ensures Pow2(29) == 0x2000_0000
    ensures Pow2(30) == 0x4000_0000
    ensures Pow2(31) == 0x8000_0000
    ensures Pow2(32) == 0x1_0000_0000
    ensures Pow2(33) == 0x2_0000_0000
    ensures Pow2(34) == 0x4_0000_0000
    ensures Pow2(35) == 0x8_0000_0000
    ensures Pow2(36) == 0x10_0000_0000
    ensures Pow2(37) == 0x20_0000_0000
    ensures Pow2(38) == 0x40_0000_0000
    ensures Pow2(39) == 0x80_0000_0000
    ensures Pow2(40) == 0x100_0000_0000
    ensures Pow2(41) == 0x200_0000_0000
    ensures Pow2(42) == 0x400_0000_0000
    ensures Pow2(43) == 0x800_0000_0000
    ensures Pow2(44) == 0x1000_0000_0000
    ensures Pow2(45) == 0x2000_0000_0000
    ensures Pow2(46) == 0x4000_0000_0000
    ensures Pow2(47) == 0x8000_0000_0000
    ensures Pow2(48) == 0x1_0000_0000_0000
    ensures Pow2(49) == 0x2_0000_0000_0000
    ensures Pow2(50) == 0x4_0000_0000_0000
    ensures Pow2(51) == 0x8_0000_0000_0000
    ensures Pow2(52) == 0x10_0000_0000_0000
    ensures Pow2(53) == 0x20_0000_0000_0000
    ensures Pow2(54) == 0x40_0000_0000_0000
    ensures Pow2(55) == 0x80_0000_0000_0000
    ensures Pow2(56) == 0x100_0000_0000_0000
    ensures Pow2(57) == 0x200_0000_0000_0000
    ensures Pow2(58) == 0x400_0000_0000_0000
    ensures Pow2(59) == 0x800_0000_0000_0000
    ensures Pow2(60) == 0x1000_0000_0000_0000
    ensures Pow2(61) == 0x2000_0000_0000_0000
    ensures Pow2(62) == 0x4000_0000_0000_0000
    ensures Pow2(63) == 0x8000_0000_0000_0000
  {
  }

  /* The slots of the powers of two.  Each product is divided out with its
     quotient given, so that no step searches for one. */
  lemma Slots64Of0()
    ensures DeBruijnSlot64(0x1) == 1
    ensures DeBruijnSlot64(0x2) == 3
    ensures DeBruijnSlot64(0x4) == 7
    ensures DeBruijnSlot64(0x8) == 15
    ensures DeBruijnSlot64(0x10) == 31
    ensures DeBruijnSlot64(0x20) == 63
    ensures DeBruijnSlot64(0x40) == 62
    ensures DeBruijnSlot64(0x80) == 61
  {
    DivUnique(0x1 * 0x07ED_D5E5_9A4E_28C2, WordModulus, 0x0, 0x7ED_D5E5_9A4E_28C2);
    DivUnique(0x7ED_D5E5_9A4E_28C2, 0x400_0000_0000_0000, 1, 0x3ED_D5E5_9A4E_28C2);
    DivUnique(0x2 * 0x07ED_D5E5_9A4E_28C2, WordModulus, 0x0, 0xFDB_ABCB_349C_5184);
    DivUnique(0xFDB_ABCB_349C_5184, 0x400_0000_0000_0000, 3, 0x3DB_ABCB_349C_5184);
    DivUnique(0x4 * 0x07ED_D5E5_9A4E_28C2, WordModulus, 0x0, 0x1FB7_5796_6938_A308);
    DivUnique(0x1FB7_5796_6938_A308, 0x400_0000_0000_0000, 7, 0x3B7_5796_6938_A308);
    DivUnique(0x8 * 0x07ED_D5E5_9A4E_28C2, WordModulus, 0x0, 0x3F6E_AF2C_D271_4610);
    DivUnique(0x3F6E_AF2C_D271_4610, 0x400_0000_0000_0000, 15, 0x36E_AF2C_D271_4610);
    DivUnique(0x10 * 0x07ED_D5E5_9A4E_28C2, WordModulus, 0x0, 0x7EDD_5E59_A4E2_8C20);
    DivUnique(0x7EDD_5E59_A4E2_8C20, 0x400_0000_0000_0000, 31, 0x2DD_5E59_A4E2_8C20);
    DivUnique(0x20 * 0x07ED_D5E5_9A4E_28C2, WordModulus, 0x0, 0xFDBA_BCB3_49C5_1840);
    DivUnique(0xFDBA_BCB3_49C5_1840, 0x400_0000_0000_0000, 63, 0x1BA_BCB3_49C5_1840);
    DivUnique(0x40 * 0x07ED_D5E5_9A4E_28C2, WordModulus, 0x1, 0xFB75_7966_938A_3080);
    DivUnique(0xFB75_7966_938A_3080, 0x400_0000_0000_0000, 62, 0x375_7966_938A_3080);
    DivUnique(0x80 * 0x07ED_D5E5_9A4E_28C2, WordModulus, 0x3, 0xF6EA_F2CD_2714_6100);
    DivUnique(0xF6EA_F2CD_2714_6100, 0x400_0000_0000_0000, 61, 0x2EA_F2CD_2714_6100);
  }

  lemma Slots64Of1()
    ensures DeBruijnSlot64(0x100) == 59
    ensures DeBruijnSlot64(0x200) == 54
    ensures DeBruijnSlot64(0x400) == 45
    ensures DeBruijnSlot64(0x800) == 27
    ensures DeBruijnSlot64(0x1000) == 55
    ensures DeBruijnSlot64(0x2000) == 46
    ensures DeBruijnSlot64(0x4000) == 29
    ensures DeBruijnSlot64(0x8000) == 58
  {
    DivUnique(0x100 * 0x07ED_D5E5_9A4E_28C2, WordModulus, 0x7, 0xEDD5_E59A_4E28_C200);
    DivUnique(0xEDD5_E59A_4E28_C200, 0x400_0000_0000_0000, 59, 0x1D5_E59A_4E28_C200);
    DivUnique(0x200 * 0x07ED_D5E5_9A4E_28C2, WordModulus, 0xF, 0xDBAB_CB34_9C51_8400);
    DivUnique(0xDBAB_CB34_9C51_8400, 0x400_0000_0000_0000, 54, 0x3AB_CB34_9C51_8400);
    DivUnique(0x400 * 0x07ED_D5E5_9A4E_28C2, WordModulus, 0x1F, 0xB757_9669_38A3_0800);
    DivUnique(0xB757_9669_38A3_0800, 0x400_0000_0000_0000, 45, 0x357_9669_38A3_0800);
    DivUnique(0x800 * 0x07ED_D5E5_9A4E_28C2, WordModulus, 0x3F, 0x6EAF_2CD2_7146_1000);
    DivUnique(0x6EAF_2CD2_7146_1000, 0x400_0000_0000_0000, 27, 0x2AF_2CD2_7146_1000);
    DivUnique(0x1000 * 0x07ED_D5E5_9A4E_28C2, WordModulus, 0x7E, 0xDD5E_59A4_E28C_2000);
    DivUnique(0xDD5E_59A4_E28C_2000, 0x400_0000_0000_0000, 55, 0x15E_59A4_E28C_2000);
    DivUnique(0x2000 * 0x07ED_D5E5_9A4E_28C2, WordModulus, 0xFD, 0xBABC_B349_C518_4000);
    DivUnique(0xBABC_B349_C518_4000, 0x400_0000_0000_0000, 46, 0x2BC_B349_C518_4000);
    DivUnique(0x4000 * 0x07ED_D5E5_9A4E_28C2, WordModulus, 0x1FB, 0x7579_6693_8A30_8000);
    DivUnique(0x7579_6693_8A30_8000, 0x400_0000_0000_0000, 29, 0x179_6693_8A30_8000);
    DivUnique(0x8000 * 0x07ED_D5E5_9A4E_28C2, WordModulus, 0x3F6, 0xEAF2_CD27_1461_0000);
    DivUnique(0xEAF2_CD27_1461_0000, 0x400_0000_0000_0000, 58, 0x2F2_CD27_1461_0000);
  }

  lemma Slots64Of2()
    ensures DeBruijnSlot64(0x1_0000) == 53
    ensures DeBruijnSlot64(0x2_0000) == 42
    ensures DeBruijnSlot64(0x4_0000) == 21
    ensures DeBruijnSlot64(0x8_0000) == 43
    ensures DeBruijnSlot64(0x10_0000) == 23
    ensures DeBruijnSlot64(0x20_0000) == 47
    ensures DeBruijnSlot64(0x40_0000) == 30
    ensures DeBruijnSlot64(0x80_0000) == 60
  {
    DivUnique(0x1_0000 * 0x07ED_D5E5_9A4E_28C2, WordModulus, 0x7ED, 0xD5E5_9A4E_28C2_0000);
    DivUnique(0xD5E5_9A4E_28C2_0000, 0x400_0000_0000_0000, 53, 0x1E5_9A4E_28C2_0000);
    DivUnique(0x2_0000 * 0x07ED_D5E5_9A4E_28C2, WordModulus, 0xFDB, 0xABCB_349C_5184_0000);
    DivUnique(0xABCB_349C_5184_0000, 0x400_0000_0000_0000, 42, 0x3CB_349C_5184_0000);
    DivUnique(0x4_0000 * 0x07ED_D5E5_9A4E_28C2, WordModulus, 0x1FB7, 0x5796_6938_A308_0000);
    DivUnique(0x5796_6938_A308_0000, 0x400_0000_0000_0000, 21, 0x396_6938_A308_0000);
    DivUnique(0x8_0000 * 0x07ED_D5E5_9A4E_28C2, WordModulus, 0x3F6E, 0xAF2C_D271_4610_0000);
    DivUnique(0xAF2C_D271_4610_0000, 0x400_0000_0000_0000, 43, 0x32C_D271_4610_0000);
    DivUnique(0x10_0000 * 0x07ED_D5E5_9A4E_28C2, WordModulus, 0x7EDD, 0x5E59_A4E2_8C20_0000);
    DivUnique(0x5E59_A4E2_8C20_0000, 0x400_0000_0000_0000, 23, 0x259_A4E2_8C20_0000);
    DivUnique(0x20_0000 * 0x07ED_D5E5_9A4E_28C2, WordModulus, 0xFDBA, 0xBCB3_49C5_1840_0000);
    DivUnique(0xBCB3_49C5_1840_0000, 0x400_0000_0000_0000, 47, 0xB3_49C5_1840_0000);
    DivUnique(0x40_0000 * 0x07ED_D5E5_9A4E_28C2, WordModulus, 0x1_FB75, 0x7966_938A_3080_0000);
    DivUnique(0x7966_938A_3080_0000, 0x400_0000_0000_0000, 30, 0x166_938A_3080_0000);
    DivUnique(0x80_0000 * 0x07ED_D5E5_9A4E_28C2, WordModulus, 0x3_F6EA, 0xF2CD_2714_6100_0000);
    DivUnique(0xF2CD_2714_6100_0000, 0x400_0000_0000_0000, 60, 0x2CD_2714_6100_0000);
  }

  lemma Slots64Of3()
    ensures DeBruijnSlot64(0x100_0000) == 57
    ensures DeBruijnSlot64(0x200_0000) == 50
    ensures DeBruijnSlot64(0x400_0000) == 37
    ensures DeBruijnSlot64(0x800_0000) == 11
    ensures DeBruijnSlot64(0x1000_0000) == 22
    ensures DeBruijnSlot64(0x2000_0000) == 44
    ensures DeBruijnSlot64(0x4000_0000) == 25
    ensures DeBruijnSlot64(0x8000_0000) == 51
  {
    DivUnique(0x100_0000 * 0x07ED_D5E5_9A4E_28C2, WordModulus, 0x7_EDD5, 0xE59A_4E28_C200_0000);
    DivUnique(0xE59A_4E28_C200_0000, 0x400_0000_0000_0000, 57, 0x19A_4E28_C200_0000);
    DivUnique(0x200_0000 * 0x07ED_D5E5_9A4E_28C2, WordModulus, 0xF_DBAB, 0xCB34_9C51_8400_0000);
    DivUnique(0xCB34_9C51_8400_0000, 0x400_0000_0000_0000, 50, 0x334_9C51_8400_0000);
    DivUnique(0x400_0000 * 0x07ED_D5E5_9A4E_28C2, WordModulus, 0x1F_B757, 0x9669_38A3_0800_0000);
    DivUnique(0x9669_38A3_0800_0000, 0x400_0000_0000_0000, 37, 0x269_38A3_0800_0000);
    DivUnique(0x800_0000 * 0x07ED_D5E5_9A4E_28C2, WordModulus, 0x3F_6EAF, 0x2CD2_7146_1000_0000);
    DivUnique(0x2CD2_7146_1000_0000, 0x400_0000_0000_0000, 11, 0xD2_7146_1000_0000);
    DivUnique(0x1000_0000 * 0x07ED_D5E5_9A4E_28C2, WordModulus, 0x7E_DD5E, 0x59A4_E28C_2000_0000);
    DivUnique(0x59A4_E28C_2000_0000, 0x400_0000_0000_0000, 22, 0x1A4_E28C_2000_0000);
    DivUnique(0x2000_0000 * 0x07ED_D5E5_9A4E_28C2, WordModulus, 0xFD_BABC, 0xB349_C518_4000_0000);
    DivUnique(0xB349_C518_4000_0000, 0x400_0000_0000_0000, 44, 0x349_C518_4000_0000);
    DivUnique(0x4000_0000 * 0x07ED_D5E5_9A4E_28C2, WordModulus, 0x1FB_7579, 0x6693_8A30_8000_0000);
    DivUnique(0x6693_8A30_8000_0000, 0x400_0000_0000_0000, 25, 0x293_8A30_8000_0000);
    DivUnique(0x8000_0000 * 0x07ED_D5E5_9A4E_28C2, WordModulus, 0x3F6_EAF2, 0xCD27_1461_0000_0000);
    DivUnique(0xCD27_1461_0000_0000, 0x400_0000_0000_0000, 51, 0x127_1461_0000_0000);
  }

  lemma Slots64Of4()
    ensures DeBruijnSlot64(0x1_0000_0000) == 38
    ensures DeBruijnSlot64(0x2_0000_0000) == 13
    ensures DeBruijnSlot64(0x4_0000_0000) == 26
    ensures DeBruijnSlot64(0x8_0000_0000) == 52
    ensures DeBruijnSlot64(0x10_0000_0000) == 41
    ensures DeBruijnSlot64(0x20_0000_0000) == 18
    ensures DeBruijnSlot64(0x40_0000_0000) == 36
    ensures DeBruijnSlot64(0x80_0000_0000) == 9
  {
    DivUnique(0x1_0000_0000 * 0x07ED_D5E5_9A4E_28C2, WordModulus, 0x7ED_D5E5, 0x9A4E_28C2_0000_0000);
    DivUnique(0x9A4E_28C2_0000_0000, 0x400_0000_0000_0000, 38, 0x24E_28C2_0000_0000);
    DivUnique(0x2_0000_0000 * 0x07ED_D5E5_9A4E_28C2, WordModulus, 0xFDB_ABCB, 0x349C_5184_0000_0000);
    DivUnique(0x349C_5184_0000_0000, 0x400_0000_0000_0000, 13, 0x9C_5184_0000_0000);
    DivUnique(0x4_0000_0000 * 0x07ED_D5E5_9A4E_28C2, WordModulus, 0x1FB7_5796, 0x6938_A308_0000_0000);
    DivUnique(0x6938_A308_0000_0000, 0x400_0000_0000_0000, 26, 0x138_A308_0000_0000);
    DivUnique(0x8_0000_0000 * 0x07ED_D5E5_9A4E_28C2, WordModulus, 0x3F6E_AF2C, 0xD271_4610_0000_0000);
    DivUnique(0xD271_4610_0000_0000, 0x400_0000_0000_0000, 52, 0x271_4610_0000_0000);
    DivUnique(0x10_0000_0000 * 0x07ED_D5E5_9A4E_28C2, WordModulus, 0x7EDD_5E59, 0xA4E2_8C20_0000_0000);
    DivUnique(0xA4E2_8C20_0000_0000, 0x400_0000_0000_0000, 41, 0xE2_8C20_0000_0000);
    DivUnique(0x20_0000_0000 * 0x07ED_D5E5_9A4E_28C2, WordModulus, 0xFDBA_BCB3, 0x49C5_1840_0000_0000);
    DivUnique(0x49C5_1840_0000_0000, 0x400_0000_0000_0000, 18, 0x1C5_1840_0000_0000);
    DivUnique(0x40_0000_0000 * 0x07ED_D5E5_9A4E_28C2, WordModulus, 0x1_FB75_7966, 0x938A_3080_0000_0000);
    DivUnique(0x938A_3080_0000_0000, 0x400_0000_0000_0000, 36, 0x38A_3080_0000_0000);
    DivUnique(0x80_0000_0000 * 0x07ED_D5E5_9A4E_28C2, WordModulus, 0x3_F6EA_F2CD, 0x2714_6100_0000_0000);
    DivUnique(0x2714_6100_0000_0000, 0x400_0000_0000_0000, 9, 0x314_6100_0000_0000);
  }

  lemma Slots64Of5()
    ensures DeBruijnSlot64(0x100_0000_0000) == 19
    ensures DeBruijnSlot64(0x200_0000_0000) == 39
    ensures DeBruijnSlot64(0x400_0000_0000) == 14
    ensures DeBruijnSlot64(0x800_0000_0000) == 28
    ensures DeBruijnSlot64(0x1000_0000_0000) == 56
    ensures DeBruijnSlot64(0x2000_0000_0000) == 49
    ensures DeBruijnSlot64(0x4000_0000_0000) == 34
    ensures DeBruijnSlot64(0x8000_0000_0000) == 5
  {
    DivUnique(0x100_0000_0000 * 0x07ED_D5E5_9A4E_28C2, WordModulus, 0x7_EDD5_E59A, 0x4E28_C200_0000_0000);
    DivUnique(0x4E28_C200_0000_0000, 0x400_0000_0000_0000, 19, 0x228_C200_0000_0000);
    DivUnique(0x200_0000_0000 * 0x07ED_D5E5_9A4E_28C2, WordModulus, 0xF_DBAB_CB34, 0x9C51_8400_0000_0000);
    DivUnique(0x9C51_8400_0000_0000, 0x400_0000_0000_0000, 39, 0x51_8400_0000_0000);
    DivUnique(0x400_0000_0000 * 0x07ED_D5E5_9A4E_28C2, WordModulus, 0x1F_B757_9669, 0x38A3_0800_0000_0000);
    DivUnique(0x38A3_0800_0000_0000, 0x400_0000_0000_0000, 14, 0xA3_0800_0000_0000);
    DivUnique(0x800_0000_0000 * 0x07ED_D5E5_9A4E_28C2, WordModulus, 0x3F_6EAF_2CD2, 0x7146_1000_0000_0000);
    DivUnique(0x7146_1000_0000_0000, 0x400_0000_0000_0000, 28, 0x146_1000_0000_0000);
    DivUnique(0x1000_0000_0000 * 0x07ED_D5E5_9A4E_28C2, WordModulus, 0x7E_DD5E_59A4, 0xE28C_2000_0000_0000);
    DivUnique(0xE28C_2000_0000_0000, 0x400_0000_0000_0000, 56, 0x28C_2000_0000_0000);
    DivUnique(0x2000_0000_0000 * 0x07ED_D5E5_9A4E_28C2, WordModulus, 0xFD_BABC_B349, 0xC518_4000_0000_0000);
    DivUnique(0xC518_4000_0000_0000, 0x400_0000_0000_0000, 49, 0x118_4000_0000_0000);
    DivUnique(0x4000_0000_0000 * 0x07ED_D5E5_9A4E_28C2, WordModulus, 0x1FB_7579_6693, 0x8A30_8000_0000_0000);
    DivUnique(0x8A30_8000_0000_0000, 0x400_0000_0000_0000, 34, 0x230_8000_0000_0000);
    DivUnique(0x8000_0000_0000 * 0x07ED_D5E5_9A4E_28C2, WordModulus, 0x3F6_EAF2_CD27, 0x1461_0000_0000_0000);
    DivUnique(0x1461_0000_0000_0000, 0x400_0000_0000_0000, 5, 0x61_0000_0000_0000);
  }

  lemma Slots64Of6()
    ensures DeBruijnSlot64(0x1_0000_0000_0000) == 10
    ensures DeBruijnSlot64(0x2_0000_0000_0000) == 20
    ensures DeBruijnSlot64(0x4_0000_0000_0000) == 40
    ensures DeBruijnSlot64(0x8_0000_0000_0000) == 17
    ensures DeBruijnSlot64(0x10_0000_0000_0000) == 35
    ensures DeBruijnSlot64(0x20_0000_0000_0000) == 6
    ensures DeBruijnSlot64(0x40_0000_0000_0000) == 12
    ensures DeBruijnSlot64(0x80_0000_0000_0000) == 24
  {
    DivUnique(0x1_0000_0000_0000 * 0x07ED_D5E5_9A4E_28C2, WordModulus, 0x7ED_D5E5_9A4E, 0x28C2_0000_0000_0000);
    DivUnique(0x28C2_0000_0000_0000, 0x400_0000_0000_0000, 10, 0xC2_0000_0000_0000);
    DivUnique(0x2_0000_0000_0000 * 0x07ED_D5E5_9A4E_28C2, WordModulus, 0xFDB_ABCB_349C, 0x5184_0000_0000_0000);
    DivUnique(0x5184_0000_0000_0000, 0x400_0000_0000_0000, 20, 0x184_0000_0000_0000);
    DivUnique(0x4_0000_0000_0000 * 0x07ED_D5E5_9A4E_28C2, WordModulus, 0x1FB7_5796_6938, 0xA308_0000_0000_0000);
    DivUnique(0xA308_0000_0000_0000, 0x400_0000_0000_0000, 40, 0x308_0000_0000_0000);
    DivUnique(0x8_0000_0000_0000 * 0x07ED_D5E5_9A4E_28C2, WordModulus, 0x3F6E_AF2C_D271, 0x4610_0000_0000_0000);
    DivUnique(0x4610_0000_0000_0000, 0x400_0000_0000_0000, 17, 0x210_0000_0000_0000);
    DivUnique(0x10_0000_0000_0000 * 0x07ED_D5E5_9A4E_28C2, WordModulus, 0x7EDD_5E59_A4E2, 0x8C20_0000_0000_0000);
    DivUnique(0x8C20_0000_0000_0000, 0x400_0000_0000_0000, 35, 0x20_0000_0000_0000);
    DivUnique(0x20_0000_0000_0000 * 0x07ED_D5E5_9A4E_28C2, WordModulus, 0xFDBA_BCB3_49C5, 0x1840_0000_0000_0000);
    DivUnique(0x1840_0000_0000_0000, 0x400_0000_0000_0000, 6, 0x40_0000_0000_0000);
    DivUnique(0x40_0000_0000_0000 * 0x07ED_D5E5_9A4E_28C2, WordModulus, 0x1_FB75_7966_938A, 0x3080_0000_0000_0000);
    DivUnique(0x3080_0000_0000_0000, 0x400_0000_0000_0000, 12, 0x80_0000_0000_0000);
    DivUnique(0x80_0000_0000_0000 * 0x07ED_D5E5_9A4E_28C2, WordModulus, 0x3_F6EA_F2CD_2714, 0x6100_0000_0000_0000);
    DivUnique(0x6100_0000_0000_0000, 0x400_0000_0000_0000, 24, 0x100_0000_0000_0000);
  }

  lemma Slots64Of7()
    ensures DeBruijnSlot64(0x100_0000_0000_0000) == 48
    ensures DeBruijnSlot64(0x200_0000_0000_0000) == 33
    ensures DeBruijnSlot64(0x400_0000_0000_0000) == 2
    ensures DeBruijnSlot64(0x800_0000_0000_0000) == 4
    ensures DeBruijnSlot64(0x1000_0000_0000_0000) == 8
    ensures DeBruijnSlot64(0x2000_0000_0000_0000) == 16
    ensures DeBruijnSlot64(0x4000_0000_0000_0000) == 32
    ensures DeBruijnSlot64(0x8000_0000_0000_0000) == 0
  {
    DivUnique(0x100_0000_0000_0000 * 0x07ED_D5E5_9A4E_28C2, WordModulus, 0x7_EDD5_E59A_4E28, 0xC200_0000_0000_0000);
    DivUnique(0xC200_0000_0000_0000, 0x400_0000_0000_0000, 48, 0x200_0000_0000_0000);
    DivUnique(0x200_0000_0000_0000 * 0x07ED_D5E5_9A4E_28C2, WordModulus, 0xF_DBAB_CB34_9C51, 0x8400_0000_0000_0000);
    DivUnique(0x8400_0000_0000_0000, 0x400_0000_0000_0000, 33, 0x0);
    DivUnique(0x400_0000_0000_0000 * 0x07ED_D5E5_9A4E_28C2, WordModulus, 0x1F_B757_9669_38A3, 0x800_0000_0000_0000);
    DivUnique(0x800_0000_0000_0000, 0x400_0000_0000_0000, 2, 0x0);
    DivUnique(0x800_0000_0000_0000 * 0x07ED_D5E5_9A4E_28C2, WordModulus, 0x3F_6EAF_2CD2_7146, 0x1000_0000_0000_0000);
    DivUnique(0x1000_0000_0000_0000, 0x400_0000_0000_0000, 4, 0x0);
    DivUnique(0x1000_0000_0000_0000 * 0x07ED_D5E5_9A4E_28C2, WordModulus, 0x7E_DD5E_59A4_E28C, 0x2000_0000_0000_0000);
    DivUnique(0x2000_0000_0000_0000, 0x400_0000_0000_0000, 8, 0x0);
    DivUnique(0x2000_0000_0000_0000 * 0x07ED_D5E5_9A4E_28C2, WordModulus, 0xFD_BABC_B349_C518, 0x4000_0000_0000_0000);
    DivUnique(0x4000_0000_0000_0000, 0x400_0000_0000_0000, 16, 0x0);
    DivUnique(0x4000_0000_0000_0000 * 0x07ED_D5E5_9A4E_28C2, WordModulus, 0x1FB_7579_6693_8A30, 0x8000_0000_0000_0000);
    DivUnique(0x8000_0000_0000_0000, 0x400_0000_0000_0000, 32, 0x0);
    DivUnique(0x8000_0000_0000_0000 * 0x07ED_D5E5_9A4E_28C2, WordModulus, 0x3F6_EAF2_CD27_1461, 0x0);
    DivUnique(0x0, 0x400_0000_0000_0000, 0, 0x0);
  }

  lemma Slots32Of0()
    ensures DeBruijnSlot32(0x1) == 0
    ensures DeBruijnSlot32(0x3) == 2
    ensures DeBruijnSlot32(0x7) == 6
    ensures DeBruijnSlot32(0xF) == 14
    ensures DeBruijnSlot32(0x1F) == 30
    ensures DeBruijnSlot32(0x3F) == 29
    ensures DeBruijnSlot32(0x7F) == 27
    ensures DeBruijnSlot32(0xFF) == 23
  {
    DivUnique(0x1 * 0x07C4_ACDD, 0x1_0000_0000, 0x0, 0x7C4_ACDD);
    DivUnique(0x7C4_ACDD, 0x800_0000, 0, 0x7C4_ACDD);
    DivUnique(0x3 * 0x07C4_ACDD, 0x1_0000_0000, 0x0, 0x174E_0697);
    DivUnique(0x174E_0697, 0x800_0000, 2, 0x74E_0697);
    DivUnique(0x7 * 0x07C4_ACDD, 0x1_0000_0000, 0x0, 0x3660_BA0B);
    DivUnique(0x3660_BA0B, 0x800_0000, 6, 0x660_BA0B);
    DivUnique(0xF * 0x07C4_ACDD, 0x1_0000_0000, 0x0, 0x7486_20F3);
    DivUnique(0x7486_20F3, 0x800_0000, 14, 0x486_20F3);
    DivUnique(0x1F * 0x07C4_ACDD, 0x1_0000_0000, 0x0, 0xF0D0_EEC3);
    DivUnique(0xF0D0_EEC3, 0x800_0000, 30, 0xD0_EEC3);
    DivUnique(0x3F * 0x07C4_ACDD, 0x1_0000_0000, 0x1, 0xE966_8A63);
    DivUnique(0xE966_8A63, 0x800_0000, 29, 0x166_8A63);
    DivUnique(0x7F * 0x07C4_ACDD, 0x1_0000_0000, 0x3, 0xDA91_C1A3);
    DivUnique(0xDA91_C1A3, 0x800_0000, 27, 0x291_C1A3);
    DivUnique(0xFF * 0x07C4_ACDD, 0x1_0000_0000, 0x7, 0xBCE8_3023);
    DivUnique(0xBCE8_3023, 0x800_0000, 23, 0x4E8_3023);
  }

  lemma Slots32Of1()
    ensures DeBruijnSlot32(0x1FF) == 16
    ensures DeBruijnSlot32(0x3FF) == 1
    ensures DeBruijnSlot32(0x7FF) == 3
    ensures DeBruijnSlot32(0xFFF) == 8
    ensures DeBruijnSlot32(0x1FFF) == 17
    ensures DeBruijnSlot32(0x3FFF) == 4
    ensures DeBruijnSlot32(0x7FFF) == 9
    ensures DeBruijnSlot32(0xFFFF) == 20
  {
    DivUnique(0x1FF * 0x07C4_ACDD, 0x1_0000_0000, 0xF, 0x8195_0D23);
    DivUnique(0x8195_0D23, 0x800_0000, 16, 0x195_0D23);
    DivUnique(0x3FF * 0x07C4_ACDD, 0x1_0000_0000, 0x1F, 0xAEE_C723);
    DivUnique(0xAEE_C723, 0x800_0000, 1, 0x2EE_C723);
    DivUnique(0x7FF * 0x07C4_ACDD, 0x1_0000_0000, 0x3E, 0x1DA2_3B23);
    DivUnique(0x1DA2_3B23, 0x800_0000, 3, 0x5A2_3B23);
    DivUnique(0xFFF * 0x07C4_ACDD, 0x1_0000_0000, 0x7C, 0x4309_2323);
    DivUnique(0x4309_2323, 0x800_0000, 8, 0x309_2323);
    DivUnique(0x1FFF * 0x07C4_ACDD, 0x1_0000_0000, 0xF8, 0x8DD6_F323);
    DivUnique(0x8DD6_F323, 0x800_0000, 17, 0x5D6_F323);
    DivUnique(0x3FFF * 0x07C4_ACDD, 0x1_0000_0000, 0x1F1, 0x2372_9323);
    DivUnique(0x2372_9323, 0x800_0000, 4, 0x372_9323);
    DivUnique(0x7FFF * 0x07C4_ACDD, 0x1_0000_0000, 0x3E2, 0x4EA9_D323);
    DivUnique(0x4EA9_D323, 0x800_0000, 9, 0x6A9_D323);
    DivUnique(0xFFFF * 0x07C4_ACDD, 0x1_0000_0000, 0x7C4, 0xA518_5323);
    DivUnique(0xA518_5323, 0x800_0000, 20, 0x518_5323);
  }

  lemma Slots32Of2()
    ensures DeBruijnSlot32(0x1_FFFF) == 10
    ensures DeBruijnSlot32(0x3_FFFF) == 21
    ensures DeBruijnSlot32(0x7_FFFF) == 11
    ensures DeBruijnSlot32(0xF_FFFF) == 24
    ensures DeBruijnSlot32(0x1F_FFFF) == 18
    ensures DeBruijnSlot32(0x3F_FFFF) == 5
    ensures DeBruijnSlot32(0x7F_FFFF) == 12
    ensures DeBruijnSlot32(0xFF_FFFF) == 26
  {
    DivUnique(0x1_FFFF * 0x07C4_ACDD, 0x1_0000_0000, 0xF89, 0x51F5_5323);
    DivUnique(0x51F5_5323, 0x800_0000, 10, 0x1F5_5323);
    DivUnique(0x3_FFFF * 0x07C4_ACDD, 0x1_0000_0000, 0x1F12, 0xABAF_5323);
    DivUnique(0xABAF_5323, 0x800_0000, 21, 0x3AF_5323);
    DivUnique(0x7_FFFF * 0x07C4_ACDD, 0x1_0000_0000, 0x3E25, 0x5F23_5323);
    DivUnique(0x5F23_5323, 0x800_0000, 11, 0x723_5323);
    DivUnique(0xF_FFFF * 0x07C4_ACDD, 0x1_0000_0000, 0x7C4A, 0xC60B_5323);
    DivUnique(0xC60B_5323, 0x800_0000, 24, 0x60B_5323);
    DivUnique(0x1F_FFFF * 0x07C4_ACDD, 0x1_0000_0000, 0xF895, 0x93DB_5323);
    DivUnique(0x93DB_5323, 0x800_0000, 18, 0x3DB_5323);
    DivUnique(0x3F_FFFF * 0x07C4_ACDD, 0x1_0000_0000, 0x1_F12B, 0x2F7B_5323);
    DivUnique(0x2F7B_5323, 0x800_0000, 5, 0x77B_5323);
    DivUnique(0x7F_FFFF * 0x07C4_ACDD, 0x1_0000_0000, 0x3_E256, 0x66BB_5323);
    DivUnique(0x66BB_5323, 0x800_0000, 12, 0x6BB_5323);
    DivUnique(0xFF_FFFF * 0x07C4_ACDD, 0x1_0000_0000, 0x7_C4AC, 0xD53B_5323);
    DivUnique(0xD53B_5323, 0x800_0000, 26, 0x53B_5323);
  }

  lemma Slots32Of3()
    ensures DeBruijnSlot32(0x1FF_FFFF) == 22
    ensures DeBruijnSlot32(0x3FF_FFFF) == 13
    ensures DeBruijnSlot32(0x7FF_FFFF) == 28
    ensures DeBruijnSlot32(0xFFF_FFFF) == 25
    ensures DeBruijnSlot32(0x1FFF_FFFF) == 19
    ensures DeBruijnSlot32(0x3FFF_FFFF) == 7
    ensures DeBruijnSlot32(0x7FFF_FFFF) == 15
    ensures DeBruijnSlot32(0xFFFF_FFFF) == 31
  {
    DivUnique(0x1FF_FFFF * 0x07C4_ACDD, 0x1_0000_0000, 0xF_8959, 0xB23B_5323);
    DivUnique(0xB23B_5323, 0x800_0000, 22, 0x23B_5323);
    DivUnique(0x3FF_FFFF * 0x07C4_ACDD, 0x1_0000_0000, 0x1F_12B3, 0x6C3B_5323);
    DivUnique(0x6C3B_5323, 0x800_0000, 13, 0x43B_5323);
    DivUnique(0x7FF_FFFF * 0x07C4_ACDD, 0x1_0000_0000, 0x3E_2566, 0xE03B_5323);
    DivUnique(0xE03B_5323, 0x800_0000, 28, 0x3B_5323);
    DivUnique(0xFFF_FFFF * 0x07C4_ACDD, 0x1_0000_0000, 0x7C_4ACD, 0xC83B_5323);
    DivUnique(0xC83B_5323, 0x800_0000, 25, 0x3B_5323);
    DivUnique(0x1FFF_FFFF * 0x07C4_ACDD, 0x1_0000_0000, 0xF8_959B, 0x983B_5323);
    DivUnique(0x983B_5323, 0x800_0000, 19, 0x3B_5323);
    DivUnique(0x3FFF_FFFF * 0x07C4_ACDD, 0x1_0000_0000, 0x1F1_2B37, 0x383B_5323);
    DivUnique(0x383B_5323, 0x800_0000, 7, 0x3B_5323);
    DivUnique(0x7FFF_FFFF * 0x07C4_ACDD, 0x1_0000_0000, 0x3E2_566E, 0x783B_5323);
    DivUnique(0x783B_5323, 0x800_0000, 15, 0x3B_5323);
    DivUnique(0xFFFF_FFFF * 0x07C4_ACDD, 0x1_0000_0000, 0x7C4_ACDC, 0xF83B_5323);
    DivUnique(0xF83B_5323, 0x800_0000, 31, 0x3B_5323);
  }

  /* The table entries, one row at a time. */
  lemma Lut64Row0()
    ensures Log2Lut64(0) == 63 && Log2Lut64(1) == 0 && Log2Lut64(2) == 58 && Log2Lut64(3) == 1
    ensures Log2Lut64(4) == 59 && Log2Lut64(5) == 47 && Log2Lut64(6) == 53 && Log2Lut64(7) == 2
  {
  }

  lemma Lut64Row1()
    ensures Log2Lut64(8) == 60 && Log2Lut64(9) == 39 && Log2Lut64(10) == 48 && Log2Lut64(11) == 27
    ensures Log2Lut64(12) == 54 && Log2Lut64(13) == 33 && Log2Lut64(14) == 42 && Log2Lut64(15) == 3
  {
  }

  lemma Lut64Row2()
    ensures Log2Lut64(16) == 61 && Log2Lut64(17) == 51 && Log2Lut64(18) == 37 && Log2Lut64(19) == 40
    ensures Log2Lut64(20) == 49 && Log2Lut64(21) == 18 && Log2Lut64(22) == 28 && Log2Lut64(23) == 20
  {
  }

  lemma Lut64Row3()
    ensures Log2Lut64(24) == 55 && Log2Lut64(25) == 30 && Log2Lut64(26) == 34 && Log2Lut64(27) == 11
    ensures Log2Lut64(28) == 43 && Log2Lut64(29) == 14 && Log2Lut64(30) == 22 && Log2Lut64(31) == 4
  {
  }

  lemma Lut64Row4()
    ensures Log2Lut64(32) == 62 && Log2Lut64(33) == 57 && Log2Lut64(34) == 46 && Log2Lut64(35) == 52
    ensures Log2Lut64(36) == 38 && Log2Lut64(37) == 26 && Log2Lut64(38) == 32 && Log2Lut64(39) == 41
  {
  }

  lemma Lut64Row5()
    ensures Log2Lut64(40) == 50 && Log2Lut64(41) == 36 && Log2Lut64(42) == 17 && Log2Lut64(43) == 19
    ensures Log2Lut64(44) == 29 && Log2Lut64(45) == 10 && Log2Lut64(46) == 13 && Log2Lut64(47) == 21
  {
  }

  lemma Lut64Row6()
    ensures Log2Lut64(48) == 56 && Log2Lut64(49) == 45 && Log2Lut64(50) == 25 && Log2Lut64(51) == 31
    ensures Log2Lut64(52) == 35 && Log2Lut64(53) == 16 && Log2Lut64(54) == 9 && Log2Lut64(55) == 12
  {
  }

  lemma Lut64Row7()
    ensures Log2Lut64(56) == 44 && Log2Lut64(57) == 24 && Log2Lut64(58) == 15 && Log2Lut64(59) == 8
    ensures Log2Lut64(60) == 23 && Log2Lut64(61) == 7 && Log2Lut64(62) == 6 && Log2Lut64(63) == 5
  {
  }

  lemma Lut32Row0()
    ensures Log2Lut32(0) == 0 && Log2Lut32(1) == 9 && Log2Lut32(2) == 1 && Log2Lut32(3) == 10
    ensures Log2Lut32(4) == 13 && Log2Lut32(5) == 21 && Log2Lut32(6) == 2 && Log2Lut32(7) == 29
  {
  }

  lemma Lut32Row1()
    ensures Log2Lut32(8) == 11 && Log2Lut32(9) == 14 && Log2Lut32(10) == 16 && Log2Lut32(11) == 18
    ensures Log2Lut32(12) == 22 && Log2Lut32(13) == 25 && Log2Lut32(14) == 3 && Log2Lut32(15) == 30
  {
  }

  lemma Lut32Row2()
    ensures Log2Lut32(16) == 8 && Log2Lut32(17) == 12 && Log2Lut32(18) == 20 && Log2Lut32(19) == 28
    ensures Log2Lut32(20) == 15 && Log2Lut32(21) == 17 && Log2Lut32(22) == 24 && Log2Lut32(23) == 7
  {
  }

  lemma Lut32Row3()
    ensures Log2Lut32(24) == 19 && Log2Lut32(25) == 27 && Log2Lut32(26) == 23 && Log2Lut32(27) == 6
    ensures Log2Lut32(28) == 26 && Log2Lut32(29) == 5 && Log2Lut32(30) == 4 && Log2Lut32(31) == 31
  {
  }

  /** The 64-entry table maps the slot of `Pow2(k)` back to `k`; the proof
      goes through the 64 cases. */
  lemma Lut64Inverts(k: nat, h: nat)
    requires k < 64 && h == Pow2(k)
    ensures Log2Lut64(DeBruijnSlot64(h)) == k
  {
    Pow2Numerals();
    Slots64Of0(); Slots64Of1(); Slots64Of2(); Slots64Of3();
    Slots64Of4(); Slots64Of5(); Slots64Of6(); Slots64Of7();
    Lut64Row0(); Lut64Row1(); Lut64Row2(); Lut64Row3();
    Lut64Row4(); Lut64Row5(); Lut64Row6(); Lut64Row7();
    if k == 0 {
    } else if k == 1 {
    } else if k == 2 {
    } else if k == 3 {
    } else if k == 4 {
    } else if k == 5 {
    } else if k == 6 {
    } else if k == 7 {
    } else if k == 8 {
    } else if k == 9 {
    } else if k == 10 {
    } else if k == 11 {
    } else if k == 12 {
    } else if k == 13 {
    } else if k == 14 {
    } else if k == 15 {
    } else if k == 16 {
    } else if k == 17 {
    } else if k == 18 {
    } else if k == 19 {
    } else if k == 20 {
    } else if k == 21 {
    } else if k == 22 {
    } else if k == 23 {
    } else if k == 24 {
    } else if k == 25 {
    } else if k == 26 {
    } else if k == 27 {
    } else if k == 28 {
    } else if k == 29 {
    } else if k == 30 {
    } else if k == 31 {
    } else if k == 32 {
    } else if k == 33 {
    } else if k == 34 {
    } else if k == 35 {
    } else if k == 36 {
    } else if k == 37 {
    } else if k == 38 {
    } else if k == 39 {
    } else if k == 40 {
    } else if k == 41 {
    } else if k == 42 {
    } else if k == 43 {
    } else if k == 44 {
    } else if k == 45 {
    } else if k == 46 {
    } else if k == 47 {
    } else if k == 48 {
    } else if k == 49 {
    } else if k == 50 {
    } else if k == 51 {
    } else if k == 52 {
    } else if k == 53 {
    } else if k == 54 {
    } else if k == 55 {
    } else if k == 56 {
    } else if k == 57 {
    } else if k == 58 {
    } else if k == 59 {
    } else if k == 60 {
    } else if k == 61 {
    } else if k == 62 {
    } else if k == 63 {
    }
  }

  /** The 32-entry table maps the slot of the smeared `Pow2(k + 1) - 1` back
      to `k`. */
  lemma Lut32Inverts(k: nat, m: nat)
    requires k < 32 && m == Pow2(k + 1) - 1
    ensures Log2Lut32(DeBruijnSlot32(m)) == k
  {
    Pow2Numerals();
    Slots32Of0(); Slots32Of1(); Slots32Of2(); Slots32Of3();
    Lut32Row0(); Lut32Row1(); Lut32Row2(); Lut32Row3();
    if k == 0 {
    } else if k == 1 {
    } else if k == 2 {
    } else if k == 3 {
    } else if k == 4 {
    } else if k == 5 {
    } else if k == 6 {
    } else if k == 7 {
    } else if k == 8 {
    } else if k == 9 {
    } else if k == 10 {
    } else if k == 11 {
    } else if k == 12 {
    } else if k == 13 {
    } else if k == 14 {
    } else if k == 15 {
    } else if k == 16 {
    } else if k == 17 {
    } else if k == 18 {
    } else if k == 19 {
    } else if k == 20 {
    } else if k == 21 {
    } else if k == 22 {
    } else if k == 23 {
    } else if k == 24 {
    } else if k == 25 {
    } else if k == 26 {
    } else if k == 27 {
    } else if k == 28 {
    } else if k == 29 {
    } else if k == 30 {
    } else if k == 31 {
    }
  }

  /** A `u64` is a `Pow2(Pow2(6))`-bit value. */
  lemma WidthOf64(x: u64)
    ensures x < Pow2(Pow2(6))
  {
    Pow2Small();
    Pow2Of64();
  }

  /** A `u32` is a `Pow2(Pow2(5))`-bit value. */
  lemma WidthOf32(x: u32)
    ensures x < Pow2(Pow2(5))
  {
    Pow2Small();
    Pow2Of32();
  }

  /** The steps of `cflat_log2_u64` on a non-zero `Pow2(Pow2(6))`-bit value:
      the isolated top bit `x - (x >> 1)` of the smear is `prev_pow2`'s
      result, and the table turns it into its position. */
  lemma Log2U64Steps(x: nat)
    requires 1 <= x < Pow2(Pow2(6))
    ensures Log2Floor(x) < 64
    ensures Log2Lut64(DeBruijnSlot64(PrevPow2Unsigned(x, 6))) == Log2Floor(x)
  {
    Pow2Small();
    PrevPow2UnsignedSpec(x, 6);
    SmearOfPositive(x, 6);
    Lut64Inverts(Log2Floor(x), PrevPow2Unsigned(x, 6));
  }

  lemma Log2U64OfZero()
    ensures Log2Lut64(DeBruijnSlot64(PrevPow2Unsigned(0, 6))) == 63
  {
    Lut64Row0();
    DivUnique(0, WordModulus, 0, 0);
    DivUnique(0, 0x400_0000_0000_0000, 0, 0);
  }

  /** `cflat_log2_u64`: smear, isolate the top bit, look its position up. */
  function Log2U64(x: u64): (r: u64)
    ensures x != 0 ==> r == Log2Floor(x)
    ensures x == 0 ==> r == 63
  {
    Log2Looked64(x)
  }

  /** The lookup of `cflat_log2_u64`, on any 64-bit value. */
  function Log2Looked64(x: nat): (r: nat)
    requires x < WordModulus
    ensures x != 0 ==> r == Log2Floor(x) < 64
    ensures x == 0 ==> r == 63
  {
    Log2U64Is(x);
    Log2Lut64(DeBruijnSlot64(PrevPow2Unsigned(x, 6)))
  }

  lemma Log2U64Is(x: u64)
    ensures x < Pow2(Pow2(6))
    ensures x != 0 ==> Log2Lut64(DeBruijnSlot64(PrevPow2Unsigned(x, 6))) == Log2Floor(x) < 64
    ensures x == 0 ==> Log2Lut64(DeBruijnSlot64(PrevPow2Unsigned(x, 6))) == 63
  {
    WidthOf64(x);
    if x == 0 {
      Log2U64OfZero();
    } else {
      Log2U64Steps(x);
    }
  }

  /** The steps of `cflat_log2_u32` on a non-zero `Pow2(Pow2(5))`-bit value:
      the smear itself is looked up. */
  lemma Log2U32Steps(x: nat)
    requires 1 <= x < Pow2(Pow2(5))
    ensures Log2Floor(x) < 32
    ensures Log2Lut32(DeBruijnSlot32(Smear(x, 5))) == Log2Floor(x)
  {
    Pow2Small();
    SmearOfPositive(x, 5);
    Lut32Inverts(Log2Floor(x), Smear(x, 5));
  }

  lemma Log2U32OfZero()
    ensures Log2Lut32(DeBruijnSlot32(Smear(0, 5))) == 0
  {
    SmearOfZero(5);
    Lut32Row0();
    DivUnique(0, 0x1_0000_0000, 0, 0);
    DivUnique(0, 0x800_0000, 0, 0);
  }

  /** `cflat_log2_u32`: smear, then look the block of ones up. */
  function Log2U32(x: u32): (r: u32)
    ensures x != 0 ==> r == Log2Floor(x)
    ensures x == 0 ==> r == 0
  {
    Log2Looked32(x)
  }

  /** The lookup of `cflat_log2_u32`, on any 32-bit value. */
  function Log2Looked32(x: nat): (r: nat)
    requires x < 0x1_0000_0000
    ensures x != 0 ==> r == Log2Floor(x) < 32
    ensures x == 0 ==> r == 0
  {
    Log2U32Is(x);
    Log2Lut32(DeBruijnSlot32(Smear(x, 5)))
  }

  lemma Log2U32Is(x: u32)
    ensures x < Pow2(Pow2(5))
    ensures x != 0 ==> Log2Lut32(DeBruijnSlot32(Smear(x, 5))) == Log2Floor(x) < 32
    ensures x == 0 ==> Log2Lut32(DeBruijnSlot32(Smear(x, 5))) == 0
  {
    WidthOf32(x);
    if x == 0 {
      Log2U32OfZero();
    } else {
      Log2U32Steps(x);
    }
  }
}
