/** The integer skeleton of CflatFft.h: the twiddle table's indexing
    (`cflat_twidle_index`), the loops of `cflat_twidle_precompute`, the
    index pattern of the radix-2 merge loops and the even/odd split of
    `cflat__fft_c32` and `cflat__ifft_c32`.  Twiddle values, butterflies
    and scaling are floating point and are not modelled. */
module Fft {
  import opened Words
  import opened Bits
  import opened Core

  /** `CFLAT_TWIDDLE_CACHE_LOG2` and `CFLAT_TWIDDLE_CACHE_SIZE`. */
  const CacheLog2: nat := 16
  const CacheSize: nat := 0x1_0000

  /** Lanes of a `CflatVec256cf`: four `c32` values. */
  const Lanes: nat := 4

  predicate Distinct<T(==)>(s: seq<T>) {
    forall i, j :: 0 <= i < j < |s| ==> s[i] != s[j]
  }

  lemma DistinctAppend<T>(s: seq<T>, t: seq<T>)
    requires Distinct(s) && Distinct(t)
    requires forall x :: x in t ==> x !in s
    ensures Distinct(s + t)
  {
    forall i, j | 0 <= i < j < |s + t|
      ensures (s + t)[i] != (s + t)[j]
    {
      if i < |s| && j >= |s| {
        assert (s + t)[j] in t;
      }
    }
  }

  /* ---------------------------------------------------------------------- */
  /*  cflat_twidle_index                                                     */
  /* ---------------------------------------------------------------------- */

  /** `cflat_twidle_index(k, len)`: `k + L - (L >> n)` with `n = 16 -
      log2(len)` in `usize`.  C leaves a shift by 64 or more undefined;
      this reading takes the count modulo 64, as x86-64 does. */
  function TwiddleIndex(k: u64, len: u64): (r: u64)
    ensures k + CacheSize < WordModulus ==> k <= r <= k + CacheSize
  {
    TwiddleSlot(k, Log2U64(len))
  }

  /** The slot for `k` once `log2(len)` is known: at most one table past
      `k`, unless the sum wraps. */
  function TwiddleSlot(k: u64, log: u64): (r: u64)
    ensures k + CacheSize < WordModulus ==> k <= r <= k + CacheSize
  {
    var sum := k + RegionStart(log);
    if sum < WordModulus then
      ModSmall(sum, WordModulus);
      sum % WordModulus
    else sum % WordModulus
  }

  /** `S_n = L - (L >> n)` for `n = 16 - log` in `usize`. */
  function RegionStart(log: u64): nat {
    var n := SubWrap(CacheLog2, log);
    CacheSize - ShiftRight(CacheSize, n % 64)
  }

  lemma Log2OfPow2(m: nat)
    requires m < 64
    ensures Pow2(m) < WordModulus && Log2U64(Pow2(m)) == m
  {
    Pow2Of64();
    Pow2Monotone(m, 63);
    var k := Log2Floor(Pow2(m));
    Pow2Between(m, k);
  }

  /** The size `2^m` as a `u64`. */
  function Len(m: nat): (len: u64)
    requires m < 64
    ensures len == Pow2(m)
  {
    Log2OfPow2(m);
    Pow2(m)
  }

  /** `L >> (16 - m)` is `2^m`. */
  lemma ShiftOfCache(m: nat)
    requires m <= 16
    ensures ShiftRight(CacheSize, CacheLog2 - m) == Pow2(m)
  {
    Pow2Of16();
    Pow2Quotient(m, CacheLog2 - m);
  }

  lemma Pow2Quotient(a: nat, b: nat)
    ensures Pow2(a + b) / Pow2(b) == Pow2(a)
  {
    Pow2Add(a, b);
    var x, y := Pow2(a), Pow2(b);
    assert x * y == y * x;
    DivUnique(Pow2(a + b), y, x, 0);
  }

  /** Up to `log = 16` the region starts `2^log` below the top. */
  lemma RegionStartOf(m: nat)
    requires m <= 16
    ensures RegionStart(m) == CacheSize - Pow2(m)
  {
    var n := CacheLog2 - m;
    assert SubWrap(CacheLog2, m) == n;
    ModSmall(n, 64);
    ShiftOfCache(m);
  }

  /** For `len = 2^m` with `1 <= m <= 16` and `k < len / 2` the slot is
      `k + 2^16 - 2^m`, inside the region `[2^16 - 2^m, 2^16 - 2^(m-1))`
      of the table. */
  lemma TwiddleIndexSpec(k: u64, m: nat)
    requires 1 <= m <= 16 && k < Pow2(m - 1)
    ensures TwiddleIndex(k, Len(m)) == k + CacheSize - Pow2(m)
    ensures CacheSize - Pow2(m) <= TwiddleIndex(k, Len(m)) < CacheSize - Pow2(m - 1)
  {
    TwiddleIndexOfPow2(k, m);
    TwiddleSlotSpec(k, m);
  }

  /** For `len = 2^m` the index is the slot for `log = m`. */
  lemma TwiddleIndexOfPow2(k: u64, m: nat)
    requires m < 64
    ensures TwiddleIndex(k, Len(m)) == TwiddleSlot(k, m)
  {
    Log2OfPow2(m);
  }

  lemma TwiddleSlotSpec(k: u64, m: nat)
    requires 1 <= m <= 16 && k < Pow2(m - 1)
    ensures TwiddleSlot(k, m) == k + CacheSize - Pow2(m)
  {
    Pow2Of16();
    Pow2Monotone(m, 16);
    RegionStartOf(m);
    ModSmall(k + CacheSize - Pow2(m), WordModulus);
  }

  /** Distinct `(len, k)` pairs use distinct slots. */
  lemma TwiddleDistinct(k1: u64, m1: nat, k2: u64, m2: nat)
    requires 1 <= m1 <= 16 && k1 < Pow2(m1 - 1)
    requires 1 <= m2 <= 16 && k2 < Pow2(m2 - 1)
    requires (k1, m1) != (k2, m2)
    ensures TwiddleIndex(k1, Len(m1)) != TwiddleIndex(k2, Len(m2))
  {
    TwiddleIndexSpec(k1, m1);
    TwiddleIndexSpec(k2, m2);
    var i1, i2 := TwiddleIndex(k1, Len(m1)), TwiddleIndex(k2, Len(m2));
    SlotsDiffer(k1, m1, i1, k2, m2, i2);
  }

  /** The arithmetic of `TwiddleDistinct`: regions of different sizes do
      not overlap and within one region `k` tells the slots apart. */
  lemma SlotsDiffer(k1: nat, m1: nat, i1: nat, k2: nat, m2: nat, i2: nat)
    requires 1 <= m1 <= 16 && k1 < Pow2(m1 - 1) && i1 == k1 + CacheSize - Pow2(m1)
    requires 1 <= m2 <= 16 && k2 < Pow2(m2 - 1) && i2 == k2 + CacheSize - Pow2(m2)
    requires (k1, m1) != (k2, m2)
    ensures i1 != i2
  {
    if m1 < m2 {
      Pow2Monotone(m1, m2 - 1);
    } else if m2 < m1 {
      Pow2Monotone(m2, m1 - 1);
    }
  }

  /** A vector lookup at a `k` the merge loops reach (a multiple of 4
      below `len / 2`, for `len >= 8`) reads four slots that all lie in
      `len`'s region. */
  lemma VectorLookupInRegion(k: u64, m: nat)
    requires 3 <= m <= 16 && k < Pow2(m - 1) && k % Lanes == 0
    ensures TwiddleIndex(k, Len(m)) + Lanes <= CacheSize - Pow2(m - 1)
  {
    TwiddleIndexSpec(k, m);
    LanesFit(k, m);
  }

  /** A multiple of 4 below `2^(m-1)`, for `m >= 3`, is at least 4 below
      it. */
  lemma LanesFit(k: nat, m: nat)
    requires 3 <= m && k < Pow2(m - 1) && k % Lanes == 0
    ensures k + Lanes <= Pow2(m - 1)
  {
    LanesDivide(m - 1);
    FitBelow(k, Pow2(m - 1));
  }

  /** Two multiples of 4: the smaller is at least 4 below the larger. */
  lemma FitBelow(k: nat, p: nat)
    requires k < p && k % Lanes == 0 && p % Lanes == 0
    ensures k + Lanes <= p
  {
  }

  /* ---------------------------------------------------------------------- */
  /*  cflat_twidle_precompute                                                */
  /* ---------------------------------------------------------------------- */

  /** The loops of `cflat_twidle_precompute`: the slots it writes, in
      order, and the `done` flag afterwards.  A second call writes nothing;
      the first writes every slot below `2^16 - 1` exactly once (`len = 1`
      has no `k < len / 2`, so the top slot is never written). */
  method Precompute(done: bool) returns (slots: seq<u64>, doneAfter: bool)
    ensures doneAfter
    ensures done ==> slots == []
    ensures !done ==> Distinct(slots) && forall x: nat :: x in slots <==> x < CacheSize - 1
  {
    if done {
      return [], true;
    }
    Pow2Of16();
    slots := [];
    var len: u64 := 1;
    ghost var m: nat := 0;
    while len <= CacheSize
      invariant m <= 17 && len == Pow2(m)
      invariant Distinct(slots)
      invariant forall x: nat :: x in slots <==> CacheSize - len / 2 <= x < CacheSize - 1
      decreases 17 - m
    {
      var k: u64 := 0;
      while k < len / 2
        invariant k <= len / 2
        invariant Distinct(slots)
        invariant forall x: nat :: x in slots <==> (CacheSize - len / 2 <= x < CacheSize - 1) || (CacheSize - len <= x < CacheSize - len + k)
      {
        TwiddleIndexSpec(k, m);
        assert len == Len(m);
        var i := TwiddleIndex(k, len);
        PrecomputeStep(slots, len, k, i);
        slots := slots + [i];
        k := k + 1;
      }
      len := len * 2;
      m := m + 1;
    }
    if m < 17 {
      Pow2Monotone(m, 16);
    }
    doneAfter := true;
  }

  /** Writing slot `CacheSize - len + k` extends the written range by one
      and keeps every slot written once. */
  lemma PrecomputeStep(slots: seq<u64>, len: nat, k: nat, i: nat)
    requires 1 <= len <= CacheSize && k < len / 2 && i == CacheSize - len + k
    requires Distinct(slots)
    requires forall x: nat :: x in slots <==> (CacheSize - len / 2 <= x < CacheSize - 1) || (CacheSize - len <= x < CacheSize - len + k)
    ensures Distinct(slots + [i])
    ensures forall x: nat :: x in slots + [i] <==> (CacheSize - len / 2 <= x < CacheSize - 1) || (CacheSize - len <= x < CacheSize - len + k + 1)
  {
    DistinctAppend(slots, [i]);
  }

  /* ---------------------------------------------------------------------- */
  /*  The radix-2 merge loops                                                */
  /* ---------------------------------------------------------------------- */

  /** The four consecutive indices a vector load or store at `i` touches. */
  function Lane4(i: nat): seq<nat> {
    [i, i + 1, i + 2, i + 3]
  }

  /** The index pattern of `for (k = 0; k < half; k += 4)
      cflat__radix2merge_v256cf(k, len, out)` for `len = 2^m >= 8`: the
      twiddle slots read and the `out` indices touched (`e = k` and `o = k +
      half`, four lanes each).  Every twiddle read stays in `len`'s region
      and every `out` index below `len` is touched exactly once. */
  method MergeIndices(m: nat) returns (twiddles: seq<nat>, outs: seq<nat>)
    requires 3 <= m <= 16
    ensures forall t :: t in twiddles ==> CacheSize - Pow2(m) <= t < CacheSize - Pow2(m - 1)
    ensures Distinct(outs) && forall x: nat :: x in outs <==> x < Pow2(m)
  {
    var len := Len(m);
    var half: u64 := len / 2;
    assert half == Pow2(m - 1);
    LanesDivide(m - 1);
    Pow2Of16();
    Pow2Monotone(m, 16);
    var lo: nat, hi: nat := CacheSize - len, CacheSize - half;
    twiddles, outs := [], [];
    var k: u64 := 0;
    ghost var j: nat := 0;
    while k < half
      invariant k <= half && k == Lanes * j
      invariant forall t :: t in twiddles ==> lo <= t < hi
      invariant Distinct(outs)
      invariant forall x: nat :: x in outs <==> x < k || half <= x < half + k
    {
      LaneMultiple(j);
      VectorLookupInRegion(k, m);
      TwiddleIndexSpec(k, m);
      var t := TwiddleIndex(k, len);
      MergeStep(outs, k, half);
      LanesInRegion(twiddles, t, lo, hi);
      twiddles := twiddles + Lane4(t);
      outs := Stepped(outs, k, half);
      k := k + Lanes;
      j := j + 1;
    }
  }

  lemma LaneMultiple(j: nat)
    ensures (Lanes * j) % Lanes == 0
  {
  }

  /** Four lanes from `t` stay in `[lo, hi)` when they start in it and end
      by `hi`. */
  lemma LanesInRegion(twiddles: seq<nat>, t: nat, lo: nat, hi: nat)
    requires forall x :: x in twiddles ==> lo <= x < hi
    requires lo <= t && t + Lanes <= hi
    ensures forall x :: x in twiddles + Lane4(t) ==> lo <= x < hi
  {
  }

  /** `2^j` is a multiple of 4 from `j = 2` on. */
  lemma LanesDivide(j: nat)
    requires j >= 2
    ensures Pow2(j) % Lanes == 0
  {
    Pow2Add(2, j - 2);
    Pow2Small();
    assert Pow2(j) == 4 * Pow2(j - 2);
  }

  /** One merge step touches `e .. e + 4` and `o .. o + 4`, none of them
      touched before. */
  lemma MergeStep(outs: seq<nat>, k: nat, half: nat)
    requires k % Lanes == 0 && half % Lanes == 0 && k < half
    requires Distinct(outs)
    requires forall x: nat :: x in outs <==> x < k || half <= x < half + k
    ensures Distinct(Stepped(outs, k, half))
    ensures forall x: nat :: x in Stepped(outs, k, half) <==> x < k + Lanes || half <= x < half + k + Lanes
  {
    assert k + Lanes <= half;
    var touched := Lane4(k) + Lane4(k + half);
    assert Distinct(touched);
    DistinctAppend(outs, touched);
    assert Stepped(outs, k, half) == outs + touched;
  }

  /** The `out` indices after one more merge step. */
  function Stepped(outs: seq<nat>, k: nat, half: nat): seq<nat> {
    outs + Lane4(k) + Lane4(k + half)
  }

  /* ---------------------------------------------------------------------- */
  /*  The even/odd split of cflat__fft_c32 and cflat__ifft_c32               */
  /* ---------------------------------------------------------------------- */

  /** `{offset + j * stride | j < n}`: the inputs of a strided view. */
  function Strided(offset: nat, stride: nat, n: nat): set<nat> {
    set j | 0 <= j < n :: offset + j * stride
  }

  /** The inputs a call `cflat__fft_c32(len, stride, out, in + offset)`
      reads.  Sizes 0, 1, 2, 4, 8 and 16 go to the butterflies, which read
      `in[j * stride]` for `j < len`; any other size recurses on `len / 2`
      with `stride * 2`, once at `in` and once at `in + stride`.
      `cflat__ifft_c32` has the same shape. */
  function Reads(len: nat, stride: nat, offset: nat): set<nat>
    decreases len
  {
    if len == 0 || len == 1 || len == 2 || len == 4 || len == 8 || len == 16 then Strided(offset, stride, len)
    else Reads(len / 2, 2 * stride, offset) + Reads(len / 2, 2 * stride, offset + stride)
  }

  /** The even members of a strided set and the odd ones split it: they
      are disjoint and together make the whole set. */
  lemma SplitStrided(offset: nat, stride: nat, h: nat)
    requires stride >= 1
    ensures Strided(offset, 2 * stride, h) + Strided(offset + stride, 2 * stride, h) == Strided(offset, stride, 2 * h)
    ensures Strided(offset, 2 * stride, h) * Strided(offset + stride, 2 * stride, h) == {}
  {
    StridedCovered(offset, stride, h);
    StridedInside(offset, stride, h);
    StridedDisjoint(offset, stride, h);
  }

  lemma StridedCovered(offset: nat, stride: nat, h: nat)
    ensures Strided(offset, stride, 2 * h) <= Strided(offset, 2 * stride, h) + Strided(offset + stride, 2 * stride, h)
  {
    forall x | x in Strided(offset, stride, 2 * h)
      ensures x in Strided(offset, 2 * stride, h) + Strided(offset + stride, 2 * stride, h)
    {
      var j :| 0 <= j < 2 * h && x == offset + j * stride;
      var i := j / 2;
      EvenOddProducts(i, stride);
      if j % 2 == 0 {
        assert j == 2 * i;
        assert x in Strided(offset, 2 * stride, h);
      } else {
        assert j == 2 * i + 1;
        assert x in Strided(offset + stride, 2 * stride, h);
      }
    }
  }

  lemma StridedInside(offset: nat, stride: nat, h: nat)
    ensures Strided(offset, 2 * stride, h) <= Strided(offset, stride, 2 * h)
    ensures Strided(offset + stride, 2 * stride, h) <= Strided(offset, stride, 2 * h)
  {
    forall x | x in Strided(offset, 2 * stride, h)
      ensures x in Strided(offset, stride, 2 * h)
    {
      var i :| 0 <= i < h && x == offset + i * (2 * stride);
      EvenOddProducts(i, stride);
      assert x == offset + (2 * i) * stride;
    }
    forall x | x in Strided(offset + stride, 2 * stride, h)
      ensures x in Strided(offset, stride, 2 * h)
    {
      var i :| 0 <= i < h && x == offset + stride + i * (2 * stride);
      EvenOddProducts(i, stride);
      assert x == offset + (2 * i + 1) * stride;
    }
  }

  lemma StridedDisjoint(offset: nat, stride: nat, h: nat)
    requires stride >= 1
    ensures Strided(offset, 2 * stride, h) * Strided(offset + stride, 2 * stride, h) == {}
  {
    forall x | x in Strided(offset, 2 * stride, h)
      ensures x !in Strided(offset + stride, 2 * stride, h)
    {
      var i :| 0 <= i < h && x == offset + i * (2 * stride);
      forall i' | 0 <= i' < h
        ensures x != offset + stride + i' * (2 * stride)
      {
        NoEvenOdd(stride, i, i');
      }
    }
  }

  lemma EvenOddProducts(i: nat, stride: nat)
    ensures (2 * i) * stride == i * (2 * stride)
    ensures (2 * i + 1) * stride == stride + i * (2 * stride)
  {
  }

  /** An even multiple of `stride` is never an odd one. */
  lemma NoEvenOdd(stride: nat, i: nat, i': nat)
    requires stride >= 1
    ensures i * (2 * stride) != stride + i' * (2 * stride)
  {
    if i <= i' {
      MulMonotone(2 * stride, i, i');
    } else {
      MulMonotone(2 * stride, i' + 1, i);
    }
  }

  /** For a power-of-two size the recursion reads every input of its
      strided view: the halves at `in` and `in + stride` take the even and
      the odd members, and they never overlap. */
  lemma {:induction false} ReadsSpec(m: nat, stride: nat, offset: nat)
    requires stride >= 1
    ensures Reads(Pow2(m), stride, offset) == Strided(offset, stride, Pow2(m))
    decreases m
  {
    Pow2Small();
    if m > 4 {
      Pow2Monotone(5, m);
      var h := Pow2(m - 1);
      assert Pow2(m) / 2 == h;
      ReadsSpec(m - 1, 2 * stride, offset);
      ReadsSpec(m - 1, 2 * stride, offset + stride);
      SplitStrided(offset, stride, h);
    } else {
      assert Pow2(1) == 2 && Pow2(2) == 4;
      assert m == 0 || m == 1 || m == 2 || m == 3 || m == 4;
    }
  }

  /* ---------------------------------------------------------------------- */
  /*  The entry points' checks                                               */
  /* ---------------------------------------------------------------------- */

  /** `cflat_fft_c32` and `cflat_ifft_c32` as written: they assert that
      the size is a power of two and that the input and output addresses
      are multiples of 32, then run the transform, whose merges look up
      twiddles for every power of two up to the size.  Nothing bounds the
      size by the table. */
  function EntryAsWritten(size: u64, input: u64, output: u64): (r: Outcome<u64>)
    ensures r.Done? <==> IsPowerOfTwo(size) && input % 32 == 0 && output % 32 == 0
    ensures r.Done? ==> r.value == size
  {
    IsPow2Iff(size);
    if IsPow2(size) && input % 32 == 0 && output % 32 == 0 then Done(size) else Faults
  }

  /** A size of 2^17 passes the check, and its last merge's twiddle index
      for `k = 0` is 2^16, one past the table (`16 - log2(len)` wraps). */
  lemma OversizedReadsPast()
    ensures EntryAsWritten(Len(17), 32, 64).Done?
    ensures TwiddleIndex(0, Len(17)) == CacheSize
  {
    assert IsPowerOfTwo(Len(17));
    TwiddleIndexOfPow2(0, 17);
    RegionStartOf17();
    ModSmall(CacheSize, WordModulus);
  }

  /** `16 - 17` wraps to `2^64 - 1`, whose low six bits are 63. */
  lemma RegionStartOf17()
    ensures RegionStart(17) == CacheSize
  {
    var n := SubWrap(CacheLog2, 17);
    assert n == WordModulus - 1;
    DivUnique(n, 64, 0x3FF_FFFF_FFFF_FFFF, 63);
    ShiftPastTable();
  }

  /** Shifting the table size right by 63 leaves nothing. */
  lemma ShiftPastTable()
    ensures ShiftRight(CacheSize, 63) == 0
  {
    Pow2Of64();
    DivUnique(CacheSize, Pow2(63), 0, CacheSize);
  }

  /** The entry points with the size bound the table needs as well: a
      power of two no larger than 2^16, and both buffers 32-byte
      aligned. */
  function Entry(size: u64, input: u64, output: u64): (r: Outcome<u64>)
    ensures r.Done? <==> IsPowerOfTwo(size) && size <= CacheSize && input % 32 == 0 && output % 32 == 0
    ensures r.Done? ==> r.value == size
  {
    IsPow2Iff(size);
    if IsPow2(size) && size <= CacheSize && input % 32 == 0 && output % 32 == 0 then Done(size) else Faults
  }

  /** Every size `Entry` accepts keeps each merge's twiddle lookups in the
      table. */
  lemma EntryLookupsInTable(size: u64, input: u64, output: u64, k: u64, m: nat)
    requires Entry(size, input, output).Done?
    requires 1 <= m && Pow2(m) <= size && k < Pow2(m - 1)
    ensures m < 64 && TwiddleIndex(k, Len(m)) < CacheSize
  {
    Pow2Of16();
    if m > 16 {
      Pow2Monotone(17, m);
    }
    TwiddleIndexSpec(k, m);
  }
}
