/** Open addressing as CflatHashTable.h and CflatHashSet.h share it: the
    byte hash, the double-hashing probe step, and the slot scans behind
    `cflat__hashtable_add_raw` and `cflat_hashtable_get`.

    A table's flag, key and value arrays are one sequence of slots; a key
    or value is its bytes.  Keys are compared byte for byte (`memcmp`). */
module HashProbe {
  import opened Words
  import opened Bits
  import opened Core

  /* ---------------------------------------------------------------------- */
  /*  Arithmetic modulo a power of two                                       */
  /* ---------------------------------------------------------------------- */

  lemma ModAddMultiple(x: nat, q: nat, m: nat)
    requires m > 0
    ensures (x + m * q) % m == x % m
  {
    var qx, r := x / m, x % m;
    DivMod(x, m);
    assert m * (qx + q) == m * qx + m * q;
    DivUnique(x + m * q, m, qx + q, r);
  }

  /** Adding the same amount keeps numbers congruent. */
  lemma ModAddCongruent(a: nat, b: nat, c: nat, m: nat)
    requires m > 0 && a % m == b % m
    ensures (a + c) % m == (b + c) % m
  {
    ShiftedMod(a, c, m);
    ShiftedMod(b, c, m);
  }

  /** Adding to a number adds to its remainder. */
  lemma ShiftedMod(a: nat, c: nat, m: nat)
    requires m > 0
    ensures (a + c) % m == (a % m + c) % m
  {
    var q, r := a / m, a % m;
    DivMod(a, m);
    ModAddMultiple(r + c, q, m);
  }

  /** Congruent numbers differ by a multiple of the modulus. */
  lemma ModDifference(a: nat, b: nat, m: nat)
    requires m > 0 && a % m == b % m && a <= b
    ensures (b - a) % m == 0
  {
    DivMod(a, m);
    DivMod(b, m);
    var q := b / m - a / m;
    if q < 0 {
      MulIntMonotone(m, q, -1);
    }
    assert b - a == m * q;
    DivUnique(b - a, m, q, 0);
  }

  lemma AddMultipleDifference(x: nat, m: nat, a: nat, b: nat)
    requires m > 0 && b <= a
    ensures (x + (m * a - m * b)) % m == x % m
  {
    assert m * a - m * b == m * (a - b);
    ModAddMultiple(x, a - b, m);
  }

  /** Reducing modulo `Pow2(f)` first does not change a remainder modulo a
      smaller power of two. */
  lemma ModOfModPow2(x: nat, e: nat, f: nat)
    requires e <= f
    ensures (x % Pow2(f)) % Pow2(e) == x % Pow2(e)
  {
    Pow2Add(e, f - e);
    ModOfModMul(x, Pow2(e), Pow2(f - e));
  }

  lemma ModOfModMul(x: nat, a: nat, b: nat)
    requires a > 0 && b > 0
    ensures (x % (a * b)) % a == x % a
  {
    var n := a * b;
    var q, r := x / n, x % n;
    DivMod(x, n);
    assert q * n == a * (b * q);
    ModAddMultiple(r, b * q, a);
  }

  /** An odd factor keeps the parity. */
  lemma ProductParity(d: nat, s: nat)
    requires s % 2 == 1
    ensures (d * s) % 2 == d % 2
  {
    var h, r, t := d / 2, d % 2, s / 2;
    assert d * s == 2 * (2 * h * t + h + r * t) + r;
  }

  /** An odd factor cannot supply a power of two: if `d * s` is a multiple
      of `Pow2(e)` with `s` odd, so is `d`. */
  lemma {:induction false} OddCancel(d: nat, s: nat, e: nat)
    requires s % 2 == 1 && (d * s) % Pow2(e) == 0
    ensures d % Pow2(e) == 0
    decreases e
  {
    if e > 0 {
      var p := Pow2(e - 1);
      ModPow2Step(d * s, e, p);
      var h := d / 2;
      ProductParity(d, s);
      assert d == 2 * h;
      assert (d * s) / 2 == h * s;
      OddCancel(h, s, e - 1);
      ModPow2Step(d, e, p);
    }
  }

  /* ---------------------------------------------------------------------- */
  /*  The byte hash                                                          */
  /* ---------------------------------------------------------------------- */

  /** The seed and multiplier of `cflat__fnv1a_hash`; they are not the
      published FNV-1a offset basis and prime. */
  const FnvSeed: u64 := 0x100
  const FnvMultiplier: nat := 1111111111111111111

  /** One byte of `cflat__fnv1a_hash`: `h ^= byte; h *= multiplier`, the
      product wrapping at 64 bits. */
  function FnvMix(h: u64, b: u8): (r: u64)
  {
    (Xor(h, b) * FnvMultiplier) % WordModulus
  }

  function FnvFold(key: seq<u8>, h: u64): (r: u64)
    decreases |key|
  {
    if key == [] then h else FnvFold(key[1..], FnvMix(h, key[0]))
  }

  /** `cflat__fnv1a_hash`: the fold over the key from the seed, then
      `h ^ h >> 32`. */
  function Fnv(key: seq<u8>): (r: u64)
  {
    var h := FnvFold(key, FnvSeed);
    Pow2Of64();
    XorBelow(h, ShiftRight(h, 32), 64);
    Xor(h, ShiftRight(h, 32))
  }

  /** The hash reads the key one byte at a time, first to last. */
  lemma {:induction false} FnvFoldAppend(key: seq<u8>, b: u8, h: u64)
    ensures FnvFold(key + [b], h) == FnvMix(FnvFold(key, h), b)
    decreases |key|
  {
    if key == [] {
      assert FnvFold([b], h) == FnvFold([], FnvMix(h, b));
    } else {
      assert (key + [b])[1..] == key[1..] + [b];
      FnvFoldAppend(key[1..], b, FnvMix(h, key[0]));
    }
  }

  /** The loop of `cflat__fnv1a_hash` computes the fold: after `i` rounds
      `h` is the fold of the first `i` bytes.  `key[i] & 255` is the byte
      itself. */
  method FnvHash(key: seq<u8>) returns (r: u64)
    ensures r == Fnv(key)
  {
    var h: u64 := FnvSeed;
    var i := 0;
    while i < |key|
      invariant 0 <= i <= |key|
      invariant h == FnvFold(key[..i], FnvSeed)
    {
      FnvFoldAppend(key[..i], key[i], FnvSeed);
      assert key[..i + 1] == key[..i] + [key[i]];
      h := FnvMix(h, key[i]);
      i := i + 1;
    }
    assert key[..i] == key;
    Pow2Of64();
    XorBelow(h, ShiftRight(h, 32), 64);
    r := Xor(h, ShiftRight(h, 32));
  }

  /** The empty key hashes to the seed: no round runs and the seed has no
      bits above 32. */
  lemma FnvEmpty()
    ensures Fnv([]) == FnvSeed
  {
    Pow2Of32();
    assert ShiftRight(FnvSeed, 32) == 0;
    XorZero(FnvSeed);
  }

  /* ---------------------------------------------------------------------- */
  /*  The probe sequence                                                     */
  /* ---------------------------------------------------------------------- */

  /** `(u64)(i32)x`: the low 32 bits, sign-extended back to 64. */
  function ThroughI32(x: u64): (r: u64)
  {
    var low := x % 0x1_0000_0000;
    if low < 0x8000_0000 then low else low + (WordModulus - 0x1_0000_0000)
  }

  /** The step of `cfalt__mask_step_next`: the top `e` bits of the hash,
      made odd.  (For `e == 0` the C shift by 64 is undefined; here it gives
      0, and the mask then makes the step irrelevant.) */
  function Step(hash: u64, e: nat): (s: u64)
    requires e < 64
    ensures s % 2 == 1
  {
    Pow2Of64();
    OrBelow(ShiftRight(hash, 64 - e), 1, 64);
    OrOne(ShiftRight(hash, 64 - e));
    Or(ShiftRight(hash, 64 - e), 1)
  }

  lemma OrOne(x: nat)
    ensures Or(x, 1) % 2 == 1
  {
    var k := Or(x / 2, 0);
    assert Or(x, 1) == 2 * k + 1;
  }

  /** `cfalt__mask_step_next(hash, e, last)`: the previous index passes
      through an `i32` parameter, the step is added, and the sum is masked
      to `e` bits. */
  function MaskStep(hash: u64, e: nat, last: u64): (r: u64)
    requires e < 64
    ensures r < Pow2(e)
  {
    var y := AddWrap(ThroughI32(last), Step(hash, e));
    AndLowOnes(y, e);
    Pow2Monotone(e, 64);
    Pow2Of64();
    And(y, Pow2(e) - 1)
  }

  /** Up to 32 index bits the truncation and the wrap-around are invisible:
      the next index is the last plus the step, modulo the capacity. */
  lemma MaskStepMod(hash: u64, e: nat, last: u64)
    requires e <= 32
    ensures MaskStep(hash, e, last) == (last + Step(hash, e)) % Pow2(e)
  {
    var m := Pow2(e);
    var t := ThroughI32(last);
    var s := Step(hash, e);
    var y := AddWrap(t, s);
    AndLowOnes(y, e);
    ThroughI32Mod(last, e);
    AddWrapLow(t, s, e);
    ModAddCongruent(t, last, s, m);
  }

  /** Below 64 bits the wrap of an addition is invisible. */
  lemma AddWrapLow(t: u64, s: u64, e: nat)
    requires e <= 64
    ensures AddWrap(t, s) % Pow2(e) == (t + s) % Pow2(e)
  {
    var m, a := Pow2(e), Pow2(64 - e);
    Pow2Add(e, 64 - e);
    Pow2Of64();
    if t + s >= WordModulus {
      ModAddMultiple(AddWrap(t, s), a, m);
    }
  }

  lemma ThroughI32Mod(x: u64, e: nat)
    requires e <= 32
    ensures ThroughI32(x) % Pow2(e) == x % Pow2(e)
  {
    Pow2Of32();
    Pow2Of64();
    ModOfModPow2(x, e, 32);
    var low := x % 0x1_0000_0000;
    if low >= 0x8000_0000 {
      var m, a, b := Pow2(e), Pow2(64 - e), Pow2(32 - e);
      Pow2Add(e, 64 - e);
      Pow2Add(e, 32 - e);
      Pow2Monotone(32 - e, 64 - e);
      AddMultipleDifference(low, m, a, b);
    }
  }

  /** The index examined at probe `k`: probe 0 is the hash itself, and each
      probe applies `cfalt__mask_step_next` to the previous one. */
  function Probe(hash: u64, e: nat, k: nat): (p: u64)
    requires e < 64
    ensures k >= 1 ==> p < Pow2(e)
  {
    if k == 0 then hash else MaskStep(hash, e, Probe(hash, e, k - 1))
  }

  /** Probe `k` is `hash + k * step` modulo the capacity. */
  lemma {:induction false} ProbeMod(hash: u64, e: nat, k: nat)
    requires e <= 32
    ensures Probe(hash, e, k) % Pow2(e) == (hash + k * Step(hash, e)) % Pow2(e)
    decreases k
  {
    if k > 0 {
      var m := Pow2(e);
      var s := Step(hash, e);
      var last := Probe(hash, e, k - 1);
      var p := Probe(hash, e, k);
      ProbeMod(hash, e, k - 1);
      MaskStepMod(hash, e, last);
      ModSmall(p, m);
      NextMultiple(last, hash, k, s, m);
    }
  }

  lemma NextMultiple(last: nat, h: nat, k: nat, s: nat, m: nat)
    requires m > 0 && k > 0 && last % m == (h + (k - 1) * s) % m
    ensures (last + s) % m == (h + k * s) % m
  {
    ModAddCongruent(last, h + (k - 1) * s, s, m);
    assert h + (k - 1) * s + s == h + k * s;
  }

  /** Distinct multiples of an odd step below the modulus are not congruent. */
  lemma DistinctMultiples(h: nat, i: nat, j: nat, s: nat, e: nat)
    requires s % 2 == 1 && i < j && j - i < Pow2(e)
    ensures (h + i * s) % Pow2(e) != (h + j * s) % Pow2(e)
  {
    var m := Pow2(e);
    if (h + i * s) % m == (h + j * s) % m {
      MulMonotone(s, i, j);
      ModDifference(h + i * s, h + j * s, m);
      assert (h + j * s) - (h + i * s) == (j - i) * s;
      OddCancel(j - i, s, e);
      ModSmall(j - i, m);
    }
  }

  lemma SameResidue(p: nat, q: nat, m: nat)
    requires p < m && q < m && p % m == q % m
    ensures p == q
  {
    ModSmall(p, m);
    ModSmall(q, m);
  }

  /** Adding the modulus to the multiplier changes nothing. */
  lemma PeriodMultiples(h: nat, k: nat, s: nat, m: nat)
    requires m > 0
    ensures (h + (k + m) * s) % m == (h + k * s) % m
  {
    assert h + (k + m) * s == h + k * s + m * s;
    ModAddMultiple(h + k * s, s, m);
  }

  /** The first `Pow2(e)` probes are pairwise distinct. */
  lemma ProbeDistinct(hash: u64, e: nat, i: nat, j: nat)
    requires e <= 32 && 1 <= i < j <= Pow2(e)
    ensures Probe(hash, e, i) != Probe(hash, e, j)
  {
    var p, q := Probe(hash, e, i), Probe(hash, e, j);
    ProbeMod(hash, e, i);
    ProbeMod(hash, e, j);
    DistinctResidues(p, q, hash, i, j, Step(hash, e), e);
  }

  lemma DistinctResidues(p: nat, q: nat, h: nat, i: nat, j: nat, s: nat, e: nat)
    requires p < Pow2(e) && q < Pow2(e) && s % 2 == 1 && i < j && j - i < Pow2(e)
    requires p % Pow2(e) == (h + i * s) % Pow2(e) && q % Pow2(e) == (h + j * s) % Pow2(e)
    ensures p != q
  {
    ModSmall(p, Pow2(e));
    ModSmall(q, Pow2(e));
    DistinctMultiples(h, i, j, s, e);
  }

  /** After `Pow2(e)` probes the sequence repeats. */
  lemma ProbePeriodic(hash: u64, e: nat, k: nat)
    requires e <= 32 && k >= 1
    ensures Probe(hash, e, k + Pow2(e)) == Probe(hash, e, k)
  {
    var m := Pow2(e);
    var s := Step(hash, e);
    var p, q := Probe(hash, e, k), Probe(hash, e, k + m);
    ProbeMod(hash, e, k);
    ProbeMod(hash, e, k + m);
    PeriodicResidue(p, q, hash, k, s, m);
  }

  lemma PeriodicResidue(p: nat, q: nat, h: nat, k: nat, s: nat, m: nat)
    requires p < m && q < m
    requires p % m == (h + k * s) % m && q % m == (h + (k + m) * s) % m
    ensures p == q
  {
    PeriodMultiples(h, k, s, m);
    SameResidue(p, q, m);
  }

  /** The indices of probes 1 to `n`. */
  function Probed(hash: u64, e: nat, n: nat): (r: set<nat>)
    requires e < 64
    ensures forall x :: x in r ==> x < Pow2(e)
  {
    if n == 0 then {} else Probed(hash, e, n - 1) + {Probe(hash, e, n) as nat}
  }

  lemma {:induction false} ProbedHas(hash: u64, e: nat, n: nat, k: nat)
    requires e < 64 && 1 <= k <= n
    ensures Probe(hash, e, k) as nat in Probed(hash, e, n)
    decreases n
  {
    if k < n {
      ProbedHas(hash, e, n - 1, k);
    }
  }

  lemma {:induction false} ProbedWitness(hash: u64, e: nat, n: nat, x: nat) returns (k: nat)
    requires e < 64 && x in Probed(hash, e, n)
    ensures 1 <= k <= n && Probe(hash, e, k) == x
    decreases n
  {
    if x == Probe(hash, e, n) {
      k := n;
    } else {
      k := ProbedWitness(hash, e, n - 1, x);
    }
  }

  lemma {:induction false} ProbedSize(hash: u64, e: nat, n: nat)
    requires e <= 32 && n <= Pow2(e)
    ensures |Probed(hash, e, n)| == n
    decreases n
  {
    if n > 0 {
      ProbedSize(hash, e, n - 1);
      if Probe(hash, e, n) as nat in Probed(hash, e, n - 1) {
        var k := ProbedWitness(hash, e, n - 1, Probe(hash, e, n));
        ProbeDistinct(hash, e, k, n);
      }
    }
  }

  /** The naturals below `n`. */
  function Below(n: nat): set<nat>
  {
    if n == 0 then {} else Below(n - 1) + {n - 1}
  }

  lemma {:induction false} BelowMembers(n: nat)
    ensures forall x: nat :: x in Below(n) <==> x < n
  {
    if n > 0 {
      BelowMembers(n - 1);
    }
  }

  lemma {:induction false} BelowSize(n: nat)
    ensures |Below(n)| == n
  {
    if n > 0 {
      BelowSize(n - 1);
      BelowMembers(n - 1);
    }
  }

  lemma {:induction false} SubsetSize(a: set<nat>, b: set<nat>)
    requires a <= b
    ensures |a| <= |b|
    decreases |b|
  {
    if a != {} {
      var x :| x in a;
      SubsetSize(a - {x}, b - {x});
    }
  }

  /** The probe sequence visits every slot within `Pow2(e)` probes: the
      step is odd, so it generates the whole index group. */
  lemma ProbeCovers(hash: u64, e: nat, t: nat) returns (k: nat)
    requires e <= 32 && t < Pow2(e)
    ensures 1 <= k <= Pow2(e) && Probe(hash, e, k) == t
  {
    var m := Pow2(e);
    var seen := Probed(hash, e, m);
    ProbedSize(hash, e, m);
    BelowSize(m);
    BelowMembers(m);
    if t !in seen {
      SubsetSize(seen, Below(m) - {t});
      assert false;
    }
    k := ProbedWitness(hash, e, m, t);
  }
}
