/** The linear congruential generator of the access benchmark
    (tst/access.c): `distinct_sequence_rng` and `lcg_rand_next_u64`.

    The state, multiplier and increment are `unsigned long long`, so a step
    is taken modulo 2^64 and then masked with `max_exclusive - 1`.  For a
    power of two `2^k` the mask keeps the step modulo `2^k`, and the
    constructor's conditions (odd increment, multiplier one more than a
    multiple of four) are those of the Hull–Dobell theorem: the first `2^k`
    values are then every number below `2^k`, once each. */
module Lcg {
  import opened Words

  datatype Generator = Generator(state: u64, multiplier: u64, increment: u64)

  /** The constant the multiplier is made from. */
  const BaseMultiplier: u64 := 6364136223846793005

  /* ---------------------------------------------------------------------- */
  /*  distinct_sequence_rng                                                  */
  /* ---------------------------------------------------------------------- */

  /** `x | 1`: `x` if it is odd, the next number if it is even. */
  lemma OrOne(x: nat)
    ensures Or(x, 1) == x + 1 - x % 2 && Or(x, 1) % 2 == 1
  {
    OrZero(x / 2);
    DivUnique(Or(x, 1), 2, x / 2, 1);
  }

  lemma {:induction false} OrZero(y: nat)
    ensures Or(y, 0) == y
    decreases y
  {
    if y != 0 {
      OrZero(y / 2);
    }
  }

  /** `(x & ~3ULL) | 1`: the low two bits of `x` become `01`. */
  function ForceOneModFour(x: u64): (r: u64)
    ensures r % 4 == 1 && r == x - x % 4 + 1
  {
    Pow2Of64();
    assert Pow2(2) == 4;
    assert Not(3, 64) == HighOnes(64, 2);
    AndHighOnes(x, 64, 2);
    DivUnique(x, 4, x / 4, x % 4);
    var cleared := And(x, Not(3, 64));
    OrOne(cleared);
    DivUnique(cleared + 1, 4, x / 4, 1);
    Or(cleared, 1)
  }

  /** `(6364136223846793005ULL & ~3ULL) | 1`. */
  function Multiplier(): (m: u64)
    ensures m % 4 == 1
  {
    ForceOneModFour(BaseMultiplier)
  }

  /** `distinct_sequence_rng(seed, increment)`. */
  function Create(seed: u64, increment: u64): (g: Generator)
    ensures g.state == seed
    ensures g.increment % 2 == 1 && g.increment == increment + 1 - increment % 2
    ensures g.multiplier % 4 == 1
  {
    OrOne(increment);
    Pow2Of64();
    OrBelow(increment, 1, 64);
    Generator(seed, Multiplier(), Or(increment, 1))
  }

  /** The constant already has the low bits `01`, so it is the multiplier
      unchanged. */
  lemma CreateMultiplier(seed: u64, increment: u64)
    ensures Create(seed, increment).multiplier == BaseMultiplier
  {
    DivUnique(BaseMultiplier, 4, BaseMultiplier / 4, 1);
  }

  /* ---------------------------------------------------------------------- */
  /*  lcg_rand_next_u64                                                      */
  /* ---------------------------------------------------------------------- */

  /** One step of the map over the integers. */
  function Affine(a: nat, c: nat, s: nat): nat {
    a * s + c
  }

  /** `lcg_rand_next_u64(lcg, max_exclusive)`: the new state, which is also
      the value returned. */
  function Next(g: Generator, maxExclusive: u64): (h: Generator)
    ensures h.multiplier == g.multiplier && h.increment == g.increment
    ensures maxExclusive >= 1 ==> h.state < maxExclusive
  {
    var mask := SubWrap(maxExclusive, 1);
    var v := Affine(g.multiplier, g.increment, g.state) % WordModulus;
    AndAtMost(v, mask);
    g.(state := And(v, mask))
  }

  /** `max_exclusive` for the modulus `2^k`; `2^64` is written 0, whose mask
      is all ones. */
  function MaxFor(k: nat): u64
    requires k <= 64
  {
    Pow2(k) % WordModulus
  }

  /** With `max_exclusive == 2^k` a step is the affine map
      `s -> (a * s + c) mod 2^k`. */
  lemma NextOfPow2(g: Generator, k: nat)
    requires k <= 64
    ensures Next(g, MaxFor(k)).state == Affine(g.multiplier, g.increment, g.state) % Pow2(k)
  {
    MaskOfPow2(k);
    var x := Affine(g.multiplier, g.increment, g.state);
    assert Next(g, MaxFor(k)).state == And(x % WordModulus, Pow2(k) - 1);
    AndLowOnes(x % WordModulus, k);
    ModOfMod(x, k);
  }

  /** The mask for `2^k` is `k` low ones. */
  lemma MaskOfPow2(k: nat)
    requires k <= 64
    ensures SubWrap(MaxFor(k), 1) == Pow2(k) - 1
  {
    Pow2Of64();
    if k < 64 {
      Pow2StrictMonotone(k, 64);
      ModSmall(Pow2(k), WordModulus);
    } else {
      DivUnique(Pow2(64), WordModulus, 1, 0);
    }
  }

  /** Reducing modulo 2^64 first does not change a remainder modulo `2^k`. */
  lemma ModOfMod(x: nat, k: nat)
    requires k <= 64
    ensures (x % WordModulus) % Pow2(k) == x % Pow2(k)
  {
    Pow2Of64();
    Pow2Add(k, 64 - k);
    ModOfMultiple(x, Pow2(k), Pow2(64 - k), WordModulus);
  }

  /** Reducing modulo a multiple `m = p * h` of `p` first does not change
      a remainder modulo `p`. */
  lemma ModOfMultiple(x: nat, p: nat, h: nat, m: nat)
    requires p >= 1 && h >= 1 && m == p * h
    ensures (x % m) % p == x % p
  {
    var q, r := x / m, x % m;
    var q', r' := r / p, r % p;
    Regather(x, p, h, m, q, r, q', r');
    DivUnique(x, p, h * q + q', r');
  }

  /** The masked value never exceeds the mask: with `max_exclusive` odd
      the mask is even and so is every value. */
  lemma NextOfOddMax(g: Generator, maxExclusive: u64)
    requires maxExclusive % 2 == 1
    ensures Next(g, maxExclusive).state % 2 == 0
  {
    var mask := maxExclusive - 1;
    var v := Affine(g.multiplier, g.increment, g.state) % WordModulus;
    assert SubWrap(maxExclusive, 1) == mask;
    BitOfAnd(v, mask, 0);
  }

  /** The values of `n` calls with the same `max_exclusive`. */
  function Run(g: Generator, maxExclusive: u64, n: nat): (r: seq<u64>)
    ensures |r| == n
    ensures maxExclusive >= 1 ==> forall i :: 0 <= i < n ==> r[i] < maxExclusive
    decreases n
  {
    if n == 0 then [] else
      var h := Next(g, maxExclusive);
      [h.state] + Run(h, maxExclusive, n - 1)
  }

  /** The benchmarks draw indices below `INT32_MAX`, an odd bound: no value
      is odd, so half the slots are never drawn. */
  lemma OddBoundRepeats(g: Generator)
    ensures var r := Run(g, 0x7FFF_FFFF, 0x7FFF_FFFF);
            && (forall i :: 0 <= i < |r| ==> r[i] % 2 == 0)
            && 1 !in r
  {
    EvenRun(g, 0x7FFF_FFFF, 0x7FFF_FFFF);
  }

  lemma {:induction false} EvenRun(g: Generator, maxExclusive: u64, n: nat)
    requires maxExclusive % 2 == 1
    ensures forall i :: 0 <= i < n ==> Run(g, maxExclusive, n)[i] % 2 == 0
    decreases n
  {
    if n > 0 {
      NextOfOddMax(g, maxExclusive);
      EvenRun(Next(g, maxExclusive), maxExclusive, n - 1);
    }
  }

  /* ---------------------------------------------------------------------- */
  /*  The affine map over the integers                                       */
  /* ---------------------------------------------------------------------- */

  function Power(a: nat, n: nat): nat {
    if n == 0 then 1 else a * Power(a, n - 1)
  }

  /** `1 + a + ... + a^(n-1)`, in Horner form. */
  function Geo(a: nat, n: nat): nat {
    if n == 0 then 0 else 1 + a * Geo(a, n - 1)
  }

  /** `n` steps of `s -> a * s + c`, without reduction. */
  function Orbit(a: nat, c: nat, s: nat, n: nat): nat {
    if n == 0 then s else Affine(a, c, Orbit(a, c, s, n - 1))
  }

  /** `a^n = 1 + (a - 1) * (1 + a + ... + a^(n-1))`. */
  lemma {:induction false} PowerGeo(a: nat, n: nat)
    requires a >= 1
    ensures Power(a, n) == 1 + (a - 1) * Geo(a, n)
  {
    if n > 0 {
      PowerGeo(a, n - 1);
      var g := Geo(a, n - 1);
      calc {
        Power(a, n);
        a * (1 + (a - 1) * g);
        { Distribute(a, a - 1, g); }
        1 + (a - 1) * (1 + a * g);
      }
    }
  }

  lemma Distribute(a: nat, b: nat, g: nat)
    requires a == b + 1
    ensures a * (1 + b * g) == 1 + b * (1 + a * g)
  {
    assert a * (b * g) == b * (a * g);
  }

  /** How far the first step moves `s`: `a * s + c - s`. */
  function Drift(a: nat, c: nat, s: nat): nat
    requires a >= 1
  {
    (a - 1) * s + c
  }

  /** With `a` one more than a multiple of four and `c` odd, every first
      step moves by an odd amount. */
  lemma DriftOdd(a: nat, c: nat, s: nat)
    requires a % 4 == 1 && c % 2 == 1
    ensures Drift(a, c, s) % 2 == 1
  {
    var t := a / 4;
    assert a - 1 == 4 * t;
    Quadruple(t, s);
    DivUnique(Drift(a, c, s), 2, 2 * (t * s) + c / 2, 1);
  }

  lemma Quadruple(t: nat, s: nat)
    ensures (4 * t) * s == 2 * (2 * (t * s))
  {
  }

  /** `(1 + a + ... + a^(n-1))` first steps. */
  function Travel(a: nat, c: nat, s: nat, n: nat): nat
    requires a >= 1
  {
    Geo(a, n) * Drift(a, c, s)
  }

  /** After `n` steps `s` has moved by `(1 + a + ... + a^(n-1))` times the
      first step's move. */
  lemma {:induction false} OrbitMove(a: nat, c: nat, s: nat, n: nat)
    requires a >= 1
    ensures Orbit(a, c, s, n) == s + Travel(a, c, s, n)
  {
    if n > 0 {
      OrbitMove(a, c, s, n - 1);
      PowerGeo(a, n - 1);
      MoveStep(a, c, s, Geo(a, n - 1));
    }
  }

  lemma MoveStep(a: nat, c: nat, s: nat, g: nat)
    requires a >= 1
    ensures a * (s + g * ((a - 1) * s + c)) + c == s + (1 + a * g) * ((a - 1) * s + c)
  {
    var d := (a - 1) * s + c;
    assert a * (s + g * d) == a * s + (a * g) * d;
    assert (1 + a * g) * d == d + (a * g) * d;
  }

  lemma {:induction false} OrbitCompose(a: nat, c: nat, s: nat, i: nat, j: nat)
    ensures Orbit(a, c, s, i + j) == Orbit(a, c, Orbit(a, c, s, i), j)
    decreases j
  {
    if j > 0 {
      OrbitCompose(a, c, s, i, j - 1);
    }
  }

  /** `1 + a + ... + a^(2m-1)` is `(1 + a + ... + a^(m-1)) * (1 + a^m)`. */
  lemma {:induction false} GeoSplit(a: nat, m: nat, n: nat)
    ensures Geo(a, m + n) == Geo(a, n) + Power(a, n) * Geo(a, m)
    decreases n
  {
    if n > 0 {
      GeoSplit(a, m, n - 1);
      var g, p, gm := Geo(a, n - 1), Power(a, n - 1), Geo(a, m);
      assert a * (g + p * gm) == a * g + (a * p) * gm;
    }
  }

  /** With `a = 4t + 1` the sum of `n` powers has the parity of `n`. */
  lemma {:induction false} GeoParity(t: nat, n: nat)
    ensures Geo(4 * t + 1, n) % 2 == n % 2
  {
    if n > 0 {
      GeoParity(t, n - 1);
      var g := Geo(4 * t + 1, n - 1);
      ParityStep(t, g, n - 1);
    }
  }

  lemma ParityStep(t: nat, g: nat, m: nat)
    requires g % 2 == m % 2
    ensures (1 + (4 * t + 1) * g) % 2 == (m + 1) % 2
  {
    assert (4 * t + 1) * g == g + 2 * (2 * (t * g));
  }

  lemma OddProduct(x: nat, y: nat)
    requires x % 2 == 1 && y % 2 == 1
    ensures (x * y) % 2 == 1
  {
    var p, q := x / 2, y / 2;
    assert x * y == 2 * (2 * p * q + p + q) + 1;
  }

  /** An odd number is no multiple of `2^k` for `k >= 1`. */
  lemma OddNotMultiple(x: nat, k: nat)
    requires x % 2 == 1 && k >= 1
    ensures x % Pow2(k) != 0
  {
    ModOfMultiple(x, 2, Pow2(k - 1), Pow2(k));
  }

  /** A multiple of `2^k` halved is a multiple of `2^(k-1)`. */
  lemma HalfMultiple(y: nat, k: nat)
    requires k >= 1 && (2 * y) % Pow2(k) == 0
    ensures y % Pow2(k - 1) == 0
  {
    var p := Pow2(k - 1);
    var q := (2 * y) / Pow2(k);
    assert 2 * y == 2 * (p * q);
    DivUnique(y, p, q, 0);
  }

  lemma DoubleMultiple(m: nat, k: nat)
    requires k >= 1 && m % Pow2(k - 1) == 0
    ensures (2 * m) % Pow2(k) == 0
  {
    var p := Pow2(k - 1);
    var q := m / p;
    assert 2 * m == Pow2(k) * q;
    DivUnique(2 * m, Pow2(k), q, 0);
  }

  /** The 2-adic heart of the Hull–Dobell theorem: for `a = 4t + 1` and odd
      `d`, `2^k` divides `(1 + a + ... + a^(n-1)) * d` only when it divides
      `n`. */
  lemma {:induction false} GeoMultiple(t: nat, n: nat, d: nat, k: nat)
    requires n >= 1 && d % 2 == 1
    requires (Geo(4 * t + 1, n) * d) % Pow2(k) == 0
    ensures n % Pow2(k) == 0
    decreases n
  {
    var a := 4 * t + 1;
    if k == 0 {
    } else if n % 2 == 1 {
      GeoParity(t, n);
      OddProduct(Geo(a, n), d);
      OddNotMultiple(Geo(a, n) * d, k);
      assert false;
    } else {
      var m := n / 2;
      var d' := GeoHalve(t, m, d);
      HalfMultiple(Geo(a, m) * d', k);
      GeoMultiple(t, m, d', k - 1);
      DoubleMultiple(m, k);
    }
  }

  /** `(1 + a + ... + a^(2m-1)) * d` is twice `(1 + a + ... + a^(m-1))`
      times an odd number. */
  lemma GeoHalve(t: nat, m: nat, d: nat) returns (d': nat)
    requires d % 2 == 1
    ensures d' % 2 == 1
    ensures Geo(4 * t + 1, m + m) * d == 2 * (Geo(4 * t + 1, m) * d')
  {
    var a := 4 * t + 1;
    var g := Geo(a, m);
    GeoSplit(a, m, m);
    PowerGeo(a, m);
    var e := 1 + 2 * (t * g);
    OddProduct(e, d);
    Regroup(Geo(a, m + m), g, Power(a, m), t, e, d);
    d' := e * d;
  }

  lemma Regroup(gn: nat, g: nat, p: nat, t: nat, e: nat, d: nat)
    requires gn == g + p * g && p == 1 + (4 * t + 1 - 1) * g && e == 1 + 2 * (t * g)
    ensures gn * d == 2 * (g * (e * d))
  {
    assert gn == g * (1 + p);
    assert (4 * t + 1 - 1) * g == 4 * (t * g);
    assert 1 + p == 2 * e;
    assert g * (2 * e) * d == 2 * (g * (e * d));
  }

  /* ---------------------------------------------------------------------- */
  /*  The full period                                                        */
  /* ---------------------------------------------------------------------- */

  /** Equal remainders stay equal through an affine step. */
  lemma AffineMod(a: nat, c: nat, x: nat, y: nat, p: nat)
    requires p >= 1 && x % p == y % p
    ensures Affine(a, c, x) % p == Affine(a, c, y) % p
  {
    var r := x % p;
    AffineOfRemainder(a, c, x, p);
    AffineOfRemainder(a, c, y, p);
  }

  lemma Regather(x: nat, p: nat, h: nat, m: nat, q: nat, r: nat, q': nat, r': nat)
    requires m == p * h && x == m * q + r && r == p * q' + r'
    ensures x == p * (h * q + q') + r'
  {
    assert m * q == p * (h * q);
    assert p * (h * q + q') == p * (h * q) + p * q';
  }

  /** An affine step of `x` has the remainder of the same step of `x % p`. */
  lemma AffineOfRemainder(a: nat, c: nat, x: nat, p: nat)
    requires p >= 1
    ensures Affine(a, c, x) % p == Affine(a, c, x % p) % p
  {
    var q, r := x / p, x % p;
    assert x == p * q + r;
    AffineSplit(a, c, p, q, r);
    ModAddMultiple(Affine(a, c, r), p, a * q);
  }

  lemma AffineSplit(a: nat, c: nat, p: nat, q: nat, r: nat)
    ensures Affine(a, c, p * q + r) == p * (a * q) + Affine(a, c, r)
  {
    assert a * (p * q + r) == p * (a * q) + a * r;
  }

  /** Adding a multiple of `p` keeps the remainder modulo `p`. */
  lemma ModAddMultiple(z: nat, p: nat, m: nat)
    requires p >= 1
    ensures (p * m + z) % p == z % p
  {
    var q, r := z / p, z % p;
    assert p * m + z == p * (m + q) + r;
    DivUnique(p * m + z, p, m + q, r);
  }

  lemma {:induction false} OrbitMod(a: nat, c: nat, x: nat, y: nat, p: nat, n: nat)
    requires p >= 1 && x % p == y % p
    ensures Orbit(a, c, x, n) % p == Orbit(a, c, y, n) % p
  {
    if n > 0 {
      OrbitMod(a, c, x, y, p, n - 1);
      AffineMod(a, c, Orbit(a, c, x, n - 1), Orbit(a, c, y, n - 1), p);
    }
  }

  /** Value `i` of a run modulo `2^k` is step `i + 1` of the integer orbit
      of the seed, reduced modulo `2^k`. */
  lemma {:induction false} RunIsOrbit(g: Generator, k: nat, n: nat, i: nat)
    requires k <= 64 && i < n
    ensures Run(g, MaxFor(k), n)[i] == Orbit(g.multiplier, g.increment, g.state, i + 1) % Pow2(k)
    decreases i
  {
    var a, c := g.multiplier, g.increment;
    var h := Next(g, MaxFor(k));
    NextOfPow2(g, k);
    assert Orbit(a, c, g.state, 1) == Affine(a, c, g.state);
    if i > 0 {
      RunIsOrbit(h, k, n - 1, i - 1);
      ModSmall(h.state, Pow2(k)) by {
        AndAtMost(Affine(a, c, g.state), Pow2(k) - 1);
        ModBelow(Affine(a, c, g.state), Pow2(k));
      }
      OrbitMod(a, c, h.state, Orbit(a, c, g.state, 1), Pow2(k), i);
      OrbitCompose(a, c, g.state, 1, i);
    }
  }

  lemma ModBelow(x: nat, p: nat)
    requires p >= 1
    ensures x % p < p
  {
  }

  /** Equal remainders differ by a multiple. */
  lemma ModCancel(x: nat, y: nat, p: nat)
    requires p >= 1 && (x + y) % p == x % p
    ensures y % p == 0
  {
    var q1, q2, r := (x + y) / p, x / p, x % p;
    assert x + y == p * q1 + r && x == p * q2 + r;
    assert y == p * (q1 - q2);
    if q1 - q2 < 0 {
      MulIntMonotone(p, q1 - q2, -1);
    }
    DivUnique(y, p, q1 - q2, 0);
  }

  /** Hull–Dobell for `m = 2^k`: with an odd increment and a multiplier one
      more than a multiple of four, the first `2^k` values of a run with
      `max_exclusive == 2^k` are pairwise distinct, so they are all the
      numbers below `2^k`, each once. */
  lemma FullPeriod(g: Generator, k: nat)
    requires k <= 64 && g.increment % 2 == 1 && g.multiplier % 4 == 1
    ensures var r := Run(g, MaxFor(k), Pow2(k));
            && (forall i, j :: 0 <= i < j < |r| ==> r[i] != r[j])
            && (forall x: nat :: x < Pow2(k) ==> x in r)
  {
    var n := Pow2(k);
    var r := Run(g, MaxFor(k), n);
    forall i, j | 0 <= i < j < n
      ensures r[i] != r[j]
    {
      RunIsOrbit(g, k, n, i);
      RunIsOrbit(g, k, n, j);
      NoRepeat(g.multiplier, g.increment, g.state, k, i + 1, j + 1);
    }
    RunBelow(g, k, n);
    RunCovers(r, n);
  }

  /** Every value of a run with `max_exclusive == 2^k` is below `2^k`. */
  lemma RunBelow(g: Generator, k: nat, n: nat)
    requires k <= 64
    ensures forall i :: 0 <= i < n ==> Run(g, MaxFor(k), n)[i] < Pow2(k)
  {
    Pow2Of64();
    if k < 64 {
      Pow2StrictMonotone(k, 64);
      ModSmall(Pow2(k), WordModulus);
    }
  }

  /** Steps `i < j` of the orbit differ modulo `2^k` when `j - i < 2^k`:
      otherwise `2^k` would divide `j - i`. */
  lemma NoRepeat(a: nat, c: nat, s: nat, k: nat, i: nat, j: nat)
    requires a % 4 == 1 && c % 2 == 1
    requires i < j && j - i < Pow2(k)
    ensures Orbit(a, c, s, i) % Pow2(k) != Orbit(a, c, s, j) % Pow2(k)
  {
    if Orbit(a, c, s, i) % Pow2(k) == Orbit(a, c, s, j) % Pow2(k) {
      TravelMultiple(a, c, s, i, j - i, Pow2(k));
      NoTravelMultiple(a, c, Orbit(a, c, s, i), j - i, k);
      assert false;
    }
  }

  /** Two steps with the same remainder modulo `p` are apart by a multiple
      of `p`. */
  lemma TravelMultiple(a: nat, c: nat, s: nat, i: nat, n: nat, p: nat)
    requires a >= 1 && p >= 1
    requires Orbit(a, c, s, i) % p == Orbit(a, c, s, i + n) % p
    ensures Travel(a, c, Orbit(a, c, s, i), n) % p == 0
  {
    var s' := Orbit(a, c, s, i);
    OrbitCompose(a, c, s, i, n);
    OrbitMove(a, c, s', n);
    ModCancel(s', Travel(a, c, s', n), p);
  }

  /** Fewer than `2^k` steps never travel a multiple of `2^k`. */
  lemma NoTravelMultiple(a: nat, c: nat, s: nat, n: nat, k: nat)
    requires a % 4 == 1 && c % 2 == 1 && 0 < n < Pow2(k)
    ensures Travel(a, c, s, n) % Pow2(k) != 0
  {
    var t := a / 4;
    assert a == 4 * t + 1;
    DriftOdd(a, c, s);
    if Travel(a, c, s, n) % Pow2(k) == 0 {
      GeoMultiple(t, n, Drift(a, c, s), k);
      ModSmall(n, Pow2(k));
      assert false;
    }
  }

  /** The values of a sequence. */
  function Values(r: seq<u64>): (v: set<nat>)
    ensures forall x :: x in v <==> x in r
  {
    if r == [] then {} else {r[0] as nat} + Values(r[1..])
  }

  /** The numbers below `n`. */
  function Below(n: nat): (v: set<nat>)
    ensures forall x: nat :: x in v <==> x < n
    ensures |v| == n
  {
    if n == 0 then {} else
      var b := Below(n - 1);
      assert n - 1 !in b;
      b + {n - 1}
  }

  /** `n` distinct values below `n` are all of them. */
  lemma RunCovers(r: seq<u64>, n: nat)
    requires |r| == n && forall i :: 0 <= i < n ==> r[i] < n
    requires forall i, j :: 0 <= i < j < |r| ==> r[i] != r[j]
    ensures forall x: nat :: x < n ==> x in r
  {
    DistinctCard(r);
    SubsetFull(Values(r), Below(n));
  }

  lemma {:induction false} DistinctCard(r: seq<u64>)
    requires forall i, j :: 0 <= i < j < |r| ==> r[i] != r[j]
    ensures |Values(r)| == |r|
  {
    if r != [] {
      var rest := r[1..];
      DistinctCard(rest);
      forall j | 0 <= j < |rest|
        ensures rest[j] != r[0]
      {
        assert rest[j] == r[j + 1];
      }
      assert r[0] as nat !in Values(rest);
    }
  }

  lemma {:induction false} SubsetFull(a: set<nat>, b: set<nat>)
    requires a <= b && |a| == |b|
    ensures a == b
    decreases |b|
  {
    if b != {} {
      var x :| x in b;
      if x in a {
        assert |a - {x}| == |a| - 1 && |b - {x}| == |b| - 1;
        SubsetFull(a - {x}, b - {x});
        assert a == (a - {x}) + {x};
        assert b == (b - {x}) + {x};
      } else {
        SubsetSmaller(a, b - {x});
        assert false;
      }
    }
  }

  lemma {:induction false} SubsetSmaller(a: set<nat>, b: set<nat>)
    requires a <= b
    ensures |a| <= |b|
    decreases |b|
  {
    if a != {} {
      var x :| x in a;
      SubsetSmaller(a - {x}, b - {x});
    }
  }

  /** The generator the constructor makes always has the full period. */
  lemma CreateFullPeriod(seed: u64, increment: u64, k: nat)
    requires k <= 64
    ensures var r := Run(Create(seed, increment), MaxFor(k), Pow2(k));
            && (forall i, j :: 0 <= i < j < |r| ==> r[i] != r[j])
            && (forall x: nat :: x < Pow2(k) ==> x in r)
  {
    FullPeriod(Create(seed, increment), k);
  }
}
