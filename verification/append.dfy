/** The growable slices of CflatAppend.h: the `cflat_slice_resize` and
    `cflat_slice_append` macros.

    A slice has a `capacity`, a `length` and a pointer to its elements;
    `data` is the element slots the pointer reaches.  The capacity is a
    `usize`, so the doubling loop wraps modulo 2^64.
    `cflat_arena_extend_opt`, which moves the elements to a larger block,
    is not part of this model: its effect is taken to be a block of the new
    capacity that starts with the old `capacity` elements. */
module Append {
  import opened Words
  import opened Bits
  import opened Core

  datatype Slice<T> = Slice(capacity: u64, length: u64, data: seq<T>)

  /** `length <= capacity`, and a slot for every unit of capacity. */
  predicate Good<T>(s: Slice<T>) {
    s.length <= s.capacity <= |s.data|
  }

  /* ---------------------------------------------------------------------- */
  /*  The doubling loop                                                      */
  /* ---------------------------------------------------------------------- */

  /** `capacity *= 2` on a `usize`. */
  function Double(c: u64): u64 {
    (2 * c) % WordModulus
  }

  /** `while (HINT > capacity) capacity *= 2;` from `start`: `cur` is the
      capacity after `k` rounds, `start * 2^k` modulo 2^64.  Once the
      capacity wraps to 0 it stays 0 and the loop never ends. */
  function Doubling(start: u64, hint: u64, cur: u64, k: nat): (r: Outcome<u64>)
    requires k <= 64 && cur == (start * Pow2(k)) % WordModulus
    ensures !r.Faults?
    ensures r.Done? ==> hint <= r.value
    decreases 64 - k
  {
    if hint <= cur then Done(cur)
    else if cur == 0 then Hangs
    else
      WrapsAt64(start);
      DoubleStep(start, k);
      Doubling(start, hint, Double(cur), k + 1)
  }

  /** After 64 doublings every start has wrapped to 0. */
  lemma WrapsAt64(start: u64)
    ensures (start * Pow2(64)) % WordModulus == 0
  {
    Pow2Of64();
    DivUnique(start * WordModulus, WordModulus, start, 0);
  }

  /** One more round doubles the unwrapped value. */
  lemma DoubleStep(start: u64, k: nat)
    ensures Double((start * Pow2(k)) % WordModulus) == (start * Pow2(k + 1)) % WordModulus
  {
    var a := start * Pow2(k);
    assert start * Pow2(k + 1) == 2 * a;
    var q, r := a / WordModulus, a % WordModulus;
    assert 2 * a == WordModulus * (2 * q) + 2 * r;
    var q2, r2 := (2 * r) / WordModulus, (2 * r) % WordModulus;
    DivUnique(2 * a, WordModulus, 2 * q + q2, r2);
  }

  /** Below 2^63 nothing wraps: the loop stops at the first `start * 2^j`
      that reaches `hint`, which is below `2 * hint` unless `start` already
      reached it. */
  lemma {:induction false} DoublingReaches(start: u64, hint: u64, cur: nat, k: nat)
    requires 1 <= start && hint <= 0x8000_0000_0000_0000 && k <= 64
    requires cur == start * Pow2(k) && cur < WordModulus && cur == (start * Pow2(k)) % WordModulus
    requires k > 0 ==> cur < 2 * hint
    ensures var r := Doubling(start, hint, cur, k);
            && r.Done?
            && (exists j: nat :: k <= j && r.value == start * Pow2(j))
            && (r.value == cur || r.value < 2 * hint)
    decreases 64 - k
  {
    if hint > cur {
      MulMonotone(start, 1, Pow2(k));
      WrapsAt64(start);
      var next := 2 * cur;
      DoubledPow2(start, k);
      ModSmall(next, WordModulus);
      assert Double(cur) == next;
      DoublingReaches(start, hint, next, k + 1);
    }
  }

  lemma DoubledPow2(start: nat, k: nat)
    ensures start * Pow2(k + 1) == 2 * (start * Pow2(k))
  {
    var p := Pow2(k);
    assert Pow2(k + 1) == 2 * p;
    assert start * (2 * p) == 2 * (start * p);
  }

  /* ---------------------------------------------------------------------- */
  /*  cflat_slice_resize / cflat_slice_append                                */
  /* ---------------------------------------------------------------------- */

  /** `old_size`: the bytes of the capacity before growth. */
  function OldSize(capacity: u64, elementSize: u64): u64 {
    (capacity * elementSize) % WordModulus
  }

  /** `new_size`: `cflat_next_pow2_u64` of the bytes of the grown
      capacity. */
  function NewSize(capacity: u64, elementSize: u64): u64 {
    NextPow2U64((capacity * elementSize) % WordModulus)
  }

  /** The new size covers the grown capacity while its bytes stay below
      2^63. */
  lemma NewSizeCovers(capacity: u64, elementSize: u64)
    requires capacity * elementSize <= 0x8000_0000_0000_0000
    ensures capacity * elementSize <= NewSize(capacity, elementSize)
  {
    ModSmall(capacity * elementSize, WordModulus);
  }

  /** `cflat_slice_resize(ARENA, DA, HINT)`: nothing when `HINT <=
      capacity`; otherwise the capacity becomes 4 if it was 0 and doubles
      until it reaches `HINT`, and the elements move to a block of that
      capacity. */
  function Resize<T>(s: Slice<T>, hint: u64, blank: T): (r: Outcome<Slice<T>>)
    requires Good(s)
    ensures r.Done? ==> Good(r.value) && r.value.length == s.length && hint <= r.value.capacity
    ensures r.Done? ==> s.capacity <= r.value.capacity
    ensures r.Done? ==> r.value.data[..s.capacity] == s.data[..s.capacity]
    ensures !r.Faults?
  {
    if hint <= s.capacity then Done(s)
    else
      var start: u64 := if s.capacity == 0 then 4 else s.capacity;
      assert start * Pow2(0) == start;
      ModSmall(start, WordModulus);
      var c := Doubling(start, hint, start, 0);
      if c.Done? then
        var kept := s.data[..s.capacity];
        Done(Slice(c.value, s.length, kept + seq(c.value - s.capacity, _ => blank)))
      else Hangs
  }

  /** A hint within the capacity changes nothing. */
  lemma ResizeKeeps<T>(s: Slice<T>, hint: u64, blank: T)
    requires Good(s) && hint <= s.capacity
    ensures Resize(s, hint, blank) == Done(s)
  {
  }

  /** A larger hint up to 2^63 grows the capacity to `start * 2^j`, the
      first such value that reaches the hint, where `start` is the old
      capacity or 4; it is below twice the hint unless `start` was already
      enough. */
  lemma ResizeGrows<T>(s: Slice<T>, hint: u64, blank: T)
    requires Good(s) && s.capacity < hint <= 0x8000_0000_0000_0000
    ensures var start := if s.capacity == 0 then 4 else s.capacity;
            var r := Resize(s, hint, blank);
            && r.Done?
            && (exists j: nat :: r.value.capacity == start * Pow2(j))
            && (r.value.capacity == start || r.value.capacity < 2 * hint)
  {
    var start: u64 := if s.capacity == 0 then 4 else s.capacity;
    assert start * Pow2(0) == start;
    ModSmall(start, WordModulus);
    DoublingReaches(start, hint, start, 0);
  }

  /** A hint above 2^63 never ends the loop: from 4 the capacity reaches
      2^63 and then wraps to 0. */
  lemma ResizeHangs(blank: int)
    ensures Resize(Slice(4, 0, [0, 0, 0, 0]), 0x8000_0000_0000_0001, blank) == Hangs
  {
    var hint: u64 := 0x8000_0000_0000_0001;
    HangsFrom(hint, 0);
    assert 4 * Pow2(0) == 4;
  }

  lemma {:induction false} HangsFrom(hint: u64, k: nat)
    requires hint == 0x8000_0000_0000_0001 && k <= 62
    ensures Doubling(4, hint, (4 * Pow2(k)) % WordModulus, k) == Hangs
    decreases 62 - k
  {
    Pow2Of64();
    Pow2Add(k, 2);
    assert 4 * Pow2(k) == Pow2(k + 2);
    var cur := (4 * Pow2(k)) % WordModulus;
    if k == 62 {
      WrapsAt64(1);
      assert Pow2(64) % WordModulus == 0;
    } else {
      Pow2Monotone(k + 2, 63);
      ModSmall(Pow2(k + 2), WordModulus);
      WrapsAt64(4);
      DoubleStep(4, k);
      HangsFrom(hint, k + 1);
    }
  }

  /** `cflat_slice_append(ARENA, DA, VAL)`: grow to `length + 1`, store
      `VAL` at `length` and count it. */
  function AppendValue<T>(s: Slice<T>, value: T, blank: T): (r: Outcome<Slice<T>>)
    requires Good(s) && s.length + 1 < WordModulus
    ensures r.Done? ==> Good(r.value)
    ensures !r.Faults?
  {
    var grown := Resize(s, s.length + 1, blank);
    if grown.Done? then
      var t := grown.value;
      Done(t.(data := t.data[s.length := value], length := s.length + 1))
    else Hangs
  }

  /** An append within 2^63 elements adds exactly `VAL` at the end and
      keeps the elements before it. */
  lemma AppendSpec<T>(s: Slice<T>, value: T, blank: T)
    requires Good(s) && s.length < 0x8000_0000_0000_0000
    ensures var r := AppendValue(s, value, blank);
            && r.Done?
            && r.value.length == s.length + 1
            && r.value.data[s.length] == value
            && r.value.data[..s.length] == s.data[..s.length]
            && r.value.length <= r.value.capacity
  {
    if s.length + 1 > s.capacity {
      ResizeGrows(s, s.length + 1, blank);
    }
    var t := Resize(s, s.length + 1, blank).value;
    assert t.data[..s.length] == t.data[..s.capacity][..s.length];
    assert s.data[..s.length] == s.data[..s.capacity][..s.length];
  }
}
