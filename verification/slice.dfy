/** The byte slices of CflatSlice.h: `cflat__subslice`, the
    `cflat_slice_skip`, `cflat_slice_take` and `cflat_slice_at` macros and
    `cflat__slice_new_opt`.

    A slice is `capacity`, `length` and the address of its first element;
    element `i` of a slice of `elementSize`-byte elements is at
    `data + i * elementSize`, computed as a 64-bit address. */
module Slices {
  import opened Words
  import opened Bits
  import opened Core

  datatype ByteSlice = ByteSlice(capacity: u64, length: u64, data: u64)

  /** The address of element `i`. */
  function Addr(s: ByteSlice, i: nat, elementSize: u64): u64 {
    (s.data + i * elementSize) % WordModulus
  }

  /** The elements of `s` sit below the top of the address space. */
  predicate Placed(s: ByteSlice, elementSize: u64) {
    s.data + s.length * elementSize < WordModulus
  }

  /* ---------------------------------------------------------------------- */
  /*  cflat__subslice, skip and take                                         */
  /* ---------------------------------------------------------------------- */

  /** An `isize` offset or length as `cflat__subslice` reads it: a
      negative one counts back from `s->length`, in `usize` arithmetic. */
  function Resolve(n: i64, length: u64): u64 {
    if n < 0 then (length + n) % WordModulus else n
  }

  /** A non-negative value is taken as it is; a negative one down to
      `-length` counts back from the end; anything further back wraps to
      2^64 - (how far beyond the start it reaches). */
  lemma ResolveSpec(n: i64, length: u64)
    ensures 0 <= n ==> Resolve(n, length) == n
    ensures -(length as int) <= n < 0 ==> Resolve(n, length) == length + n
    ensures n < -(length as int) ==> Resolve(n, length) == WordModulus + length + n
  {
    if n < 0 {
      if -(length as int) <= n {
        ModSmall(length + n, WordModulus);
      } else {
        DivUnique(WordModulus + length + n, WordModulus, 0, WordModulus + length + n);
        assert length + n == WordModulus * -1 + (WordModulus + length + n);
      }
    }
  }

  /** `cflat__subslice(element_size, s, offset, length)`: the resolved
      length becomes both length and capacity, the data pointer moves by the
      resolved offset.  Nothing is checked against `s->length`. */
  function Subslice(elementSize: u64, s: ByteSlice, offset: i64, length: i64): (r: ByteSlice)
    ensures r.capacity == r.length
  {
    var o := Resolve(offset, s.length);
    var n := Resolve(length, s.length);
    ByteSlice(n, n, (s.data + o * elementSize) % WordModulus)
  }

  /** A subslice that stays within `s` reaches the elements `o .. o + n` of
      `s`, where `o` and `n` are the resolved offset and length. */
  lemma SubsliceWithin(elementSize: u64, s: ByteSlice, offset: i64, length: i64)
    requires Placed(s, elementSize)
    requires Resolve(offset, s.length) + Resolve(length, s.length) <= s.length
    ensures var r := Subslice(elementSize, s, offset, length);
            var o := Resolve(offset, s.length);
            && Placed(r, elementSize)
            && forall i :: 0 <= i < r.length ==> Addr(r, i, elementSize) == Addr(s, o + i, elementSize)
  {
    var r := Subslice(elementSize, s, offset, length);
    var o := Resolve(offset, s.length);
    var n := r.length;
    Spread(o, n, s.length, elementSize);
    ModSmall(s.data + o * elementSize, WordModulus);
    forall i | 0 <= i < n
      ensures Addr(r, i, elementSize) == Addr(s, o + i, elementSize)
    {
      MulAdd(o, i, elementSize);
    }
  }

  lemma MulAdd(a: nat, b: nat, e: nat)
    ensures (a + b) * e == a * e + b * e
  {
  }

  /** `n` elements from `o`, with `o + n <= length`, end by the end of
      `length` elements. */
  lemma Spread(o: nat, n: nat, length: nat, e: nat)
    requires o + n <= length
    ensures o * e + n * e <= length * e
  {
    MulAdd(o, n, e);
    MulMonotone(e, o + n, length);
    assert (o + n) * e == e * (o + n);
    assert length * e == e * length;
  }

  /** No bounds check: a subslice of four elements from offset 2 of a
      four-element slice reaches two elements past its end. */
  lemma SubsliceUnchecked()
    ensures var s := ByteSlice(4, 4, 1000);
            var r := Subslice(1, s, 2, 4);
            r.length == 4 && Addr(r, 3, 1) == Addr(s, 5, 1)
  {
  }

  /** `cflat_slice_skip(SLICE, SKIP)`: the subslice from `SKIP` with
      `length - SKIP` elements; the `usize` difference is passed as an
      `isize`.  A negative `SKIP` is not refused: the offset counts back
      from the end and the length grows past it. */
  function Skip(elementSize: u64, s: ByteSlice, skip: i64): (r: ByteSlice)
  {
    Pow2Of64();
    Subslice(elementSize, s, skip, ToSigned((s.length + WordModulus - skip) % WordModulus, 64))
  }

  /** `cflat_slice_take(SLICE, TAKE)`: the subslice of the first `TAKE`
      elements. */
  function Take(elementSize: u64, s: ByteSlice, take: i64): (r: ByteSlice) {
    Subslice(elementSize, s, 0, take)
  }

  /** Taking `k` and skipping `k` split a slice: the first `k` elements go
      to the take and the remaining `length - k` to the skip, each at its
      own address. */
  lemma SkipTakePartition(elementSize: u64, s: ByteSlice, k: i64)
    requires Placed(s, elementSize) && 0 <= k <= s.length < 0x8000_0000_0000_0000
    ensures var t := Take(elementSize, s, k);
            var d := Skip(elementSize, s, k);
            && t.length == k && d.length == s.length - k
            && (forall i :: 0 <= i < t.length ==> Addr(t, i, elementSize) == Addr(s, i, elementSize))
            && (forall i :: 0 <= i < d.length ==> Addr(d, i, elementSize) == Addr(s, k + i, elementSize))
  {
    Pow2Of64();
    ModSmall(s.length - k, WordModulus);
    DivUnique(s.length + WordModulus - k, WordModulus, 1, s.length - k);
    var rest: i64 := s.length - k;
    assert ToSigned((s.length + WordModulus - k) % WordModulus, 64) == rest;
    SubsliceWithin(elementSize, s, 0, k);
    SubsliceWithin(elementSize, s, k, rest);
  }

  /** Skipping `-k` starts `k` elements before the end and, as the length
      `length + k` is what the macro computes, runs `k` elements past the
      end of `s`: skipping -1 of four elements gives five from the last
      one. */
  lemma SkipBack(elementSize: u64, s: ByteSlice, k: i64)
    requires 0 < k <= s.length && s.length + k < 0x8000_0000_0000_0000
    ensures var d := Skip(elementSize, s, -k);
            && d.length == d.capacity == s.length + k
            && d.data == Addr(s, s.length - k, elementSize)
  {
    Pow2Of64();
    ResolveSpec(-k, s.length);
    ModSmall(s.length + k, WordModulus);
    DivUnique(s.length + WordModulus + k, WordModulus, 1, s.length + k);
    var grown: i64 := s.length + k;
    assert ToSigned((s.length + WordModulus - (-k)) % WordModulus, 64) == grown;
  }

  /** `cflat_slice_at(SLICE, INDEX)`: the element's address, after the
      bounds check `(usize)INDEX < (usize)length` unless `NO_BOUNDS_CHECK`
      is defined; a failed check is a fault. */
  function At(elementSize: u64, s: ByteSlice, index: i64, checked: bool): (r: Outcome<u64>)
    ensures checked ==> (r.Done? <==> (index % WordModulus) < s.length)
    ensures r.Done? ==> r.value == (s.data + (index % WordModulus) * elementSize) % WordModulus
  {
    var u := index % WordModulus;
    if checked && u >= s.length then Faults
    else Done((s.data + u * elementSize) % WordModulus)
  }

  /** With the check on, an index is accepted exactly when it lies in
      `0 .. length`, for any slice shorter than 2^63; a negative index
      always faults. */
  lemma AtChecked(elementSize: u64, s: ByteSlice, index: i64)
    requires s.length <= 0x8000_0000_0000_0000
    ensures At(elementSize, s, index, true).Done? <==> 0 <= index < s.length
    ensures At(elementSize, s, index, true).Done? ==> At(elementSize, s, index, true).value == Addr(s, index, elementSize)
  {
    if index < 0 {
      DivUnique(WordModulus + index, WordModulus, 0, WordModulus + index);
      assert index == WordModulus * -1 + (WordModulus + index);
    } else {
      ModSmall(index, WordModulus);
    }
  }

  /** Without the check a negative index reads below the slice. */
  lemma AtUnchecked()
    ensures At(1, ByteSlice(4, 4, 1000), -1, false) == Done(999)
  {
    DivUnique(WordModulus - 1, WordModulus, 0, WordModulus - 1);
    assert -1 == WordModulus * -1 + (WordModulus - 1);
    assert 1000 + (WordModulus - 1) == WordModulus + 999;
    DivUnique(1000 + (WordModulus - 1), WordModulus, 1, 999);
  }

  /* ---------------------------------------------------------------------- */
  /*  cflat__slice_new_opt                                                   */
  /* ---------------------------------------------------------------------- */

  /** `CflatSliceNewOpt`; the `cflat_slice_new` macro defaults `capacity`
      to 4. */
  datatype SliceNewOpt = SliceNewOpt(capacity: u64, align: u64, clear: bool)

  const DefaultCapacity: u64 := 4

  /** A new slice and the bytes pushed for it. */
  datatype Made = Made(slice: ByteSlice, size: u64)

  /** `cflat__slice_new_opt(element_size, a, length, opt)`: the capacity is
      the next power of two of `max(length, opt.capacity)` and
      `capacity * element_size` bytes are pushed; `at` is the address the
      arena returns. */
  function SliceNew(elementSize: u64, at: u64, length: u64, opt: SliceNewOpt): (r: Made)
    ensures r.slice.length == length && r.slice.data == at
    ensures r.size == (r.slice.capacity * elementSize) % WordModulus
  {
    var hint := Max(length, opt.capacity);
    var capacity := NextPow2U64(hint);
    Made(ByteSlice(capacity, length, at), (capacity * elementSize) % WordModulus)
  }

  /** Up to 2^63 the capacity is a power of two that holds the length and
      the requested capacity and is below twice the larger of them (1 when
      both are 0); beyond 2^63 it wraps to 0, below the length. */
  lemma SliceNewSpec(elementSize: u64, at: u64, length: u64, opt: SliceNewOpt)
    ensures var h := Max(length, opt.capacity);
            var c := SliceNew(elementSize, at, length, opt).slice.capacity;
            && (h == 0 ==> c == 1)
            && (0 < h <= 0x8000_0000_0000_0000 ==> IsPowerOfTwo(c) && length <= c && opt.capacity <= c && c < 2 * h)
            && (h > 0x8000_0000_0000_0000 ==> c == 0)
  {
  }

  /** `cflat_slice_new` with its default options: three elements get a
      capacity of 4. */
  lemma SliceNewDefault()
    ensures SliceNew(8, 0, 3, SliceNewOpt(DefaultCapacity, 8, false)).slice.capacity == 4
  {
    Pow2Small();
    NextPow2U64Unique(4, 4);
  }
}
