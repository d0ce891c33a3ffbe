/** The ring buffer of CflatRingBuffer.h.

    A ring has a read index, a write index and a `length` of slots; the
    elements waiting to be read are the slots from `read` up to (not
    including) `write`, going round.  `read == write` means empty, so a
    ring of `length` slots holds at most `length - 1` elements.  The
    element type is a parameter; a NULL ring is `None`. */
module RingBuffer {
  import opened Words
  import opened Bits
  import opened Core
  import Arena

  datatype Ring<T> = Ring(read: nat, write: nat, length: nat, data: seq<T>)

  /** A ring with slots, as `ring_buffer_new_opt` sets up for a request
      up to 2^63 and every operation keeps: a non-zero `usize` length,
      both indices on a slot, a slot per index. */
  predicate Good<T>(rb: Ring<T>) {
    1 <= rb.length <= 0x8000_0000_0000_0000 && rb.read < rb.length && rb.write < rb.length && |rb.data| == rb.length
  }

  /** The ring `ring_buffer_new_opt` sets up for a request past 2^63, where
      `next_pow2` wraps to 0: no slots, both indices 0. */
  predicate NoSlots<T>(rb: Ring<T>) {
    rb.length == 0 && rb.read == 0 && rb.write == 0
  }

  /** Every ring `ring_buffer_new_opt` can set up, and every operation
      keeps. */
  predicate Formed<T>(rb: Ring<T>) {
    Good(rb) || NoSlots(rb)
  }

  /* ---------------------------------------------------------------------- */
  /*  The elements                                                           */
  /* ---------------------------------------------------------------------- */

  /** The slot `i` places after `read`, going round once. */
  function Slot(read: nat, i: nat, length: nat): nat {
    if read + i < length then read + i else read + i - length
  }

  /** `ring_buffer_count` on a ring: the distance from `read` to
      `write`. */
  function Span<T>(rb: Ring<T>): (n: nat)
    requires Good(rb)
    ensures n < rb.length
    ensures n == 0 <==> rb.read == rb.write
  {
    if rb.write >= rb.read then rb.write - rb.read else (rb.length - rb.read) + rb.write
  }

  /** The elements waiting to be read, oldest first. */
  function Contents<T>(rb: Ring<T>): (s: seq<T>)
    requires Good(rb)
    ensures |s| == Span(rb)
  {
    seq(Span(rb), i requires 0 <= i < Span(rb) => rb.data[Slot(rb.read, i, rb.length)])
  }

  /** Going on from the last element reaches the write index, and no
      waiting element sits on it. */
  lemma SlotsBeforeWrite<T>(rb: Ring<T>, i: nat)
    requires Good(rb) && i <= Span(rb)
    ensures Slot(rb.read, i, rb.length) < rb.length
    ensures i == Span(rb) <==> Slot(rb.read, i, rb.length) == rb.write
  {
  }

  /** Moving `read` on one slot shifts the slots by one. */
  lemma SlotAfterRead(read: nat, i: nat, length: nat)
    requires read < length && i + 1 < length
    ensures Slot(if read + 1 < length then read + 1 else 0, i, length) == Slot(read, i + 1, length)
  {
  }

  /** `(k + 1) % length` for an index `k`. */
  lemma NextIndex(k: nat, length: nat)
    requires k < length
    ensures (k + 1) % length == if k + 1 < length then k + 1 else 0
  {
    if k + 1 < length {
      ModSmall(k + 1, length);
    }
  }

  /* ---------------------------------------------------------------------- */
  /*  The operations                                                         */
  /* ---------------------------------------------------------------------- */

  /** The ring `ring_buffer_new_opt` sets up once its push has placed:
      both indices 0 and `next_pow2(length)` slots.  The slots' initial bytes are whatever the arena gives
      (zeroes with `.clear`); `blank` stands for them. */
  function Fresh<T>(requested: u64, blank: T): (rb: Ring<T>)
    ensures rb.read == 0 && rb.write == 0 && Formed(rb)
    ensures requested <= 0x8000_0000_0000_0000 ==> Good(rb) && Contents(rb) == []
    ensures requested <= 0x8000_0000_0000_0000 ==> requested <= rb.length && IsPowerOfTwo(rb.length)
    ensures requested > 0x8000_0000_0000_0000 ==> NoSlots(rb)
  {
    NewLength(requested);
    var length := NextPow2U64(requested);
    Ring(0, 0, length, seq(length, _ => blank))
  }

  /** `next_pow2` of a `usize` up to 2^63 is a power of two from 1 to
      2^63; past 2^63 it is 0. */
  lemma NewLength(requested: u64)
    ensures requested <= 0x8000_0000_0000_0000 ==>
              && 1 <= NextPow2U64(requested) <= 0x8000_0000_0000_0000
              && requested <= NextPow2U64(requested) && IsPowerOfTwo(NextPow2U64(requested))
    ensures requested > 0x8000_0000_0000_0000 ==> NextPow2U64(requested) == 0
  {
    var r := NextPow2U64(requested);
    Pow2Of64();
    if requested == 0 {
      assert r == Pow2(0);
    } else if requested <= 0x8000_0000_0000_0000 {
      var k: nat :| r == Pow2(k);
      if k >= 64 {
        Pow2Monotone(64, k);
      }
      Pow2Monotone(k, 63);
    }
  }

  /** `ring_buffer_is_empty`: NULL and a ring without slots count as
      empty. */
  function IsEmpty<T>(rb: Option<Ring<T>>): (r: bool)
    requires rb.Some? ==> Formed(rb.value)
    ensures rb.Some? && Good(rb.value) ==> (r <==> Contents(rb.value) == [])
    ensures rb.None? || NoSlots(rb.value) ==> r
  {
    match rb
    case None => true
    case Some(b) => b.read == b.write
  }

  /** `ring_buffer_count`: 0 for NULL and for a ring without slots. */
  function Count<T>(rb: Option<Ring<T>>): (n: nat)
    requires rb.Some? ==> Formed(rb.value)
    ensures rb.Some? && Good(rb.value) ==> n == |Contents(rb.value)| && n < rb.value.length
    ensures rb.None? || NoSlots(rb.value) ==> n == 0
  {
    match rb
    case None => 0
    case Some(b) => if b.length == 0 then 0 else Span(b)
  }

  /** What `ring_buffer_read` gives back: success, the element copied to
      `dst` (when there was one) and the ring. */
  datatype Taken<T> = Taken(ok: bool, item: Option<T>, rb: Option<Ring<T>>)

  /** `ring_buffer_read`: takes the element at `read`, zeroes its slot
      when `clear` is set (`zero` stands for the zeroed element), and
      moves `read` on.  A ring without slots has `read == write` and
      gives nothing. */
  function Read<T>(rb: Option<Ring<T>>, clear: bool, zero: T): (r: Taken<T>)
    requires rb.Some? ==> Formed(rb.value)
    ensures r.rb.Some? <==> rb.Some?
    ensures r.rb.Some? ==> Formed(r.rb.value)
    ensures rb.Some? && Good(rb.value) ==> Good(r.rb.value)
    ensures r.ok <==> r.item.Some?
    ensures rb.Some? && NoSlots(rb.value) ==> !r.ok && r.rb == rb
  {
    match rb
    case None => Taken(false, None, None)
    case Some(b) =>
      if b.read == b.write then Taken(false, None, rb)
      else
        var item := b.data[b.read];
        var data := if clear then b.data[b.read := zero] else b.data;
        NextIndex(b.read, b.length);
        Taken(true, Some(item), Some(Ring((b.read + 1) % b.length, b.write, b.length, data)))
  }

  /** The body of `ring_buffer_overwrite` on a ring: store at `write`,
      move `write` on, and when it lands on `read`, drop the oldest
      element by moving `read` on too. */
  function Put<T>(b: Ring<T>, x: T): (r: Ring<T>)
    requires Good(b)
    ensures Good(r) && r.length == b.length
  {
    NextIndex(b.write, b.length);
    NextIndex(b.read, b.length);
    var next := (b.write + 1) % b.length;
    var read := if b.read == next then (b.read + 1) % b.length else b.read;
    Ring(read, next, b.length, b.data[b.write := x])
  }

  /** `ring_buffer_overwrite`: nothing for NULL; on a ring without slots
      `(write + 1) % rb->length` divides by zero. */
  function Overwrite<T>(rb: Option<Ring<T>>, x: T): (r: Outcome<Option<Ring<T>>>)
    requires rb.Some? ==> Formed(rb.value)
    ensures !r.Hangs?
    ensures r.Faults? <==> rb.Some? && NoSlots(rb.value)
    ensures r.Done? ==> (r.value.Some? <==> rb.Some?) && (r.value.Some? ==> Good(r.value.value))
  {
    match rb
    case None => Done(None)
    case Some(b) => if b.length == 0 then Faults else Done(Some(Put(b, x)))
  }

  /** What `ring_buffer_write` gives back. */
  datatype Stored<T> = Stored(ok: bool, rb: Option<Ring<T>>)

  /** `ring_buffer_write` as written: refuses when the unsigned
      difference `write - read` equals `length`, which on a ring with
      slots it never does, and on a ring without slots always does. */
  function WriteAsWritten<T>(rb: Option<Ring<T>>, x: T): (r: Stored<T>)
    requires rb.Some? ==> Formed(rb.value)
    ensures r.rb.Some? <==> rb.Some?
    ensures r.rb.Some? ==> Formed(r.rb.value)
    ensures rb.Some? && Good(rb.value) ==> Good(r.rb.value)
    ensures rb.Some? && NoSlots(rb.value) ==> !r.ok && r.rb == rb
  {
    match rb
    case None => Stored(false, None)
    case Some(b) =>
      if SubWrap(b.write, b.read) == b.length then Stored(false, rb)
      else Stored(true, Overwrite(rb, x).value)
  }

  /** `ring_buffer_write` as intended: refuses when the ring is full, with
      `length - 1` elements waiting; a ring without slots is always
      full. */
  function Write<T>(rb: Option<Ring<T>>, x: T): (r: Stored<T>)
    requires rb.Some? ==> Formed(rb.value)
    ensures r.rb.Some? <==> rb.Some?
    ensures r.rb.Some? ==> Formed(r.rb.value)
    ensures rb.Some? && Good(rb.value) ==> Good(r.rb.value)
    ensures rb.Some? && NoSlots(rb.value) ==> !r.ok && r.rb == rb
  {
    match rb
    case None => Stored(false, None)
    case Some(b) =>
      if b.length == 0 || Span(b) == b.length - 1 then Stored(false, rb)
      else Stored(true, Overwrite(rb, x).value)
  }

  /** `ring_buffer_clear`: both indices back to 0.  It does not check for
      NULL. */
  function Clear<T>(rb: Option<Ring<T>>): (r: Outcome<Ring<T>>)
    requires rb.Some? ==> Formed(rb.value)
    ensures rb.None? <==> r == Faults
    ensures r.Done? ==> Formed(r.value) && r.value.length == rb.value.length && r.value.data == rb.value.data
    ensures r.Done? && Good(rb.value) ==> Good(r.value) && Contents(r.value) == []
  {
    match rb
    case None => Faults
    case Some(b) => Done(Ring(0, 0, b.length, b.data))
  }

  /* ---------------------------------------------------------------------- */
  /*  The ring as a queue                                                    */
  /* ---------------------------------------------------------------------- */

  /** Storing appends; on a full ring the oldest element is dropped. */
  lemma PutContents<T>(b: Ring<T>, x: T)
    requires Good(b)
    ensures Span(b) < b.length - 1 ==> Contents(Put(b, x)) == Contents(b) + [x]
    ensures Span(b) == b.length - 1 ==> Contents(Put(b, x)) == (Contents(b) + [x])[1..]
  {
    if Span(b) < b.length - 1 {
      PutAppends(b, x);
    } else {
      PutDrops(b, x);
    }
  }

  lemma PutAppends<T>(b: Ring<T>, x: T)
    requires Good(b) && Span(b) < b.length - 1
    ensures Contents(Put(b, x)) == Contents(b) + [x]
  {
    var r := Put(b, x);
    var n := Span(b);
    var want := Contents(b) + [x];
    NextIndex(b.write, b.length);
    assert Span(r) == n + 1;
    forall i | 0 <= i < n + 1
      ensures Contents(r)[i] == want[i]
    {
      SlotsBeforeWrite(b, i);
    }
  }

  lemma PutDrops<T>(b: Ring<T>, x: T)
    requires Good(b) && Span(b) == b.length - 1
    ensures Contents(Put(b, x)) == (Contents(b) + [x])[1..]
  {
    var r := Put(b, x);
    var n := Span(b);
    var want := Contents(b) + [x];
    NextIndex(b.write, b.length);
    NextIndex(b.read, b.length);
    assert Span(r) == n;
    forall i | 0 <= i < n
      ensures Contents(r)[i] == want[i + 1]
    {
      SlotAfterRead(b.read, i, b.length);
      SlotsBeforeWrite(b, i + 1);
    }
  }

  /** Overwriting never fails: the element is appended, and on a full ring
      the oldest one is lost. */
  lemma OverwriteSpec<T>(b: Ring<T>, x: T)
    requires Good(b)
    ensures var r := Overwrite(Some(b), x).value.value;
            && Count(Some(r)) == (if Span(b) < b.length - 1 then Span(b) + 1 else Span(b))
            && Contents(r) == (if Span(b) < b.length - 1 then Contents(b) + [x] else (Contents(b) + [x])[1..])
  {
    PutContents(b, x);
  }

  /** Reading takes the oldest element, and fails exactly on an empty
      ring, which it leaves alone. */
  lemma ReadSpec<T>(b: Ring<T>, clear: bool, zero: T)
    requires Good(b)
    ensures var r := Read(Some(b), clear, zero);
            && (r.ok <==> Contents(b) != [])
            && (r.ok ==> r.item == Some(Contents(b)[0]) && Contents(r.rb.value) == Contents(b)[1..])
            && (!r.ok ==> r.rb == Some(b))
  {
    var r := Read(Some(b), clear, zero);
    if r.ok {
      var n := Span(b);
      var after := r.rb.value;
      NextIndex(b.read, b.length);
      assert Span(after) == n - 1;
      forall i | 0 <= i < n - 1
        ensures Contents(after)[i] == Contents(b)[i + 1]
      {
        SlotAfterRead(b.read, i, b.length);
      }
    }
  }

  /** The intended write: it succeeds exactly when the ring is not full,
      and then appends; otherwise nothing changes. */
  lemma WriteSpec<T>(b: Ring<T>, x: T)
    requires Good(b)
    ensures var r := Write(Some(b), x);
            && (r.ok <==> Count(Some(b)) < b.length - 1)
            && (r.ok ==> Contents(r.rb.value) == Contents(b) + [x])
            && (!r.ok ==> r.rb == Some(b))
  {
    PutContents(b, x);
  }

  /** Elements come out in the order they went in: writing `x` into a
      ring that is not full and then reading everything before it leaves
      `x` next. */
  lemma FirstInFirstOut<T>(b: Ring<T>, x: T, zero: T)
    requires Good(b) && Contents(b) == [] && b.length >= 2
    ensures var w := Write(Some(b), x);
            w.ok && Read(w.rb, false, zero).item == Some(x)
  {
    WriteSpec(b, x);
    var w := Write(Some(b), x);
    ReadSpec(w.rb.value, false, zero);
  }

  /* ---------------------------------------------------------------------- */
  /*  The unreachable full check                                             */
  /* ---------------------------------------------------------------------- */

  /** The unsigned difference `write - read` of a ring is never `length`:
      it is below `length` when `write >= read`, and wraps past it
      otherwise. */
  lemma DifferenceNeverLength<T>(b: Ring<T>)
    requires Good(b)
    ensures SubWrap(b.write, b.read) != b.length
  {
  }

  /** So `ring_buffer_write` as written always succeeds, dropping the
      oldest element of a full ring. */
  lemma WriteAsWrittenOverwrites<T>(b: Ring<T>, x: T)
    requires Good(b)
    ensures WriteAsWritten(Some(b), x) == Stored(true, Overwrite(Some(b), x).value)
  {
    DifferenceNeverLength(b);
  }

  /** A ring of two slots holds one element: writing `a` and then `b`
      succeeds twice as written and loses `a`; the intended write refuses
      `b`. */
  lemma WriteLosesOldest(a: int, c: int)
    ensures var rb := Fresh(2, 0);
            var w1 := WriteAsWritten(Some(rb), a);
            var w2 := WriteAsWritten(w1.rb, c);
            && w1.ok && w2.ok && Contents(w2.rb.value) == [c]
    ensures var rb := Fresh(2, 0);
            var w1 := Write(Some(rb), a);
            var w2 := Write(w1.rb, c);
            && w1.ok && !w2.ok && Contents(w2.rb.value) == [a]
  {
    Pow2Small();
    var rb := Fresh(2, 0);
    NextPow2U64Unique(2, 2);
    assert rb.length == 2;
    WriteAsWrittenOverwrites(rb, a);
    OverwriteSpec(rb, a);
    var w1 := WriteAsWritten(Some(rb), a);
    WriteAsWrittenOverwrites(w1.rb.value, c);
    OverwriteSpec(w1.rb.value, c);
    WriteSpec(rb, a);
    var v1 := Write(Some(rb), a);
    WriteSpec(v1.rb.value, c);
  }

  /* ---------------------------------------------------------------------- */
  /*  The allocation                                                         */
  /* ---------------------------------------------------------------------- */

  /** `sizeof(CflatRingBuffer)`: `read`, `write` and `length`. */
  const Header: nat := 24

  /** `RingBufferNewOpt`. */
  datatype NewOptions = NewOptions(align: u64, clear: bool)

  /** A ring placed in an arena: the arena after the push, where the
      header is, the bytes pushed, and the ring. */
  datatype Placed<T> = Placed(arena: Arena.Arena, block: Arena.Id, offset: nat, bytes: u64, ring: Ring<T>)

  /** The slots the ring should have room for: as many as it indexes. */
  function Allocated(requested: u64): (n: nat)
    requires requested <= 0x8000_0000_0000_0000
    ensures n == Fresh(requested, 0).length && requested <= n
  {
    NextPow2U64(requested)
  }

  /** `length * element_size + sizeof(CflatRingBuffer)` in `usize`. */
  function SizeFor(length: nat, elementSize: nat): u64 {
    (length * elementSize + Header) % WordModulus
  }

  /** Without a wrap the size is the header and every slot. */
  lemma SizeForExact(length: nat, elementSize: nat)
    requires length * elementSize + Header < WordModulus
    ensures SizeFor(length, elementSize) == length * elementSize + Header >= Header
  {
    ModSmall(length * elementSize + Header, WordModulus);
  }

  /** The bytes `ring_buffer_new_opt` pushes as written: the size for the
      requested `length` rather than the rounded-up one it stores. */
  function ByteSizeAsWritten(elementSize: nat, requested: u64): u64 {
    SizeFor(requested, elementSize)
  }

  /** The bytes it should push: room for every slot the ring indexes. */
  function ByteSize(elementSize: nat, requested: u64): u64 {
    SizeFor(NextPow2U64(requested), elementSize)
  }

  /** The header stores after the push `o`: a NULL result faults at line
      53, and so does a header that runs past the block. */
  function PlaceRing<T>(o: Arena.PushOutcome, bytes: u64, ring: Ring<T>): (r: Outcome<Placed<T>>)
    ensures !r.Hangs?
    ensures r.Done? <==> o.Placed? && o.block in o.arena.blocks && o.offset + Header <= |o.arena.blocks[o.block].mem|
    ensures r.Done? ==> r.value == Placed(o.arena, o.block, o.offset, bytes, ring)
  {
    match o
    case Placed(b, id, offset, _) =>
      if id in b.blocks && offset + Header <= |b.blocks[id].mem| then Done(Placed(b, id, offset, bytes, ring))
      else Faults
    case Refused(_) => Faults
    case Fault => Faults
  }

  /** `ring_buffer_new_opt(element_size, a, length, opt)` as written:
      push `length * element_size + sizeof(CflatRingBuffer)` bytes with
      the option's alignment and clearing, then set both indices to 0 and
      the length to `next_pow2(length)`. */
  function NewOptAsWritten<T>(elementSize: nat, a: Arena.Arena, requested: u64, opt: NewOptions, blank: T): (r: Outcome<Placed<T>>)
    requires Arena.Linked(a)
    ensures !r.Hangs?
    ensures var o := Arena.Push(a, ByteSizeAsWritten(elementSize, requested), Arena.AllocOpt(opt.align, opt.clear));
            && (!o.Placed? ==> r.Faults?)
            && (r.Done? ==> o.Placed? && r.value.arena == o.arena && r.value.block == o.block && r.value.offset == o.offset)
    ensures r.Done? ==>
              && r.value.bytes == ByteSizeAsWritten(elementSize, requested)
              && r.value.ring.read == 0 && r.value.ring.write == 0
              && r.value.ring.length == NextPow2U64(requested)
  {
    var bytes := ByteSizeAsWritten(elementSize, requested);
    PlaceRing(Arena.Push(a, bytes, Arena.AllocOpt(opt.align, opt.clear)), bytes, Fresh(requested, blank))
  }

  /** `ring_buffer_new_opt` pushing room for every slot of the ring. */
  function NewOpt<T>(elementSize: nat, a: Arena.Arena, requested: u64, opt: NewOptions, blank: T): (r: Outcome<Placed<T>>)
    requires Arena.Linked(a)
    ensures !r.Hangs?
    ensures var o := Arena.Push(a, ByteSize(elementSize, requested), Arena.AllocOpt(opt.align, opt.clear));
            && (!o.Placed? ==> r.Faults?)
            && (r.Done? ==> o.Placed? && r.value.arena == o.arena && r.value.block == o.block && r.value.offset == o.offset)
    ensures r.Done? ==>
              && r.value.bytes == ByteSize(elementSize, requested)
              && r.value.ring.read == 0 && r.value.ring.write == 0
              && r.value.ring.length == NextPow2U64(requested)
  {
    var bytes := ByteSize(elementSize, requested);
    PlaceRing(Arena.Push(a, bytes, Arena.AllocOpt(opt.align, opt.clear)), bytes, Fresh(requested, blank))
  }

  /** Without a wrap the pushed size is the header and every slot. */
  lemma ByteSizeExact(elementSize: nat, requested: u64)
    requires requested <= 0x8000_0000_0000_0000
    requires Allocated(requested) * elementSize + Header < WordModulus
    ensures ByteSize(elementSize, requested) == Allocated(requested) * elementSize + Header
    ensures ByteSize(elementSize, requested) >= Header
  {
    SizeForExact(Allocated(requested), elementSize);
  }

  /** A push that does not fault and lies inside its block leaves room
      for the header when it takes at least that much. */
  lemma PlaceRingWhen<T>(o: Arena.PushOutcome, bytes: u64, ring: Ring<T>, size: nat)
    requires !o.Fault? && size >= Header
    requires o.Placed? ==> o.block in o.arena.blocks && o.offset + size <= |o.arena.blocks[o.block].mem|
    ensures PlaceRing(o, bytes, ring).Done? <==> o.Placed?
  {
  }

  /** On a well-formed arena whose blocks all have something committed, a
      ring up to 2^63 slots whose size does not wrap faults only when the
      push returns NULL; it is then empty and valid, and its block holds
      the header and every slot inside the arena's block. */
  lemma NewOptSpec<T>(elementSize: nat, a: Arena.Arena, requested: u64, opt: NewOptions, blank: T)
    requires Arena.Valid(a) && Arena.Committed(a)
    requires requested <= 0x8000_0000_0000_0000
    requires Allocated(requested) * elementSize + Header < WordModulus
    requires Arena.Sane(a, ByteSize(elementSize, requested), Arena.AllocOpt(opt.align, opt.clear))
    ensures var o := Arena.Push(a, ByteSize(elementSize, requested), Arena.AllocOpt(opt.align, opt.clear));
            var r := NewOpt(elementSize, a, requested, opt, blank);
            && !o.Fault? && (r.Done? <==> o.Placed?)
            && (r.Done? ==>
                  && Good(r.value.ring) && Contents(r.value.ring) == []
                  && r.value.bytes == Header + r.value.ring.length * elementSize
                  && r.value.offset + r.value.bytes <= |r.value.arena.blocks[r.value.block].mem|)
  {
    var bytes := ByteSize(elementSize, requested);
    var al := Arena.AllocOpt(opt.align, opt.clear);
    var o := Arena.Push(a, bytes, al);
    Arena.PushSafe(a, bytes, al);
    ByteSizeExact(elementSize, requested);
    assert NewOpt(elementSize, a, requested, opt, blank) == PlaceRing(o, bytes, Fresh(requested, blank));
    PlaceRingWhen(o, bytes, Fresh(requested, blank), bytes);
  }

  /** An operation on a ring: a store (`ring_buffer_overwrite`, or a
      `ring_buffer_write` that goes through), a read, or a clear. */
  datatype Op<T> = Store(x: T) | Take(clear: bool, zero: T) | Reset

  /** The ring after the operations `ops`, in order. */
  function Run<T>(b: Ring<T>, ops: seq<Op<T>>): (r: Ring<T>)
    requires Good(b)
    ensures Good(r) && r.length == b.length
    decreases |ops|
  {
    if ops == [] then b
    else
      var next := match ops[0]
        case Store(x) => Put(b, x)
        case Take(clear, zero) => Read(Some(b), clear, zero).rb.value
        case Reset => Clear(Some(b)).value;
      Run(next, ops[1..])
  }

  /** Every ring reached from a new one of `requested` slots stores inside
      the intended block: the slot at `write`, where the next store goes,
      ends within the bytes `ByteSize` pushes. */
  lemma StoresInside<T>(elementSize: nat, requested: u64, blank: T, ops: seq<Op<T>>)
    requires requested <= 0x8000_0000_0000_0000
    requires Allocated(requested) * elementSize + Header < WordModulus
    ensures Good(Fresh(requested, blank))
    ensures var b := Run(Fresh(requested, blank), ops);
            Header + (b.write + 1) * elementSize <= ByteSize(elementSize, requested)
  {
    var b := Run(Fresh(requested, blank), ops);
    SlotInside(b.write, Allocated(requested), elementSize);
  }

  /** The slot at `w` of a ring of `n` slots ends within the size for `n`. */
  lemma SlotInside(w: nat, n: nat, elementSize: nat)
    requires w < n && n * elementSize + Header < WordModulus
    ensures Header + (w + 1) * elementSize <= SizeFor(n, elementSize)
  {
    SizeForExact(n, elementSize);
    MulMonotone(elementSize, w + 1, n);
  }

  /** A request past 2^63 wraps both ways: `next_pow2` gives a ring of no
      slots, and the bytes pushed for two-byte elements wrap to the header
      and two bytes.  On that ring a read and a write give nothing, the
      count is 0, and an overwrite divides by zero. */
  lemma ZeroLengthRing<T>(blank: T, x: T, zero: T)
    ensures var rb := Fresh(0x8000_0000_0000_0001, blank);
            && NoSlots(rb)
            && ByteSizeAsWritten(2, 0x8000_0000_0000_0001) == Header + 2
            && !Read(Some(rb), false, zero).ok && !WriteAsWritten(Some(rb), x).ok
            && IsEmpty(Some(rb)) && Count(Some(rb)) == 0
            && Overwrite(Some(rb), x) == Faults
  {
    assert 0x8000_0000_0000_0001 * 2 + Header == WordModulus + (Header + 2);
    ModSmall(Header + 2, WordModulus);
    assert (WordModulus + (Header + 2)) % WordModulus == Header + 2;
  }

  /** Three slots requested give four. */
  lemma FreshThree()
    ensures Good(Fresh(3, 0)) && Fresh(3, 0).length == 4
  {
    Pow2Small();
    NextPow2U64Unique(3, 4);
  }

  /** Asking for 3 four-byte slots pushes the header and 12 bytes, but
      gives a ring of 4 slots; three stores move `write` to slot 3, whose
      bytes end past the pushed ones, and the fourth store writes there. */
  lemma StoreBeyondBlock()
    ensures var rb := Fresh(3, 0);
            var w := Put(Put(Put(rb, 1), 2), 3);
            && rb.length == 4 && w.write == 3
            && ByteSizeAsWritten(4, 3) == Header + 12
            && Header + (w.write + 1) * 4 > ByteSizeAsWritten(4, 3)
  {
    FreshThree();
    ThreeStores(Fresh(3, 0));
    SizeForExact(3, 4);
  }

  /** Three stores into an empty ring of four slots move `write` to 3. */
  lemma ThreeStores(rb: Ring<int>)
    requires Good(rb) && rb.length == 4 && rb.read == 0 && rb.write == 0
    ensures Put(Put(Put(rb, 1), 2), 3).write == 3
  {
    var p1 := Put(rb, 1);
    NextIndex(0, 4);
    var p2 := Put(p1, 2);
    NextIndex(1, 4);
    NextIndex(2, 4);
  }
}
