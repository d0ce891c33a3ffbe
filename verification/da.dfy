/** The dynamic array of CflatDa.h: `cflat_da_new_opt`, `cflat_da_clone_opt`
    and the `cflat_da_append` macro.

    A dynamic array is a header (`arena`, `count`, `capacity`) followed by
    its elements.  `data` holds the element slots the block really has;
    the `capacity` field is what the header claims, and the two can
    differ.  Element values are a type parameter and the arena a block id;
    `blank` stands for the bytes a new block holds. */
module Da {
  import opened Words
  import opened Bits
  import opened Core
  import Arena

  /** `sizeof(CflatOpaqueDa)`: the arena pointer, `count` and `capacity`. */
  const Header: nat := 24

  /** `CflatDaAllocOpt`. */
  datatype DaOpt = DaOpt(capacity: nat, align: nat, clear: bool)

  datatype Da<T> = Da(arena: nat, count: nat, capacity: nat, data: seq<T>)

  /** The header's claims hold: `count <= capacity`, and the block has a
      slot for every unit of capacity. */
  predicate Good<T>(d: Da<T>) {
    d.count <= d.capacity <= |d.data|
  }

  /** `cflat_da_allocation_size`. */
  function AllocationSize(elementSize: nat, capacity: nat): nat {
    Header + capacity * elementSize
  }

  /** A new array and the bytes pushed for it. */
  datatype Made<T> = Made(da: Da<T>, bytes: nat)

  /** The array `cflat_da_new_opt` leaves once its push has placed: a
      requested capacity of 0 becomes 4. */
  function Fresh<T>(elementSize: nat, arena: nat, opt: DaOpt, blank: T): (r: Made<T>)
    ensures Good(r.da) && r.da.count == 0 && r.da.arena == arena
    ensures r.da.capacity >= 1 && r.da.capacity >= opt.capacity && |r.da.data| == r.da.capacity
    ensures opt.capacity > 0 ==> r.da.capacity == opt.capacity
    ensures r.bytes == AllocationSize(elementSize, r.da.capacity)
  {
    var capacity := if opt.capacity == 0 then 4 else opt.capacity;
    Made(Da(arena, 0, capacity, seq(capacity, _ => blank)), Header + capacity * elementSize)
  }

  /** The array `cflat_da_clone_opt` leaves once its push has placed: a
      new block of `max(da->capacity, opt.capacity)` slots, then a copy of
      the header and the first `count` elements over it.  The copied header
      brings the source's `capacity` with it. */
  function Cloned<T>(elementSize: nat, d: Option<Da<T>>, opt: DaOpt, blank: T): (r: Option<Made<T>>)
    requires d.Some? ==> d.value.count <= d.value.capacity && d.value.count <= |d.value.data|
    ensures r.Some? <==> d.Some?
  {
    match d
    case None => None
    case Some(src) =>
      var made := Fresh(elementSize, src.arena, opt.(capacity := Max(src.capacity, opt.capacity)), blank);
      var slots := made.da.data;
      var copied := src.data[..src.count] + slots[src.count..];
      Some(Made(Da(src.arena, src.count, src.capacity, copied), made.bytes))
  }

  /** A clone has the source's count, capacity and arena and its first
      `count` elements; its block has at least as many slots as either
      capacity asked for.  NULL clones to NULL. */
  lemma CloneSpec<T>(elementSize: nat, src: Da<T>, opt: DaOpt, blank: T)
    requires Good(src)
    ensures var c := Cloned(elementSize, Some(src), opt, blank).value.da;
            && Good(c)
            && c.count == src.count && c.capacity == src.capacity && c.arena == src.arena
            && c.data[..c.count] == src.data[..src.count]
            && |c.data| >= src.capacity && |c.data| >= opt.capacity
    ensures Cloned(elementSize, None, opt, blank) == None
  {
    var c := Cloned(elementSize, Some(src), opt, blank).value.da;
    assert c.data[..c.count] == src.data[..src.count];
  }

  /** The larger capacity a clone asks for is lost: the copied header
      restores the source's, although the block has room for the larger
      one. */
  lemma CloneCapacityOverwritten(blank: int)
    ensures var src := Fresh(4, 0, DaOpt(4, 0, false), blank).da;
            var c := Cloned(4, Some(src), DaOpt(100, 0, false), blank).value.da;
            c.capacity == 4 && |c.data| == 100
  {
  }

  /* ---------------------------------------------------------------------- */
  /*  The pushes                                                             */
  /* ---------------------------------------------------------------------- */

  /** The capacity `cflat_da_new_opt` asks for: 4 for 0. */
  function Capacity(opt: DaOpt): (c: nat)
    ensures c >= 1 && (opt.capacity > 0 ==> c == opt.capacity)
  {
    if opt.capacity == 0 then 4 else opt.capacity
  }

  /** `sizeof(CflatOpaqueDa) + capacity * element_size` in `usize`. */
  function ByteSize(elementSize: nat, capacity: nat): u64 {
    (Header + capacity * elementSize) % WordModulus
  }

  /** Without a wrap the size is the allocation size. */
  lemma ByteSizeExact(elementSize: nat, capacity: nat)
    requires Header + capacity * elementSize < WordModulus
    ensures ByteSize(elementSize, capacity) == AllocationSize(elementSize, capacity) >= Header
  {
    ModSmall(Header + capacity * elementSize, WordModulus);
  }

  /** The element slots the block pushed for `capacity` slots really has:
      all of them unless the size wrapped, and otherwise those that fit
      after the header. */
  function Slots(elementSize: nat, capacity: nat): (n: nat)
    ensures Header + capacity * elementSize < WordModulus ==> n == capacity
    ensures n == 0 || Header + n * elementSize <= ByteSize(elementSize, capacity)
  {
    var bytes := ByteSize(elementSize, capacity);
    if Header + capacity * elementSize < WordModulus then
      ModSmall(Header + capacity * elementSize, WordModulus);
      capacity
    else if bytes < Header then 0
    else
      assert elementSize > 0;
      DivMod(bytes - Header, elementSize);
      (bytes - Header) / elementSize
  }

  /** An array placed in an arena: the arena after the push, where the
      header is, and the array. */
  datatype Pushed<T> = Pushed(arena: Arena.Arena, block: Arena.Id, offset: nat, made: Made<T>)

  /** The header store after the push `o`: a NULL result faults, and so
      does a header that runs past the block. */
  function Place<T>(o: Arena.PushOutcome, made: Made<T>): (r: Outcome<Pushed<T>>)
    ensures !r.Hangs?
    ensures r.Done? <==> o.Placed? && o.block in o.arena.blocks && o.offset + Header <= |o.arena.blocks[o.block].mem|
    ensures r.Done? ==> r.value == Pushed(o.arena, o.block, o.offset, made)
  {
    match o
    case Placed(b, id, offset, _) =>
      if id in b.blocks && offset + Header <= |b.blocks[id].mem| then Done(Pushed(b, id, offset, made))
      else Faults
    case Refused(_) => Faults
    case Fault => Faults
  }

  /** `cflat_da_new_opt(element_size, a, opt)` on the arena `a`, whose
      address is `handle`: push `sizeof(CflatOpaqueDa) + capacity *
      element_size` bytes (wrapping) with the option's alignment and
      clearing, then set the header.  A NULL result faults at the header
      store of line 81, and so does a header that runs past the block. */
  function NewOpt<T>(elementSize: nat, a: Arena.Arena, handle: nat, opt: DaOpt, blank: T): (r: Outcome<Pushed<T>>)
    requires Arena.Linked(a) && opt.align < WordModulus
    ensures !r.Hangs?
    ensures var o := Arena.Push(a, ByteSize(elementSize, Capacity(opt)), Arena.AllocOpt(opt.align, opt.clear));
            && (!o.Placed? ==> r.Faults?)
            && (r.Done? ==>
                  && o.Placed? && r.value.arena == o.arena && r.value.block == o.block && r.value.offset == o.offset
                  && r.value.block in r.value.arena.blocks
                  && r.value.offset + Header <= |r.value.arena.blocks[r.value.block].mem|)
    ensures r.Done? ==>
              var m := r.value.made;
              && m.da.arena == handle && m.da.count == 0 && m.da.capacity == Capacity(opt)
              && m.bytes == ByteSize(elementSize, Capacity(opt))
              && (|m.da.data| == 0 || Header + |m.da.data| * elementSize <= m.bytes)
  {
    var capacity := Capacity(opt);
    var bytes := ByteSize(elementSize, capacity);
    var slots := Slots(elementSize, capacity);
    Place(Arena.Push(a, bytes, Arena.AllocOpt(opt.align, opt.clear)), Made(Da(handle, 0, capacity, seq(slots, _ => blank)), bytes))
  }

  /** On a well-formed arena whose blocks all have something committed, a
      new array whose size does not wrap faults only when the push returns
      NULL, and otherwise it is `Fresh`: empty, with every slot it
      claims. */
  lemma NewOptSpec<T>(elementSize: nat, a: Arena.Arena, handle: nat, opt: DaOpt, blank: T)
    requires Arena.Valid(a) && Arena.Committed(a) && opt.align < WordModulus
    requires Header + Capacity(opt) * elementSize < WordModulus
    requires Arena.Sane(a, ByteSize(elementSize, Capacity(opt)), Arena.AllocOpt(opt.align, opt.clear))
    ensures var o := Arena.Push(a, ByteSize(elementSize, Capacity(opt)), Arena.AllocOpt(opt.align, opt.clear));
            var r := NewOpt(elementSize, a, handle, opt, blank);
            && !o.Fault? && (r.Done? <==> o.Placed?)
            && (r.Done? ==> r.value.made == Fresh(elementSize, handle, opt, blank))
  {
    var capacity := Capacity(opt);
    var bytes := ByteSize(elementSize, capacity);
    var o := Arena.Push(a, bytes, Arena.AllocOpt(opt.align, opt.clear));
    Arena.PushSafe(a, bytes, Arena.AllocOpt(opt.align, opt.clear));
    ByteSizeExact(elementSize, capacity);
    var made := Made(Da(handle, 0, capacity, seq(Slots(elementSize, capacity), _ => blank)), bytes);
    assert NewOpt(elementSize, a, handle, opt, blank) == Place(o, made);
    assert made == Fresh(elementSize, handle, opt, blank);
    PlaceWhen(o, made, bytes);
  }

  /** A push that does not fault and lies inside its block leaves room
      for the header when it takes at least that much. */
  lemma PlaceWhen<T>(o: Arena.PushOutcome, made: Made<T>, size: nat)
    requires !o.Fault? && size >= Header
    requires o.Placed? ==> o.block in o.arena.blocks && o.offset + size <= |o.arena.blocks[o.block].mem|
    ensures Place(o, made).Done? <==> o.Placed?
  {
  }

  /** The copy of line 92 over the new array `n`: the header and the first
      `count` elements of `src`, which bring `src`'s count and capacity.  A
      faulting new array, or a copy that runs past the block, faults. */
  function CopyOver<T>(n: Outcome<Pushed<T>>, src: Da<T>, elementSize: nat): (r: Outcome<Option<Pushed<T>>>)
    requires src.count <= |src.data|
    requires n.Done? ==> n.value.block in n.value.arena.blocks
    ensures !r.Hangs?
    ensures r.Done? <==>
              n.Done? && n.value.offset + Header + src.count * elementSize <= |n.value.arena.blocks[n.value.block].mem|
    ensures r.Done? ==>
              && r.value.Some?
              && r.value.value.arena == n.value.arena && r.value.value.block == n.value.block
              && r.value.value.offset == n.value.offset && r.value.value.made.bytes == n.value.made.bytes
              && r.value.value.made.da == src.(data := r.value.value.made.da.data)
              && |r.value.value.made.da.data| >= src.count
              && r.value.value.made.da.data[..src.count] == src.data[..src.count]
              && (src.count <= |n.value.made.da.data| ==>
                    r.value.value.made.da.data[src.count..] == n.value.made.da.data[src.count..])
  {
    if !n.Done? then Faults
    else
      var p := n.value;
      if p.offset + Header + src.count * elementSize > |p.arena.blocks[p.block].mem| then Faults
      else
        var slots := p.made.da.data;
        var copied := src.data[..src.count] + (if src.count <= |slots| then slots[src.count..] else []);
        assert copied[..src.count] == src.data[..src.count];
        Done(Some(p.(made := Made(src.(data := copied), p.made.bytes))))
  }

  /** `cflat_da_clone_opt(element_size, da, opt)`, where `a` is the arena
      `da->arena` points to: NULL gives NULL; otherwise a new array of
      `max(da->capacity, opt.capacity)` slots in `a`, over which the header
      and the first `count` elements are copied.  The new array's faults
      are the clone's, and so is a copy that runs past the block. */
  function CloneOpt<T>(elementSize: nat, a: Arena.Arena, d: Option<Da<T>>, opt: DaOpt, blank: T): (r: Outcome<Option<Pushed<T>>>)
    requires Arena.Linked(a) && opt.align < WordModulus
    requires d.Some? ==> d.value.count <= |d.value.data|
    ensures !r.Hangs?
    ensures d.None? <==> r == Done(None)
    ensures d.Some? ==>
              var n := NewOpt(elementSize, a, d.value.arena, opt.(capacity := Max(d.value.capacity, opt.capacity)), blank);
              && (!n.Done? ==> r.Faults?)
              && (r.Done? ==>
                    && n.Done? && r.value.Some?
                    && r.value.value.arena == n.value.arena && r.value.value.block == n.value.block
                    && r.value.value.offset == n.value.offset
                    && r.value.value.made.da == d.value.(data := r.value.value.made.da.data)
                    && |r.value.value.made.da.data| >= d.value.count
                    && r.value.value.made.da.data[..d.value.count] == d.value.data[..d.value.count])
  {
    match d
    case None => Done(None)
    case Some(src) =>
      CopyOver(NewOpt(elementSize, a, src.arena, opt.(capacity := Max(src.capacity, opt.capacity)), blank), src, elementSize)
  }

  /** Fewer elements than the capacity copy into the bytes pushed for
      it. */
  lemma CopyFits(offset: nat, count: nat, capacity: nat, elementSize: nat, size: nat)
    requires count <= capacity && offset + AllocationSize(elementSize, capacity) <= size
    ensures offset + Header + count * elementSize <= size
  {
    MulMonotone(elementSize, count, capacity);
  }

  /** On a well-formed arena whose blocks all have something committed, a
      clone whose size does not wrap faults only when its push returns
      NULL, and otherwise it is `Cloned`. */
  lemma CloneOptSpec<T>(elementSize: nat, a: Arena.Arena, src: Da<T>, opt: DaOpt, blank: T)
    requires Arena.Valid(a) && Arena.Committed(a) && opt.align < WordModulus && Good(src)
    requires var wide := opt.(capacity := Max(src.capacity, opt.capacity));
             && Header + Capacity(wide) * elementSize < WordModulus
             && Arena.Sane(a, ByteSize(elementSize, Capacity(wide)), Arena.AllocOpt(opt.align, opt.clear))
    ensures var wide := opt.(capacity := Max(src.capacity, opt.capacity));
            var o := Arena.Push(a, ByteSize(elementSize, Capacity(wide)), Arena.AllocOpt(opt.align, opt.clear));
            var r := CloneOpt(elementSize, a, Some(src), opt, blank);
            && (r.Done? <==> o.Placed?)
            && (r.Done? ==> r.value.Some? && r.value.value.made == Cloned(elementSize, Some(src), opt, blank).value)
  {
    var wide := opt.(capacity := Max(src.capacity, opt.capacity));
    var capacity := Capacity(wide);
    var bytes := ByteSize(elementSize, capacity);
    var al := Arena.AllocOpt(opt.align, opt.clear);
    NewOptSpec(elementSize, a, src.arena, wide, blank);
    Arena.PushSafe(a, bytes, al);
    ByteSizeExact(elementSize, capacity);
    var n := NewOpt(elementSize, a, src.arena, wide, blank);
    assert CloneOpt(elementSize, a, Some(src), opt, blank) == CopyOver(n, src, elementSize);
    if n.Done? {
      var p := n.value;
      CopyFits(p.offset, src.count, capacity, elementSize, |p.arena.blocks[p.block].mem|);
      var r := CopyOver(n, src, elementSize).value.value.made;
      var c := Cloned(elementSize, Some(src), opt, blank).value;
      assert r.da.data == r.da.data[..src.count] + r.da.data[src.count..];
      assert c.da.data == c.da.data[..src.count] + c.da.data[src.count..];
    }
  }

  /* ---------------------------------------------------------------------- */
  /*  cflat_da_append                                                        */
  /* ---------------------------------------------------------------------- */

  /** The capacity `cflat_da_append` grows a full array to: 4 from 0,
      otherwise twice as much. */
  function Grown(capacity: nat): (c: nat)
    ensures c > capacity
    ensures capacity > 0 ==> c == 2 * capacity
  {
    if capacity == 0 then 4 else 2 * capacity
  }

  /** What `cflat_da_append` leaves: the array the variable now points to
      and, when it grew, the old array with the header the macro
      rewrote. */
  datatype Appended<T> = Appended(da: Da<T>, stale: Option<Da<T>>)

  /** `cflat_da_append(da, value)` on a non-NULL array (the macro asserts
      it).  When `count >= capacity` it first writes the grown capacity into
      the old header, then clones with that capacity and `align` equal to
      the element size; then it stores `value` at `count` and counts it. */
  function Append<T>(elementSize: nat, d: Da<T>, value: T, blank: T): (r: Appended<T>)
    requires Good(d)
    ensures Good(r.da)
  {
    if d.count >= d.capacity then
      var prior := d.(capacity := Grown(d.capacity));
      var made := Cloned(elementSize, Some(prior), DaOpt(prior.capacity, elementSize, false), blank).value.da;
      Appended(made.(data := made.data[prior.count := value], count := prior.count + 1), Some(prior))
    else
      Appended(d.(data := d.data[d.count := value], count := d.count + 1), None)
  }

  /** An append adds exactly one element at the end and keeps the others;
      the capacity grows (to 4, or twice) exactly when the array was full,
      and then the old header claims more slots than its block has. */
  lemma AppendSpec<T>(elementSize: nat, d: Da<T>, value: T, blank: T)
    requires Good(d)
    ensures var r := Append(elementSize, d, value, blank);
            && r.da.count == d.count + 1
            && r.da.data[..d.count] == d.data[..d.count]
            && r.da.data[d.count] == value
            && r.da.arena == d.arena
            && (d.count < d.capacity ==> r.da.capacity == d.capacity && r.stale.None?)
            && (d.count == d.capacity ==> r.da.capacity == Grown(d.capacity) && r.stale.Some?)
            && (r.stale.Some? ==> r.stale.value.capacity > |r.stale.value.data| || |d.data| > d.capacity)
  {
    var r := Append(elementSize, d, value, blank);
    assert r.da.data[..d.count] == d.data[..d.count];
  }

  /** `n` appends of `0, 1, ..., n - 1` to a new array (the loop of
      `arena_da_append_should_work`): every element reads back as its
      index. */
  method AppendIndices(n: nat) returns (d: Da<int>)
    ensures Good(d) && d.count == n
    ensures forall i :: 0 <= i < n ==> d.data[i] == i
  {
    d := Fresh(4, 0, DaOpt(0, 0, false), 0).da;
    var i := 0;
    while i < n
      invariant 0 <= i <= n
      invariant Good(d) && d.count == i
      invariant forall j :: 0 <= j < i ==> d.data[j] == j
    {
      AppendSpec(4, d, i, 0);
      var next := Append(4, d, i, 0).da;
      forall j | 0 <= j < i
        ensures next.data[j] == j
      {
        assert next.data[..i][j] == d.data[..i][j];
      }
      d := next;
      i := i + 1;
    }
  }

  /** Cloning after the appends keeps every element
      (`da_clone_should_work`). */
  lemma CloneKeepsElements(elementSize: nat, d: Da<int>, n: nat, opt: DaOpt)
    requires Good(d) && d.count == n && forall i :: 0 <= i < n ==> d.data[i] == i
    ensures var c := Cloned(elementSize, Some(d), opt, 0).value.da;
            c.count == n && forall i :: 0 <= i < n ==> c.data[i] == i
  {
    CloneSpec(elementSize, d, opt, 0);
    var c := Cloned(elementSize, Some(d), opt, 0).value.da;
    forall i | 0 <= i < n
      ensures c.data[i] == i
    {
      assert c.data[..n][i] == d.data[..n][i];
    }
  }
}
