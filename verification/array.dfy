/** The fixed-length arrays of CflatArray.h: `cflat_array_allocation_size`,
    `cflat_array_new_opt` and `cflat_array_init`.

    An array is an 8-byte `length` header followed by its elements.  Memory
    is a byte sequence; an address `p >= 1` names byte `p - 1` and 0 is
    NULL.  `usize` values are stored little-endian. */
module Arrays {
  import opened Words
  import opened Core
  import Arena

  /** `sizeof(CflatOpaqueArray)`: the `usize length` field. */
  const Header: nat := 8

  /** `cflat_array_allocation_size(T, len)`. */
  function AllocationSize(elementSize: nat, length: nat): nat {
    Header + length * elementSize
  }

  /* ---------------------------------------------------------------------- */
  /*  Little-endian words in memory                                          */
  /* ---------------------------------------------------------------------- */

  /** The `n` low bytes of `v`, least significant first. */
  function LeBytes(v: nat, n: nat): (r: seq<u8>)
    ensures |r| == n
  {
    if n == 0 then [] else [(v % 0x100) as u8] + LeBytes(v / 0x100, n - 1)
  }

  /** The value of little-endian bytes. */
  function LeValue(bs: seq<u8>): nat {
    if bs == [] then 0 else bs[0] + 0x100 * LeValue(bs[1..])
  }

  /** Reading back what was stored gives the value, when it fits. */
  lemma {:induction false} LeRoundTrip(v: nat, n: nat)
    requires v < Pow2(8 * n)
    ensures LeValue(LeBytes(v, n)) == v
  {
    if n > 0 {
      Pow2Add(8, 8 * (n - 1));
      Pow2Small();
      assert v / 0x100 < Pow2(8 * (n - 1));
      LeRoundTrip(v / 0x100, n - 1);
      assert LeBytes(v, n)[1..] == LeBytes(v / 0x100, n - 1);
    }
  }

  /** `bs` written over `mem` from byte `lo`. */
  function Write(mem: seq<u8>, lo: nat, bs: seq<u8>): (r: seq<u8>)
    requires lo + |bs| <= |mem|
    ensures |r| == |mem|
    ensures r[lo..lo + |bs|] == bs
    ensures forall k :: 0 <= k < |mem| && !(lo <= k < lo + |bs|) ==> r[k] == mem[k]
  {
    var r := mem[..lo] + bs + mem[lo + |bs|..];
    assert r[lo..lo + |bs|] == bs;
    r
  }

  /** A write leaves every range beside it as it was. */
  lemma WriteBeside(mem: seq<u8>, lo: nat, bs: seq<u8>, p: nat, k: nat)
    requires lo + |bs| <= |mem| && p + k <= |mem|
    requires p + k <= lo || lo + |bs| <= p
    ensures Write(mem, lo, bs)[p..p + k] == mem[p..p + k]
  {
    var r := Write(mem, lo, bs);
    forall j | p <= j < p + k
      ensures r[j] == mem[j]
    {
    }
  }

  /** The `usize` length field of the header at address `p`. */
  function LengthAt(mem: seq<u8>, p: nat): nat
    requires 1 <= p && p - 1 + Header <= |mem|
  {
    LeValue(mem[p - 1..p - 1 + Header])
  }

  /* ---------------------------------------------------------------------- */
  /*  cflat_array_init                                                       */
  /* ---------------------------------------------------------------------- */

  /** Where an array header lives: the shared static empty header
      `cflat_array_header_empty`, or an address in memory. */
  datatype Where = EmptyHeader | At(address: nat)

  datatype Inited = Inited(header: Where, mem: seq<u8>)

  /** `cflat_array_init(element_size, memory, length, clear)`: NULL gives the
      shared empty header; otherwise the header gets `length` and, with
      `clear`, the `length * element_size` bytes after it are zeroed.
      Writing past the end of memory faults. */
  function ArrayInit(elementSize: u64, mem: seq<u8>, memory: nat, length: u64, clear: bool): (r: Outcome<Inited>)
    ensures r.Done? && r.value.header.At? ==> |r.value.mem| == |mem| && 1 <= memory && memory - 1 + Header <= |mem|
    ensures !r.Hangs?
  {
    if memory == 0 then Done(Inited(EmptyHeader, mem))
    else
      var base := memory - 1;
      var bytes := (length * elementSize) % WordModulus;
      if base + Header > |mem| then Faults
      else
        var headed := Write(mem, base, LeBytes(length, Header));
        if !clear then Done(Inited(At(memory), headed))
        else if base + Header + bytes > |mem| then Faults
        else Done(Inited(At(memory), Write(headed, base + Header, seq(bytes, _ => 0))))
  }

  /** NULL memory yields the empty header and leaves memory alone; a block
      that holds the header reads back `length`, has exactly the element
      bytes zeroed when `clear` is set, and keeps every other byte. */
  lemma ArrayInitSpec(elementSize: u64, mem: seq<u8>, memory: nat, length: u64, clear: bool)
    requires memory >= 1 ==> memory - 1 + AllocationSize(elementSize, length) <= |mem|
    requires length * elementSize < WordModulus
    ensures memory == 0 ==> ArrayInit(elementSize, mem, memory, length, clear) == Done(Inited(EmptyHeader, mem))
    ensures memory >= 1 ==>
              var r := ArrayInit(elementSize, mem, memory, length, clear);
              var lo := memory - 1 + Header;
              var hi := lo + length * elementSize;
              && r.Done? && r.value.header == At(memory)
              && LengthAt(r.value.mem, memory) == length
              && (clear ==> forall k :: lo <= k < hi ==> r.value.mem[k] == 0)
              && (forall k :: 0 <= k < |mem| && !(memory - 1 <= k < lo) && !(clear && lo <= k < hi) ==> r.value.mem[k] == mem[k])
  {
    if memory >= 1 {
      var n := length * elementSize;
      ModSmall(n, WordModulus);
      InitWrites(mem, memory - 1, length, n, clear);
    }
  }

  /** The two writes of `cflat_array_init` at `base`: the header, then
      `n` zero bytes when `clear` is set. */
  lemma InitWrites(mem: seq<u8>, base: nat, length: u64, n: nat, clear: bool)
    requires base + Header + n <= |mem|
    ensures var headed := Write(mem, base, LeBytes(length, Header));
            var r := if clear then Write(headed, base + Header, seq(n, _ => 0)) else headed;
            && |r| == |mem|
            && LeValue(r[base..base + Header]) == length
            && (clear ==> forall k :: base + Header <= k < base + Header + n ==> r[k] == 0)
            && (forall k :: 0 <= k < |mem| && !(base <= k < base + Header) && !(clear && base + Header <= k < base + Header + n) ==> r[k] == mem[k])
  {
    Pow2Of64();
    assert Header * 8 == 64;
    LeRoundTrip(length, Header);
    var headed := Write(mem, base, LeBytes(length, Header));
    if clear {
      WriteBeside(headed, base + Header, seq(n, _ => 0), base, Header);
    }
  }

  /* ---------------------------------------------------------------------- */
  /*  Elements                                                               */
  /* ---------------------------------------------------------------------- */

  /** The first byte of element `i` of the array at `p`. */
  function Slot(p: nat, i: nat, elementSize: nat): nat
    requires p >= 1
  {
    p - 1 + Header + i * elementSize
  }

  /** The `i32` element `i` of the array at `p`, as its bit pattern. */
  function GetI32(mem: seq<u8>, p: nat, i: nat): nat
    requires p >= 1 && Slot(p, i, 4) + 4 <= |mem|
  {
    LeValue(mem[Slot(p, i, 4)..Slot(p, i, 4) + 4])
  }

  /** `xs->data[i] = v` for an `i32` bit pattern `v`. */
  function SetI32(mem: seq<u8>, p: nat, i: nat, v: u32): (r: seq<u8>)
    requires p >= 1 && Slot(p, i, 4) + 4 <= |mem|
    ensures |r| == |mem|
  {
    Write(mem, Slot(p, i, 4), LeBytes(v, 4))
  }

  /** A store reads back at its own index, leaves every other element and
      the header alone. */
  lemma SetGet(mem: seq<u8>, p: nat, i: nat, j: nat, v: u32)
    requires p >= 1 && Slot(p, i, 4) + 4 <= |mem| && Slot(p, j, 4) + 4 <= |mem|
    ensures GetI32(SetI32(mem, p, i, v), p, i) == v
    ensures j != i ==> GetI32(SetI32(mem, p, i, v), p, j) == GetI32(mem, p, j)
    ensures LengthAt(SetI32(mem, p, i, v), p) == LengthAt(mem, p)
  {
    Pow2Of16();
    Pow2Add(16, 16);
    LeRoundTrip(v, 4);
    WriteBeside(mem, Slot(p, i, 4), LeBytes(v, 4), p - 1, Header);
    if j < i {
      assert Slot(p, j, 4) + 4 <= Slot(p, i, 4);
      WriteBeside(mem, Slot(p, i, 4), LeBytes(v, 4), Slot(p, j, 4), 4);
    } else if j > i {
      assert Slot(p, i, 4) + 4 <= Slot(p, j, 4);
      WriteBeside(mem, Slot(p, i, 4), LeBytes(v, 4), Slot(p, j, 4), 4);
    }
  }

  /** The loop of `array_init_should_work` and `array_new_should_work`:
      `xs->data[i] = (i32) i` for every `i < xs->length`; afterwards every
      element reads back as its index and the length is unchanged. */
  method FillIndices(mem: seq<u8>, p: nat) returns (r: seq<u8>)
    requires p >= 1 && p - 1 + Header <= |mem|
    requires Slot(p, LengthAt(mem, p), 4) <= |mem| && LengthAt(mem, p) < 0x8000_0000
    ensures |r| == |mem| && LengthAt(r, p) == LengthAt(mem, p)
    ensures forall j :: 0 <= j < LengthAt(mem, p) ==> GetI32(r, p, j) == j
  {
    var n := LengthAt(mem, p);
    r := mem;
    var i := 0;
    while i < n
      invariant 0 <= i <= n && |r| == |mem|
      invariant LengthAt(r, p) == n
      invariant forall j :: 0 <= j < i ==> GetI32(r, p, j) == j
    {
      var next := SetI32(r, p, i, i);
      forall j | 0 <= j < i
        ensures GetI32(next, p, j) == j
      {
        SetGet(r, p, i, j, i);
      }
      SetGet(r, p, i, i, i);
      r := next;
      i := i + 1;
    }
  }

  /* ---------------------------------------------------------------------- */
  /*  cflat_array_new_opt                                                    */
  /* ---------------------------------------------------------------------- */

  /** `CflatArrayAllocOpt`. */
  datatype ArrayAllocOpt = ArrayAllocOpt(align: u64, clear: bool)

  /** A new array: the arena after the push, and where the header is. */
  datatype NewArray = NewArray(arena: Arena.Arena, block: Arena.Id, offset: nat)

  /** `length * element_size + sizeof(CflatOpaqueArray)` in `usize`. */
  function ByteSize(elementSize: u64, length: u64): u64 {
    (length * elementSize + Header) % WordModulus
  }

  /** `arr->length = length` into the block `id` at `offset`: it faults
      when the eight bytes do not fit, and otherwise the header reads back
      `length` and nothing else in the arena changes. */
  function StoreLength(b: Arena.Arena, id: Arena.Id, offset: nat, length: u64): (r: Outcome<NewArray>)
    ensures !r.Hangs?
    ensures r.Done? <==> id in b.blocks && offset + Header <= |b.blocks[id].mem|
    ensures r.Done? ==>
              && r.value.block == id && r.value.offset == offset
              && r.value.arena == b.(blocks := r.value.arena.blocks)
              && r.value.arena.blocks.Keys == b.blocks.Keys
              && (forall k :: k in b.blocks && k != id ==> r.value.arena.blocks[k] == b.blocks[k])
              && var mem := r.value.arena.blocks[id].mem;
                 && r.value.arena.blocks[id] == b.blocks[id].(mem := mem)
                 && |mem| == |b.blocks[id].mem|
                 && LeValue(mem[offset..offset + Header]) == length
                 && (forall k :: 0 <= k < |mem| && !(offset <= k < offset + Header) ==> mem[k] == b.blocks[id].mem[k])
  {
    if id !in b.blocks || offset + Header > |b.blocks[id].mem| then Faults
    else
      var block := b.blocks[id];
      Pow2Of64();
      assert Header * 8 == 64;
      LeRoundTrip(length, Header);
      Done(NewArray(b.(blocks := b.blocks[id := block.(mem := Write(block.mem, offset, LeBytes(length, Header)))]), id, offset))
  }

  /** `bs` stored into the block `id` at `offset`: it faults when the
      bytes do not fit the block, and otherwise they read back and nothing
      else in the arena changes. */
  function StoreBytes(b: Arena.Arena, id: Arena.Id, offset: nat, bs: seq<u8>): (r: Outcome<NewArray>)
    ensures !r.Hangs?
    ensures r.Done? <==> id in b.blocks && offset + |bs| <= |b.blocks[id].mem|
    ensures r.Done? ==>
              && r.value.block == id && r.value.offset == offset
              && r.value.arena == b.(blocks := r.value.arena.blocks)
              && r.value.arena.blocks.Keys == b.blocks.Keys
              && (forall k :: k in b.blocks && k != id ==> r.value.arena.blocks[k] == b.blocks[k])
              && var mem := r.value.arena.blocks[id].mem;
                 && r.value.arena.blocks[id] == b.blocks[id].(mem := mem)
                 && |mem| == |b.blocks[id].mem|
                 && mem[offset..offset + |bs|] == bs
                 && (forall k :: 0 <= k < |mem| && !(offset <= k < offset + |bs|) ==> mem[k] == b.blocks[id].mem[k])
  {
    if id !in b.blocks || offset + |bs| > |b.blocks[id].mem| then Faults
    else
      var block := b.blocks[id];
      Done(NewArray(b.(blocks := b.blocks[id := block.(mem := Write(block.mem, offset, bs))]), id, offset))
  }

  /** `cflat_array_new_opt(element_size, length, a, opt)`: push
      `byte_size` bytes and store `length` in the header.  A NULL push (the
      arena refused) makes the header store fault, as does a push that
      faults itself. */
  function ArrayNewOpt(elementSize: u64, length: u64, a: Arena.Arena, opt: ArrayAllocOpt): (r: Outcome<NewArray>)
    requires Arena.Linked(a)
    ensures !r.Hangs?
  {
    var pushed := Arena.Push(a, ByteSize(elementSize, length), Arena.AllocOpt(opt.align, opt.clear));
    match pushed
    case Placed(b, id, offset, _) => StoreLength(b, id, offset, length)
    case Refused(_) => Faults
    case Fault => Faults
  }

  /** A new array is the pushed block with its header set: the push's
      placement and arena, with only the header bytes changed (by
      `StoreLength`); a refused or faulting push faults. */
  lemma ArrayNewSpec(elementSize: u64, length: u64, a: Arena.Arena, opt: ArrayAllocOpt)
    requires Arena.Linked(a)
    ensures var pushed := Arena.Push(a, ByteSize(elementSize, length), Arena.AllocOpt(opt.align, opt.clear));
            var r := ArrayNewOpt(elementSize, length, a, opt);
            && (!pushed.Placed? ==> r.Faults?)
            && (r.Done? ==> pushed.Placed? && r.value.block == pushed.block && r.value.offset == pushed.offset
                            && LeValue(r.value.arena.blocks[pushed.block].mem[pushed.offset..pushed.offset + Header]) == length
                            && r.value.arena.pos == pushed.arena.pos && r.value.arena.chain == pushed.arena.chain)
  {
  }
}
