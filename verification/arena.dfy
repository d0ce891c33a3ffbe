/** The arena allocator of CflatArena.h.

    An arena is a newest-first chain of blocks (`CflatArenaNode`s linked by
    `prev`, headed by `curr`) and a free list of blocks kept for reuse, plus a
    cached logical position `pos`.  A block has a reserved size `res`, a
    committed size `cmt`, a cursor `pos` (the first unused byte, counted from
    the block start, so an empty block has `pos == Header`) and an ownership
    flag (`ptr2free != NULL`).  Blocks are named by ids; the chain and the
    free list are sequences of ids, newest (head) first; an allocation is a
    block id and an offset in that block.  The operating system's reserve and
    commit calls are taken to succeed; freshly reserved pages read as zero. */
module Arena {
  import opened Words
  import opened Bits
  import opened Core

  /** `sizeof(CflatArenaNode)` on a 64-bit target: the embedded three-word
      `CflatArena`, then `prev`, `ptr2free`, `pos`, `res` and `cmt`. */
  const Header: nat := 64
  /** The page size `cflat_arena_new` rounds to. */
  const PageSize: nat := 4096
  /** `cflat_alignof(void*)`, the alignment of a push with `align == 0`. */
  const PointerAlign: nat := 8
  /** `sizeof(cflat__tls_arena_bytes[i])`, `KiB(64)`. */
  const ScratchBytes: nat := 0x1_0000
  /** The length of `cflat__tls_scratches` and of `cflat__tls_arena_bytes`. */
  const ScratchSlots: nat := 2

  type Id = nat

  datatype Block = Block(owned: bool, pos: usize, res: usize, cmt: usize, mem: seq<u8>)

  datatype Arena = Arena(chain: seq<Id>, free: seq<Id>, pos: usize, blocks: map<Id, Block>, next: Id)

  /** `CflatAllocOpt`. */
  datatype AllocOpt = AllocOpt(align: usize, clear: bool)

  /** `CflatTempArena`: the checkpoint of an arena's logical position (the
      arena pointer it also holds is the arena the caller passes back). */
  datatype TempArena = TempArena(pos: usize)

  /** What `cflat_arena_push_opt` does: it hands out `offset` in `block`,
      returns NULL, or faults (a division by a zero commit size, a failed
      reservation assertion, or a zeroing that runs past the block). */
  datatype PushOutcome =
    | Placed(arena: Arena, block: Id, offset: usize, consumed: usize)
    | Refused(arena: Arena)
    | Fault

  /* ---------------------------------------------------------------------- */
  /*  Well-formed arenas                                                     */
  /* ---------------------------------------------------------------------- */

  /** All blocks the arena can reach: the chain, then the free list. */
  function Listed(a: Arena): seq<Id> {
    a.chain + a.free
  }

  predicate Distinct(s: seq<Id>) {
    forall x | x in s :: multiset(s)[x] == 1
  }

  /** The pointer structure: a non-null current block, two lists of distinct
      existing blocks, and ids below `next` (where a new block gets its id). */
  predicate Linked(a: Arena) {
    && |a.chain| >= 1
    && Distinct(Listed(a))
    && (forall id :: id in Listed(a) ==> id in a.blocks)
    && (forall id :: id in a.blocks ==> id < a.next)
  }

  /** A block's sizes: header <= cursor <= reserved, committed <= reserved,
      and the cursor inside the committed part unless nothing is committed
      (`cflat_arena_new(r, 0)` builds such a block). */
  predicate BlockOk(b: Block) {
    && Header <= b.pos <= b.res
    && b.cmt <= b.res
    && |b.mem| == b.res
    && (b.cmt == 0 || b.pos <= b.cmt)
  }

  predicate Valid(a: Arena) {
    Linked(a) && forall id :: id in a.blocks ==> BlockOk(a.blocks[id])
  }

  /** Bytes handed out from a block: its cursor past the header. */
  function Span(b: Block): nat {
    if b.pos >= Header then b.pos - Header else 0
  }

  /** Bytes handed out from the blocks `ids`. */
  function Used(blocks: map<Id, Block>, ids: seq<Id>): nat
    decreases |ids|
  {
    if ids == [] then 0
    else (if ids[0] in blocks then Span(blocks[ids[0]]) else 0) + Used(blocks, ids[1..])
  }

  /** The logical position the arena's `pos` is meant to cache: the bytes
      handed out from the chain. */
  function InUse(a: Arena): nat {
    Used(a.blocks, a.chain)
  }

  /* ---------------------------------------------------------------------- */
  /*  Creation                                                               */
  /* ---------------------------------------------------------------------- */

  /** `cflat__node_init`: the embedded arena of a fresh node, whose chain is
      the node itself (id 0), with an empty free list and position 0. */
  function NodeInit(owned: bool, res: usize, cmt: usize, mem: seq<u8>): (a: Arena)
    ensures Listed(a) == [0] && a.blocks.Keys == {0} && a.blocks[0].owned == owned
    ensures InUse(a) == a.pos == 0
    ensures Header <= res && cmt <= res && |mem| == res && (cmt == 0 || Header <= cmt)
            ==> Valid(a) && InUse(a) == a.pos
  {
    Arena([0], [], 0, map[0 := Block(owned, Header, res, cmt, mem)], 1)
  }

  /** `cflat_arena_init`: an arena inside a caller's buffer of `size` bytes
      (contents `mem`), all committed and not owned, so never released. */
  function ArenaInit(size: usize, mem: seq<u8>): (a: Arena)
    requires Header <= size && |mem| == size
    ensures Valid(a) && InUse(a) == a.pos == 0
    ensures a.chain == [0] && !a.blocks[0].owned
    ensures a.blocks[0].res == a.blocks[0].cmt == size
  {
    NodeInit(false, size, size, mem)
  }

  lemma Pow2Of12()
    ensures Pow2(12) == PageSize
  {
    Pow2Small();
    Pow2Add(4, 8);
  }

  /** `align_pow2(x, 4096)` for an `x` that does not wrap: the least
      multiple of the page size at or above `x`. */
  lemma PageRound(x: usize)
    requires x + PageSize - 1 < WordModulus
    ensures AlignPow2(x, PageSize) % PageSize == 0
    ensures x <= AlignPow2(x, PageSize) < x + PageSize
    ensures x > 0 ==> AlignPow2(x, PageSize) >= PageSize
  {
    Pow2Of12();
    AlignPow2Rounds(x, PageSize, 12);
    var r := AlignPow2(x, PageSize);
    if x > 0 {
      PositiveMultiple(r, PageSize);
    }
  }

  /** A positive multiple of `m` is at least `m`. */
  lemma PositiveMultiple(r: nat, m: nat)
    requires m > 0 && r > 0 && r % m == 0
    ensures r >= m
  {
    var q := r / m;
    DivMod(r, m);
    assert q != 0;
    MulMonotone(m, 1, q);
  }

  /** The block `cflat_arena_new(reserve, commit)` builds.  With a commit
      of 0 the source faults on the header write instead (see `New`); push
      only asks for such a block when its current block has nothing
      committed, and then faults at the commit step all the same. */
  function NewBlock(reserve: usize, commit: usize): (b: Block)
    requires commit <= reserve && 0 < reserve <= WordModulus - PageSize
    ensures BlockOk(b) && b.owned && b.pos == Header
    ensures b.res % PageSize == 0 && reserve <= b.res < reserve + PageSize
    ensures b.cmt % PageSize == 0 && commit <= b.cmt < commit + PageSize
    ensures forall i :: 0 <= i < |b.mem| ==> b.mem[i] == 0
  {
    PageRound(reserve);
    PageRound(commit);
    var res := AlignPow2(reserve, PageSize);
    var cmt := AlignPow2(commit, PageSize);
    CommitBelowReserve(commit, reserve);
    Block(true, Header, res, cmt, seq(res, _ => 0))
  }

  /** Rounding to pages keeps `commit <= reserve`. */
  lemma CommitBelowReserve(commit: usize, reserve: usize)
    requires commit <= reserve && 0 < reserve <= WordModulus - PageSize
    ensures AlignPow2(commit, PageSize) <= AlignPow2(reserve, PageSize)
    ensures commit == 0 ==> AlignPow2(commit, PageSize) == 0
  {
    PageRound(reserve);
    Pow2Of12();
    AlignPow2Rounds(commit, PageSize, 12);
    var r := AlignPow2(reserve, PageSize);
    assert commit <= r && r % PageSize == 0;
    var c := AlignPow2(commit, PageSize);
    if commit == 0 && c > 0 {
      PositiveMultiple(c, PageSize);
    }
  }

  /** A reservation rounds to no pages exactly when it is 0 or within a
      page of 2^64, where the sum in `align_pow2` wraps. */
  lemma PageRoundZero(x: usize)
    ensures AlignPow2(x, PageSize) == 0 <==> x == 0 || x > WordModulus - PageSize
  {
    if x + PageSize - 1 < WordModulus {
      PageRound(x);
      var r := AlignPow2(x, PageSize);
      if x == 0 && r != 0 {
        PositiveMultiple(r, PageSize);
      }
    } else {
      Pow2Of64();
      Pow2Of12();
      Pow2Monotone(12, 64);
      var sum := x + PageSize - 1 - WordModulus;
      assert AddWrap(x, SubWrap(PageSize, 1)) == sum;
      assert Not(PageSize - 1, 64) == HighOnes(64, 12);
      AndHighOnes(sum, 64, 12);
      assert sum / Pow2(12) == 0;
    }
  }

  /** `cflat_arena_new` on the path where none of its checks fails. */
  function ArenaNew(reserve: usize, commit: usize): (a: Arena)
    requires 0 < commit <= reserve <= WordModulus - PageSize
    ensures Valid(a) && Committed(a) && InUse(a) == a.pos == 0
    ensures a.chain == [0] && a.free == [] && a.blocks[0].owned
    ensures a.blocks[0].res % PageSize == 0 && reserve <= a.blocks[0].res < reserve + PageSize
    ensures a.blocks[0].cmt % PageSize == 0 && commit <= a.blocks[0].cmt < commit + PageSize
  {
    var b := NewBlock(reserve, commit);
    PositiveMultiple(b.cmt, PageSize);
    NodeInit(true, b.res, b.cmt, b.mem)
  }

  /** `cflat_arena_new`: the assertion `reserve >= commit` (line 179), the
      "Bad alloc" assertion when the reservation rounds to no pages (line
      189), and the header write of `cflat__node_init` (line 191) into a
      reservation that stays inaccessible when the commit rounds to no
      pages.  Any other request gives a well-formed arena whose one block
      has something committed. */
  function New(reserve: usize, commit: usize): (r: Outcome<Arena>)
    ensures !r.Hangs?
    ensures r.Done? <==> 0 < commit <= reserve <= WordModulus - PageSize
    ensures r.Done? ==> Valid(r.value) && Committed(r.value) && InUse(r.value) == r.value.pos == 0
    ensures r.Done? ==> r.value.chain == [0] && r.value.free == [] && r.value.blocks[0].owned
    ensures r.Done? ==> r.value.blocks[0].res == AlignPow2(reserve, PageSize)
    ensures r.Done? ==> r.value.blocks[0].cmt == AlignPow2(commit, PageSize)
  {
    if reserve < commit then Faults
    else
      var res := AlignPow2(reserve, PageSize);
      var cmt := AlignPow2(commit, PageSize);
      PageRoundZero(reserve);
      PageRoundZero(commit);
      if res == 0 then Faults
      else if cmt < Header then
        assert commit == 0 by {
          if commit > 0 {
            PageRound(commit);
          }
        }
        Faults
      else Done(ArenaNew(reserve, commit))
  }

  /** Asking for no committed bytes always faults. */
  lemma NewZeroCommitFaults(reserve: usize)
    ensures New(reserve, 0) == Faults
  {
  }

  /* ---------------------------------------------------------------------- */
  /*  Push                                                                   */
  /* ---------------------------------------------------------------------- */

  /** The alignment push uses: `opt.align`, or pointer alignment for 0. */
  function AlignOf(opt: AllocOpt): (al: usize)
    ensures al >= 1
    ensures opt.align != 0 ==> al == opt.align
  {
    if opt.align == 0 then PointerAlign else opt.align
  }

  /** The free-list test of push: the block, emptied, takes `size` bytes at
      `align_pow2(sizeof(CflatArenaNode), align)` (the sum wrapping). */
  predicate Fits(b: Block, size: usize, align: usize) {
    b.res >= AddWrap(AlignPow2(Header, align), size)
  }

  /** The index of the first block of `free` that fits, `|free|` if none. */
  function FirstFit(blocks: map<Id, Block>, free: seq<Id>, size: usize, align: usize): (k: nat)
    requires forall id :: id in free ==> id in blocks
    ensures k <= |free|
    ensures forall i :: 0 <= i < k ==> !Fits(blocks[free[i]], size, align)
    ensures k < |free| ==> Fits(blocks[free[k]], size, align)
    decreases |free|
  {
    if free == [] then 0
    else if Fits(blocks[free[0]], size, align) then 0
    else 1 + FirstFit(blocks, free[1..], size, align)
  }

  /** Every block of `ids` with its cursor back at the header. */
  function ResetCursors(blocks: map<Id, Block>, ids: seq<Id>): (r: map<Id, Block>)
    ensures r.Keys == blocks.Keys
    ensures forall id :: id in blocks ==>
              r[id] == if id in ids then blocks[id].(pos := Header) else blocks[id]
    decreases |ids|
  {
    if ids == [] then blocks
    else
      var r := ResetCursors(blocks, ids[1..]);
      if ids[0] in r then r[ids[0] := r[ids[0]].(pos := Header)] else r
  }

  /** The sizes of the block push creates when no free block fits: those
      of the current block, or `align_pow2(size + header, align)` for both
      when `size + header` (wrapping) exceeds the current reservation. */
  function GrownSizes(cur: Block, size: usize, align: usize): (rc: (usize, usize))
    ensures AddWrap(size, Header) > cur.res ==> rc.0 == rc.1
    ensures AddWrap(size, Header) <= cur.res ==> rc == (cur.res, cur.cmt)
  {
    var need := AddWrap(size, Header);
    if need > cur.res then (AlignPow2(need, align), AlignPow2(need, align))
    else (cur.res, cur.cmt)
  }

  /** Lines 240-266: the block a push moves to when the current one is too
      small, made the head of the chain (None: `cflat_arena_new`'s
      assertions fail).  The first free block that fits is unlinked;
      every free block visited has its cursor reset; failing all, a new
      owned block with id `next` is created. */
  function Choose(a: Arena, size: usize, align: usize): (c: Option<Arena>)
    requires Linked(a)
    ensures c.Some? ==> Linked(c.value) && c.value.chain[1..] == a.chain && c.value.pos == a.pos
    ensures c.Some? ==> c.value.chain[0] in c.value.blocks && c.value.blocks[c.value.chain[0]].pos == Header
  {
    var k := FirstFit(a.blocks, a.free, size, align);
    if k < |a.free| then
      ChooseFree(a, k)
    else
      var cur := a.blocks[a.chain[0]];
      var rc := GrownSizes(cur, size, align);
      if rc.1 <= rc.0 && 0 < rc.0 <= WordModulus - PageSize then
        Some(ChooseNew(a, rc.0, rc.1))
      else
        None
  }

  /** Taking the free block at index `k`: the blocks before it and itself
      get their cursors reset, it leaves the free list and heads the chain. */
  function ChooseFree(a: Arena, k: nat): (c: Option<Arena>)
    requires Linked(a) && k < |a.free|
    ensures c.Some? && Linked(c.value) && c.value.chain == [a.free[k]] + a.chain
    ensures c.value.free == a.free[..k] + a.free[k + 1..]
    ensures c.value.blocks == ResetCursors(a.blocks, a.free[..k + 1])
    ensures c.value.pos == a.pos && c.value.next == a.next
    ensures multiset(Listed(c.value)) == multiset(Listed(a))
  {
    var id := a.free[k];
    var r := a.(chain := [id] + a.chain, free := a.free[..k] + a.free[k + 1..],
                blocks := ResetCursors(a.blocks, a.free[..k + 1]));
    assert a.free == a.free[..k] + [id] + a.free[k + 1..];
    assert multiset(Listed(r)) == multiset(Listed(a));
    assert forall x :: x in Listed(r) <==> x in Listed(a) by {
      forall x ensures x in Listed(r) <==> x in Listed(a) {
        assert x in Listed(r) <==> x in multiset(Listed(r));
        assert x in Listed(a) <==> x in multiset(Listed(a));
      }
    }
    Some(r)
  }

  /** Creating the block: every free block's cursor is reset (the search
      visited all of them) and a new owned block heads the chain. */
  function ChooseNew(a: Arena, res: usize, cmt: usize): (r: Arena)
    requires Linked(a) && cmt <= res && 0 < res <= WordModulus - PageSize
    ensures Linked(r) && r.chain == [a.next] + a.chain && r.free == a.free
    ensures r.blocks == ResetCursors(a.blocks, a.free)[a.next := NewBlock(res, cmt)]
    ensures r.pos == a.pos && r.next == a.next + 1
    ensures multiset(Listed(r)) == multiset(Listed(a)) + multiset{a.next}
  {
    var r := a.(chain := [a.next] + a.chain,
                blocks := ResetCursors(a.blocks, a.free)[a.next := NewBlock(res, cmt)],
                next := a.next + 1);
    assert a.next !in Listed(a);
    assert multiset(Listed(r)) == multiset(Listed(a)) + multiset{a.next};
    r
  }

  /** Lines 271-281: when the cursor would pass the committed size, commit
      up to `pst` rounded up to a multiple of the old committed size,
      clamped to the reservation.  None: that rounding divides by zero. */
  function Commit(b: Block, pst: usize): (r: Option<Block>)
    ensures r.None? <==> b.cmt < pst && b.cmt == 0
    ensures r.Some? ==> r.value == b.(cmt := r.value.cmt)
    ensures r.Some? && b.cmt >= pst ==> r.value.cmt == b.cmt
    ensures r.Some? && b.cmt < pst && pst + b.cmt <= WordModulus ==>
              r.value.cmt == Min(b.res, RoundUp(pst, b.cmt))
  {
    if b.cmt >= pst then Some(b)
    else if b.cmt == 0 then None
    else
      var up := AddWrap(pst, b.cmt - 1);
      var aligned := up - up % b.cmt;
      Some(b.(cmt := Min(aligned, b.res)))
  }

  /** The least multiple of `m` at or above `x`. */
  function RoundUp(x: nat, m: nat): (r: nat)
    requires m > 0
    ensures r % m == 0 && x <= r < x + m
  {
    DivMod(x + m - 1, m);
    RoundDown(x + m - 1, m);
    ((x + m - 1) / m) * m
  }

  /** `cflat_mem_zero` of the bytes `[lo, hi)`. */
  function ZeroFill(mem: seq<u8>, lo: nat, hi: nat): (r: seq<u8>)
    requires lo <= hi <= |mem|
    ensures |r| == |mem|
    ensures forall i :: 0 <= i < |r| ==> r[i] == if lo <= i < hi then 0 else mem[i]
  {
    mem[..lo] + seq(hi - lo, _ => 0) + mem[hi..]
  }

  /** `cflat_arena_push_opt` as written.  Line 290 adds `pst - pos` to the
      arena's position after line 287 has set `pos = pst`, so the logical
      position never moves. */
  function PushAsWritten(a: Arena, size: usize, opt: AllocOpt): (o: PushOutcome)
    requires Linked(a)
    ensures o.Placed? || o.Refused? ==> Linked(o.arena) && o.arena.pos == a.pos
  {
    match Chosen(a, size, opt)
    case None => Fault
    case Some(a1) => Settle(a1, size, opt)
  }

  /** Push stays in the current block iff its aligned cursor plus `size`
      (wrapping) is within the reservation (line 239). */
  predicate Stays(a: Arena, size: usize, opt: AllocOpt)
    requires Linked(a)
  {
    AddWrap(Start(a, opt), size) <= a.blocks[a.chain[0]].res
  }

  /** The arena push places in: unchanged when it stays, else `Choose`'s. */
  function Chosen(a: Arena, size: usize, opt: AllocOpt): (c: Option<Arena>)
    requires Linked(a)
    ensures c.Some? ==> Linked(c.value) && c.value.pos == a.pos
  {
    if Stays(a, size, opt) then Some(a) else Choose(a, size, AlignOf(opt))
  }

  /** Lines 267-293 once the block is chosen (the chain's head): commit,
      then place `size` bytes at the aligned cursor, or return NULL. */
  function Settle(a: Arena, size: usize, opt: AllocOpt): (o: PushOutcome)
    requires Linked(a)
    ensures o.Placed? || o.Refused? ==> Linked(o.arena) && o.arena.pos == a.pos
    ensures o.Placed? || o.Refused? ==> o.arena.chain == a.chain && o.arena.free == a.free
  {
    var id := a.chain[0];
    var b := a.blocks[id];
    var pre := AlignPow2(b.pos, AlignOf(opt));
    var pst := AddWrap(pre, size);
    match Commit(b, pst)
    case None => Fault
    case Some(b1) =>
      if b1.cmt < pst then Refused(a.(blocks := a.blocks[id := b1]))
      else if opt.clear && !(pre <= pst <= |b1.mem|) then Fault
      else
        var mem := if opt.clear then ZeroFill(b1.mem, pre, pst) else b1.mem;
        var consumed := SubWrap(pst, b.pos);
        Placed(a.(blocks := a.blocks[id := b1.(pos := pst, mem := mem)]), id, pre, consumed)
  }

  /** `cflat_arena_push_opt` with line 290 as intended: the position grows
      by the bytes the chosen block's cursor advanced, padding included. */
  function Push(a: Arena, size: usize, opt: AllocOpt): (o: PushOutcome)
    requires Linked(a)
    ensures o.Fault? <==> PushAsWritten(a, size, opt).Fault?
    ensures o.Refused? ==> o == PushAsWritten(a, size, opt)
    ensures o.Placed? ==> o.arena == PushAsWritten(a, size, opt).arena.(pos := AddWrap(a.pos, o.consumed))
  {
    var w := PushAsWritten(a, size, opt);
    if w.Placed? then w.(arena := w.arena.(pos := AddWrap(a.pos, w.consumed))) else w
  }

  /* ---------------------------------------------------------------------- */
  /*  Facts about push                                                       */
  /* ---------------------------------------------------------------------- */

  /** A bound far below 2^64: with sizes, alignments and reservations up to
      it, none of push's sums wraps. */
  const Limit: nat := 0x1000_0000_0000_0000

  /** The push arguments the placement facts are stated for: a power-of-two
      alignment, and no size near the 64-bit limit. */
  ghost predicate Sane(a: Arena, size: usize, opt: AllocOpt) {
    && IsPowerOfTwo(AlignOf(opt)) && AlignOf(opt) <= Limit && size <= Limit
    && forall id :: id in a.blocks ==> a.blocks[id].res <= Limit
  }

  /** Every reachable block has something committed. */
  predicate Committed(a: Arena)
    requires Linked(a)
  {
    forall id :: id in Listed(a) ==> a.blocks[id].cmt > 0
  }

  lemma AlignSmall(x: usize, b: usize)
    requires IsPowerOfTwo(b) && b <= Limit && x <= 4 * Limit
    ensures AlignPow2(x, b) % b == 0 && x <= AlignPow2(x, b) < x + b
  {
    var j: nat :| b == Pow2(j);
    AlignPow2Rounds(x, b, j);
  }

  lemma DistinctSplit(s: seq<Id>, t: seq<Id>, x: Id)
    requires Distinct(s + t) && x in s
    ensures x !in t
  {
    assert multiset(s + t) == multiset(s) + multiset(t);
    assert x in s + t;
  }

  /** `Used` only looks at the spans of the listed blocks. */
  lemma {:induction false} UsedFrame(b1: map<Id, Block>, b2: map<Id, Block>, ids: seq<Id>)
    requires forall id :: id in ids ==> (id in b1 <==> id in b2)
    requires forall id :: id in ids && id in b1 ==> Span(b1[id]) == Span(b2[id])
    ensures Used(b1, ids) == Used(b2, ids)
    decreases |ids|
  {
    if ids != [] {
      UsedFrame(b1, b2, ids[1..]);
    }
  }

  /** Changing the head block of a distinct list changes its usage by the
      head's span. */
  lemma UsedHead(blocks: map<Id, Block>, ids: seq<Id>, b: Block)
    requires |ids| >= 1 && Distinct(ids) && ids[0] in blocks
    ensures Used(blocks[ids[0] := b], ids) + Span(blocks[ids[0]]) == Used(blocks, ids) + Span(b)
  {
    DistinctSplit([ids[0]], ids[1..], ids[0]) by {
      assert [ids[0]] + ids[1..] == ids;
    }
    UsedFrame(blocks[ids[0] := b], blocks, ids[1..]);
  }

  lemma DistinctParts(s: seq<Id>, t: seq<Id>)
    requires Distinct(s + t)
    ensures Distinct(s) && Distinct(t)
  {
    assert multiset(s + t) == multiset(s) + multiset(t);
    forall x | x in s ensures multiset(s)[x] == 1 {
      assert x in s + t;
    }
    forall x | x in t ensures multiset(t)[x] == 1 {
      assert x in s + t;
    }
  }

  /** The commit step when the cursor stays below the reservation: it
      faults iff nothing is committed, and otherwise reaches `pst` iff the
      reservation does. */
  lemma CommitReaches(b: Block, pst: usize)
    requires BlockOk(b) && 0 < pst && pst + b.res <= WordModulus
    ensures Commit(b, pst).None? <==> b.cmt == 0 && b.cmt < pst
    ensures Commit(b, pst).Some? ==> b.cmt <= Commit(b, pst).value.cmt <= b.res
    ensures Commit(b, pst).Some? ==> (Commit(b, pst).value.cmt >= pst <==> pst <= b.res)
  {
  }

  /** The arguments `Settle` is analysed for. */
  ghost predicate SettleArgs(a: Arena, size: usize, opt: AllocOpt) {
    && Valid(a) && IsPowerOfTwo(AlignOf(opt)) && AlignOf(opt) <= Limit && size <= Limit
    && a.blocks[a.chain[0]].res <= 4 * Limit
  }

  /** Where `Settle` places: the head block's cursor, aligned up. */
  function Start(a: Arena, opt: AllocOpt): usize
    requires Linked(a)
  {
    AlignPow2(a.blocks[a.chain[0]].pos, AlignOf(opt))
  }

  lemma StartAligned(a: Arena, size: usize, opt: AllocOpt)
    requires SettleArgs(a, size, opt)
    ensures Start(a, opt) % AlignOf(opt) == 0
    ensures a.blocks[a.chain[0]].pos <= Start(a, opt) < a.blocks[a.chain[0]].pos + AlignOf(opt)
    ensures AddWrap(Start(a, opt), size) == Start(a, opt) + size
  {
    AlignSmall(a.blocks[a.chain[0]].pos, AlignOf(opt));
  }

  /** `Settle` faults iff nothing is committed, and returns NULL iff the
      placement passes the reservation. */
  lemma SettleOutcome(a: Arena, size: usize, opt: AllocOpt)
    requires SettleArgs(a, size, opt)
    ensures Settle(a, size, opt).Fault? <==> a.blocks[a.chain[0]].cmt == 0
    ensures Settle(a, size, opt).Refused? <==>
              a.blocks[a.chain[0]].cmt != 0 && Start(a, opt) + size > a.blocks[a.chain[0]].res
  {
    StartAligned(a, size, opt);
    CommitReaches(a.blocks[a.chain[0]], Start(a, opt) + size);
  }

  lemma SettleValid(a: Arena, size: usize, opt: AllocOpt)
    requires SettleArgs(a, size, opt)
    ensures !Settle(a, size, opt).Fault? ==> Valid(Settle(a, size, opt).arena)
  {
    StartAligned(a, size, opt);
    CommitReaches(a.blocks[a.chain[0]], Start(a, opt) + size);
  }

  lemma SettleRefused(a: Arena, size: usize, opt: AllocOpt)
    requires SettleArgs(a, size, opt) && Settle(a, size, opt).Refused?
    ensures InUse(Settle(a, size, opt).arena) == InUse(a)
    ensures forall id :: id in a.blocks ==> Settle(a, size, opt).arena.blocks[id].pos == a.blocks[id].pos
  {
    var o := Settle(a, size, opt);
    DistinctParts(a.chain, a.free);
    UsedHead(a.blocks, a.chain, o.arena.blocks[a.chain[0]]);
  }

  lemma SettlePlaced(a: Arena, size: usize, opt: AllocOpt)
    requires SettleArgs(a, size, opt) && Settle(a, size, opt).Placed?
    ensures var o := Settle(a, size, opt);
            && o.block == a.chain[0] && o.offset == Start(a, opt)
            && o.consumed == Start(a, opt) + size - a.blocks[a.chain[0]].pos
            && o.arena.blocks[o.block].pos == Start(a, opt) + size
  {
    StartAligned(a, size, opt);
  }

  lemma SettleInUse(a: Arena, size: usize, opt: AllocOpt)
    requires SettleArgs(a, size, opt) && Settle(a, size, opt).Placed?
    ensures InUse(Settle(a, size, opt).arena) == InUse(a) + Settle(a, size, opt).consumed
  {
    SettlePlaced(a, size, opt);
    var o := Settle(a, size, opt);
    DistinctParts(a.chain, a.free);
    UsedHead(a.blocks, a.chain, o.arena.blocks[a.chain[0]]);
  }

  /** Resetting cursors keeps blocks well formed. */
  lemma ResetValid(a: Arena, ids: seq<Id>)
    requires Valid(a)
    ensures forall id :: id in a.blocks ==> BlockOk(ResetCursors(a.blocks, ids)[id])
  {
  }

  /** For sane arguments the block push moves to exists, and sits in a
      valid arena with a reservation push's sums cannot wrap. */
  lemma ChooseSome(a: Arena, size: usize, opt: AllocOpt)
    requires Valid(a) && Sane(a, size, opt)
    ensures Choose(a, size, AlignOf(opt)).Some?
    ensures SettleArgs(Choose(a, size, AlignOf(opt)).value, size, opt)
  {
    var k := FirstFit(a.blocks, a.free, size, AlignOf(opt));
    if k < |a.free| {
      ChooseIsFree(a, size, AlignOf(opt));
      ChooseSomeFree(a, size, opt, k);
    } else {
      ChooseSomeNew(a, size, opt);
      ChooseIsNew(a, size, AlignOf(opt));
    }
  }

  /** `Choose` when a free block fits. */
  lemma ChooseIsFree(a: Arena, size: usize, align: usize)
    requires Linked(a) && FirstFit(a.blocks, a.free, size, align) < |a.free|
    ensures Choose(a, size, align) == ChooseFree(a, FirstFit(a.blocks, a.free, size, align))
  {
  }

  /** `Choose` when none does and the grown sizes can be reserved. */
  lemma ChooseIsNew(a: Arena, size: usize, align: usize)
    requires Linked(a) && FirstFit(a.blocks, a.free, size, align) == |a.free|
    requires var rc := GrownSizes(a.blocks[a.chain[0]], size, align);
             rc.1 <= rc.0 && 0 < rc.0 <= WordModulus - PageSize
    ensures var rc := GrownSizes(a.blocks[a.chain[0]], size, align);
            Choose(a, size, align) == Some(ChooseNew(a, rc.0, rc.1))
  {
  }

  lemma ChooseSomeFree(a: Arena, size: usize, opt: AllocOpt, k: nat)
    requires Valid(a) && Sane(a, size, opt) && k < |a.free|
    ensures SettleArgs(ChooseFree(a, k).value, size, opt)
  {
    ResetValid(a, a.free[..k + 1]);
  }

  lemma ChooseSomeNew(a: Arena, size: usize, opt: AllocOpt)
    requires Valid(a) && Sane(a, size, opt)
    ensures var rc := GrownSizes(a.blocks[a.chain[0]], size, AlignOf(opt));
            rc.1 <= rc.0 && 0 < rc.0 <= 3 * Limit && SettleArgs(ChooseNew(a, rc.0, rc.1), size, opt)
  {
    var rc := GrownBounds(a.blocks[a.chain[0]], size, AlignOf(opt));
    ResetValid(a, a.free);
    var c := ChooseNew(a, rc.0, rc.1);
    assert c.blocks[c.chain[0]] == NewBlock(rc.0, rc.1);
  }

  /** The grown sizes of a sane push can be reserved. */
  lemma GrownBounds(cur: Block, size: usize, align: usize) returns (rc: (usize, usize))
    requires BlockOk(cur) && cur.res <= Limit && size <= Limit && IsPowerOfTwo(align) && align <= Limit
    ensures rc == GrownSizes(cur, size, align)
    ensures rc.1 <= rc.0 && 0 < rc.0 <= 3 * Limit
  {
    var need := size + Header;
    assert AddWrap(size, Header) == need;
    AlignSmall(need, align);
    rc := GrownSizes(cur, size, align);
  }

  /** Choosing a block does not change the bytes in use: the chain keeps its
      blocks and the new head is empty. */
  lemma ChooseInUse(a: Arena, size: usize, opt: AllocOpt)
    requires Valid(a) && Sane(a, size, opt)
    ensures Choose(a, size, AlignOf(opt)).Some? && InUse(Choose(a, size, AlignOf(opt)).value) == InUse(a)
  {
    ChooseSome(a, size, opt);
    var k := FirstFit(a.blocks, a.free, size, AlignOf(opt));
    if k < |a.free| {
      FreeBlocks(a, k);
      FreeResets(a, k);
      HeadedInUse(a, ChooseFree(a, k).value);
    } else {
      ChooseSomeNew(a, size, opt);
      var rc := GrownSizes(a.blocks[a.chain[0]], size, AlignOf(opt));
      NewBlocks(a, rc.0, rc.1);
      HeadedInUse(a, ChooseNew(a, rc.0, rc.1));
    }
  }

  /** Putting an empty block in front of a chain whose blocks are unchanged
      keeps the bytes in use. */
  lemma HeadedInUse(a: Arena, c: Arena)
    requires Linked(a) && |c.chain| >= 1 && c.chain[1..] == a.chain
    requires c.chain[0] in c.blocks && c.blocks[c.chain[0]].pos == Header
    requires forall id :: id in a.chain ==> id in c.blocks && c.blocks[id] == a.blocks[id]
    ensures InUse(c) == InUse(a)
  {
    UsedFrame(c.blocks, a.blocks, a.chain);
  }

  /** For sane arguments push always has a block to place in. */
  lemma ChosenFacts(a: Arena, size: usize, opt: AllocOpt)
    requires Valid(a) && Sane(a, size, opt)
    ensures Chosen(a, size, opt).Some?
    ensures SettleArgs(Chosen(a, size, opt).value, size, opt)
    ensures InUse(Chosen(a, size, opt).value) == InUse(a)
    ensures Stays(a, size, opt) ==> Chosen(a, size, opt).value == a
  {
    if !Stays(a, size, opt) {
      ChooseSome(a, size, opt);
      ChooseInUse(a, size, opt);
    }
  }

  /** Push keeps every reachable block committed: free blocks keep their
      commit, a new block commits at least the current one's or its own
      reservation. */
  lemma ChosenCommitted(a: Arena, size: usize, opt: AllocOpt)
    requires Valid(a) && Sane(a, size, opt) && Committed(a)
    ensures Chosen(a, size, opt).Some? ==> Committed(Chosen(a, size, opt).value)
  {
    if !Stays(a, size, opt) {
      var k := FirstFit(a.blocks, a.free, size, AlignOf(opt));
      if k < |a.free| {
        ChooseIsFree(a, size, AlignOf(opt));
        CommittedFree(a, k);
      } else {
        CommittedNew(a, size, opt);
        ChooseIsNew(a, size, AlignOf(opt));
      }
    }
  }

  lemma CommittedFree(a: Arena, k: nat)
    requires Valid(a) && Committed(a) && k < |a.free|
    ensures Committed(ChooseFree(a, k).value)
  {
    var c := ChooseFree(a, k).value;
    forall x | x in Listed(c) ensures c.blocks[x].cmt > 0 {
      assert x in multiset(Listed(c));
    }
  }

  lemma CommittedNew(a: Arena, size: usize, opt: AllocOpt)
    requires Valid(a) && Sane(a, size, opt) && Committed(a)
    ensures var rc := GrownSizes(a.blocks[a.chain[0]], size, AlignOf(opt));
            rc.1 <= rc.0 && 0 < rc.0 <= 3 * Limit && Committed(ChooseNew(a, rc.0, rc.1))
  {
    var rc := GrownBounds(a.blocks[a.chain[0]], size, AlignOf(opt));
    assert rc.1 > 0 by {
      if rc.1 != rc.0 {
        assert rc.1 == a.blocks[a.chain[0]].cmt && a.chain[0] in Listed(a);
      }
    }
    var c := ChooseNew(a, rc.0, rc.1);
    NewBlocks(a, rc.0, rc.1);
    assert c.blocks[a.next] == NewBlock(rc.0, rc.1);
    forall x | x in Listed(c) ensures c.blocks[x].cmt > 0 {
      if x != a.next {
        assert x in Listed(a);
      }
    }
  }

  lemma SettleCommitted(a: Arena, size: usize, opt: AllocOpt)
    requires SettleArgs(a, size, opt) && Committed(a)
    ensures !Settle(a, size, opt).Fault? && Committed(Settle(a, size, opt).arena)
  {
    SettleOutcome(a, size, opt);
    StartAligned(a, size, opt);
    CommitReaches(a.blocks[a.chain[0]], Start(a, opt) + size);
  }

  /** Push places in the arena `Chosen` yields. */
  lemma PushIsSettle(a: Arena, size: usize, opt: AllocOpt)
    requires Linked(a) && Chosen(a, size, opt).Some?
    ensures PushAsWritten(a, size, opt) == Settle(Chosen(a, size, opt).value, size, opt)
  {
  }

  /** Push keeps the arena well formed. */
  lemma PushKeepsValid(a: Arena, size: usize, opt: AllocOpt)
    requires Valid(a) && Sane(a, size, opt)
    ensures !Push(a, size, opt).Fault? ==> Valid(Push(a, size, opt).arena)
  {
    ChosenFacts(a, size, opt);
    PushIsSettle(a, size, opt);
    SettleValid(Chosen(a, size, opt).value, size, opt);
  }

  /** A placed push hands out `size` bytes inside its block, past the
      block's header. */
  lemma PlacedInside(a: Arena, size: usize, opt: AllocOpt)
    requires Valid(a) && Sane(a, size, opt) && Push(a, size, opt).Placed?
    ensures var o := Push(a, size, opt);
            && Valid(o.arena) && o.block in o.arena.blocks
            && Header <= o.offset && o.offset + size <= |o.arena.blocks[o.block].mem| < WordModulus
  {
    PushPlacement(a, size, opt);
    PushKeepsValid(a, size, opt);
  }

  /** On a well-formed arena whose blocks all have something committed, a
      push never faults, and a placed one lies inside its block. */
  lemma PushSafe(a: Arena, size: usize, opt: AllocOpt)
    requires Valid(a) && Committed(a) && Sane(a, size, opt)
    ensures var o := Push(a, size, opt);
            && !o.Fault?
            && (o.Placed? ==> o.block in o.arena.blocks && Header <= o.offset
                              && o.offset + size <= |o.arena.blocks[o.block].mem| < WordModulus)
  {
    PushFaults(a, size, opt);
    if Push(a, size, opt).Placed? {
      PlacedInside(a, size, opt);
    }
  }

  /** Push faults only when the block it places in has nothing committed
      (line 273 divides by that size), so never when every reachable block
      has something committed. */
  lemma PushFaults(a: Arena, size: usize, opt: AllocOpt)
    requires Valid(a) && Sane(a, size, opt)
    ensures Chosen(a, size, opt).Some?
    ensures var c := Chosen(a, size, opt).value;
            Push(a, size, opt).Fault? <==> c.blocks[c.chain[0]].cmt == 0
    ensures Committed(a) ==> !Push(a, size, opt).Fault? && Committed(Push(a, size, opt).arena)
  {
    ChosenFacts(a, size, opt);
    PushIsSettle(a, size, opt);
    var c := Chosen(a, size, opt).value;
    SettleOutcome(c, size, opt);
    if Committed(a) {
      ChosenCommitted(a, size, opt);
      SettleCommitted(c, size, opt);
    }
  }

  /** Where push places: at an aligned offset past the header, moving the
      block's cursor to its end.  In the current block the offset is the
      cursor rounded up (less than `align` of padding); in a block it moves
      to, the header size rounded up. */
  lemma PushPlacement(a: Arena, size: usize, opt: AllocOpt)
    requires Valid(a) && Sane(a, size, opt) && Push(a, size, opt).Placed?
    ensures var o := Push(a, size, opt);
            && o.offset % AlignOf(opt) == 0 && Header <= o.offset
            && o.arena.blocks[o.block].pos == o.offset + size
            && (Stays(a, size, opt) <==> o.block == a.chain[0])
    ensures var o := Push(a, size, opt);
            var cur := a.blocks[a.chain[0]].pos;
            Stays(a, size, opt) ==>
              cur <= o.offset < cur + AlignOf(opt) && o.consumed == o.offset + size - cur
    ensures var o := Push(a, size, opt);
            !Stays(a, size, opt) ==>
              o.offset == AlignPow2(Header, AlignOf(opt)) && o.consumed == o.offset + size - Header
  {
    ChosenFacts(a, size, opt);
    PushIsSettle(a, size, opt);
    var c := Chosen(a, size, opt).value;
    SettlePlaced(c, size, opt);
    StartAligned(c, size, opt);
    if !Stays(a, size, opt) {
      assert c.chain == [c.chain[0]] + a.chain;
      DistinctParts(c.chain, c.free);
      DistinctSplit([c.chain[0]], a.chain, c.chain[0]);
    }
  }

  /** A placement consumes its size plus less than one alignment of
      padding. */
  lemma PushPadding(a: Arena, size: usize, opt: AllocOpt)
    requires Valid(a) && Sane(a, size, opt) && Push(a, size, opt).Placed?
    ensures size <= Push(a, size, opt).consumed < size + AlignOf(opt)
  {
    PushPlacement(a, size, opt);
    if !Stays(a, size, opt) {
      AlignSmall(Header, AlignOf(opt));
    }
  }

  /** With the position fix, push keeps the arena's position equal to the
      bytes the chain has handed out (modulo 2^64): a placement adds the
      bytes the cursor advanced, a refusal adds nothing. */
  lemma PushAccounts(a: Arena, size: usize, opt: AllocOpt)
    requires Valid(a) && Sane(a, size, opt) && a.pos == InUse(a) % WordModulus
    ensures var o := Push(a, size, opt);
            !o.Fault? ==> o.arena.pos == InUse(o.arena) % WordModulus
    ensures var o := Push(a, size, opt);
            o.Placed? ==> InUse(o.arena) == InUse(a) + o.consumed
    ensures var o := Push(a, size, opt);
            o.Refused? ==> InUse(o.arena) == InUse(a) && o.arena.pos == a.pos
  {
    if Push(a, size, opt).Placed? {
      var p, c := PushPlacedInUse(a, size, opt);
      AddWrapMod(a.pos, InUse(a), c);
    } else if Push(a, size, opt).Refused? {
      PushRefusedInUse(a, size, opt);
    }
  }

  /** A placement adds the bytes consumed to those in use, and (wrapping)
      to the position. */
  lemma PushPlacedInUse(a: Arena, size: usize, opt: AllocOpt) returns (p: Arena, c: usize)
    requires Valid(a) && Sane(a, size, opt) && Push(a, size, opt).Placed?
    ensures p == Push(a, size, opt).arena && c == Push(a, size, opt).consumed
    ensures InUse(p) == InUse(a) + c && p.pos == AddWrap(a.pos, c)
  {
    ChosenFacts(a, size, opt);
    PushIsSettle(a, size, opt);
    SettleInUse(Chosen(a, size, opt).value, size, opt);
    var w := PushAsWritten(a, size, opt).arena;
    p, c := Push(a, size, opt).arena, Push(a, size, opt).consumed;
    assert p.blocks == w.blocks && p.chain == w.chain;
  }

  /** A refusal changes neither the bytes in use nor the position. */
  lemma PushRefusedInUse(a: Arena, size: usize, opt: AllocOpt)
    requires Valid(a) && Sane(a, size, opt) && Push(a, size, opt).Refused?
    ensures InUse(Push(a, size, opt).arena) == InUse(a) && Push(a, size, opt).arena.pos == a.pos
  {
    ChosenFacts(a, size, opt);
    PushIsSettle(a, size, opt);
    SettleRefused(Chosen(a, size, opt).value, size, opt);
  }

  /** The bytes a placement leaves in its block: zero over the allocation
      when `clear` is set, everything else as before. */
  lemma SettleContents(a: Arena, size: usize, opt: AllocOpt)
    requires SettleArgs(a, size, opt) && Settle(a, size, opt).Placed?
    ensures var o := Settle(a, size, opt);
            var m := a.blocks[o.block].mem;
            && |o.arena.blocks[o.block].mem| == |m|
            && (forall i :: 0 <= i < |m| ==>
                  o.arena.blocks[o.block].mem[i] == if opt.clear && o.offset <= i < o.offset + size then 0 else m[i])
            && (forall id :: id in a.blocks && id != o.block ==> o.arena.blocks[id] == a.blocks[id])
  {
    SettlePlaced(a, size, opt);
  }

  /** Choosing a block changes no block's bytes or sizes, only free
      cursors; a block it creates reads as zero. */
  lemma ChosenBlocks(a: Arena, size: usize, opt: AllocOpt)
    requires Valid(a) && Sane(a, size, opt)
    ensures Chosen(a, size, opt).Some?
    ensures var c := Chosen(a, size, opt).value;
            forall id :: id in a.blocks ==>
              && id in c.blocks
              && c.blocks[id] == a.blocks[id].(pos := c.blocks[id].pos)
              && (id in a.chain ==> c.blocks[id] == a.blocks[id])
    ensures var c := Chosen(a, size, opt).value;
            c.chain[0] !in a.blocks ==>
              forall i :: 0 <= i < |c.blocks[c.chain[0]].mem| ==> c.blocks[c.chain[0]].mem[i] == 0
  {
    ChosenFacts(a, size, opt);
    if !Stays(a, size, opt) {
      var k := FirstFit(a.blocks, a.free, size, AlignOf(opt));
      if k < |a.free| {
        ChooseIsFree(a, size, AlignOf(opt));
        FreeBlocks(a, k);
      } else {
        var rc := GrownBounds(a.blocks[a.chain[0]], size, AlignOf(opt));
        ChooseIsNew(a, size, AlignOf(opt));
        NewBlocks(a, rc.0, rc.1);
      }
    }
  }

  /** Resetting cursors of free blocks leaves the chain's blocks alone. */
  lemma ResetSparesChain(a: Arena, ids: seq<Id>)
    requires Linked(a) && forall id :: id in ids ==> id in a.free
    ensures forall id :: id in a.chain ==> ResetCursors(a.blocks, ids)[id] == a.blocks[id]
  {
    forall id | id in a.chain ensures id !in ids {
      DistinctSplit(a.chain, a.free, id);
    }
  }

  lemma FreeBlocks(a: Arena, k: nat)
    requires Linked(a) && k < |a.free|
    ensures var c := ChooseFree(a, k).value;
            && c.chain[0] in a.blocks
            && forall id :: id in a.blocks ==>
                 && id in c.blocks
                 && c.blocks[id] == a.blocks[id].(pos := c.blocks[id].pos)
                 && (id in a.chain ==> c.blocks[id] == a.blocks[id])
  {
    ResetSparesChain(a, a.free[..k + 1]);
  }

  lemma NewBlocks(a: Arena, res: usize, cmt: usize)
    requires Linked(a) && cmt <= res && 0 < res <= WordModulus - PageSize
    ensures var c := ChooseNew(a, res, cmt);
            && c.chain[0] !in a.blocks
            && (forall i :: 0 <= i < |c.blocks[c.chain[0]].mem| ==> c.blocks[c.chain[0]].mem[i] == 0)
            && forall id :: id in a.blocks ==>
                 && id in c.blocks
                 && c.blocks[id] == a.blocks[id].(pos := c.blocks[id].pos)
                 && (id in a.chain ==> c.blocks[id] == a.blocks[id])
  {
    ResetSparesChain(a, a.free);
  }

  /** Push writes only the block it places in, and there only the
      allocation, which is zeroed iff `clear` is set. */
  lemma PushContents(a: Arena, size: usize, opt: AllocOpt)
    requires Valid(a) && Sane(a, size, opt) && Push(a, size, opt).Placed?
    ensures var o := Push(a, size, opt);
            var m := o.arena.blocks[o.block].mem;
            o.block in a.blocks ==>
              && |m| == |a.blocks[o.block].mem|
              && forall i :: 0 <= i < |m| ==>
                   m[i] == if opt.clear && o.offset <= i < o.offset + size then 0 else a.blocks[o.block].mem[i]
  {
    ChosenFacts(a, size, opt);
    ChosenBlocks(a, size, opt);
    var c, s := PushPlacedView(a, size, opt);
    SettleContents(c, size, opt);
  }

  /** A block push creates reads as zero. */
  lemma PushFreshZero(a: Arena, size: usize, opt: AllocOpt)
    requires Valid(a) && Sane(a, size, opt) && Push(a, size, opt).Placed?
    ensures var o := Push(a, size, opt);
            var m := o.arena.blocks[o.block].mem;
            o.block !in a.blocks ==> forall i :: 0 <= i < |m| ==> m[i] == 0
  {
    ChosenFacts(a, size, opt);
    ChosenBlocks(a, size, opt);
    var c, s := PushPlacedView(a, size, opt);
    SettleContents(c, size, opt);
    SettlePlaced(c, size, opt);
  }

  /** Every other block keeps its sizes and bytes, and the chain's blocks
      are untouched. */
  lemma PushOthers(a: Arena, size: usize, opt: AllocOpt)
    requires Valid(a) && Sane(a, size, opt) && Push(a, size, opt).Placed?
    ensures var o := Push(a, size, opt);
            forall id :: id in a.blocks && id != o.block ==>
              && id in o.arena.blocks
              && o.arena.blocks[id] == a.blocks[id].(pos := o.arena.blocks[id].pos)
              && (id in a.chain ==> o.arena.blocks[id] == a.blocks[id])
  {
    ChosenFacts(a, size, opt);
    ChosenBlocks(a, size, opt);
    var c, s := PushPlacedView(a, size, opt);
    SettleContents(c, size, opt);
  }

  /** A placement by push is the placement `Settle` makes in the arena
      `Chosen` yields, with the position moved. */
  lemma PushPlacedView(a: Arena, size: usize, opt: AllocOpt) returns (c: Arena, s: PushOutcome)
    requires Linked(a) && Push(a, size, opt).Placed?
    ensures Chosen(a, size, opt) == Some(c) && Linked(c) && s == Settle(c, size, opt) && s.Placed?
    ensures var o := Push(a, size, opt);
            && o.block == s.block && o.offset == s.offset && o.consumed == s.consumed
            && o.arena.blocks == s.arena.blocks && o.arena.chain == s.arena.chain && o.arena.free == s.arena.free
  {
    c := Chosen(a, size, opt).value;
    PushIsSettle(a, size, opt);
    s := Settle(c, size, opt);
  }

  /** `Settle` touches only the head block. */
  lemma SettleFrame(a: Arena, size: usize, opt: AllocOpt)
    requires Linked(a) && !Settle(a, size, opt).Fault?
    ensures var o := Settle(a, size, opt);
            && o.arena.chain == a.chain && o.arena.free == a.free
            && o.arena.blocks.Keys == a.blocks.Keys
            && forall id :: id in a.blocks && id != a.chain[0] ==> o.arena.blocks[id] == a.blocks[id]
    ensures var o := Settle(a, size, opt);
            var h := a.chain[0];
            o.arena.blocks[h].owned == a.blocks[h].owned && o.arena.blocks[h].res == a.blocks[h].res
  {
  }

  lemma DistinctIndex(s: seq<Id>, i: nat, j: nat)
    requires Distinct(s) && i < j < |s|
    ensures s[i] != s[j]
  {
    assert s == s[..j] + [s[j]] + s[j + 1..];
    assert s[i] in s[..j];
    assert multiset(s)[s[j]] >= multiset(s[..j])[s[j]] + 1;
  }

  /** A push that fits the current block (line 239) places there, never
      returns NULL, and leaves both lists alone. */
  lemma PushStays(a: Arena, size: usize, opt: AllocOpt)
    requires Valid(a) && Sane(a, size, opt) && Stays(a, size, opt) && !Push(a, size, opt).Fault?
    ensures Push(a, size, opt).Placed?
    ensures Push(a, size, opt).arena.chain == a.chain && Push(a, size, opt).arena.free == a.free
  {
    ChosenFacts(a, size, opt);
    PushIsSettle(a, size, opt);
    SettleFrame(a, size, opt);
    SettleOutcome(a, size, opt);
    StartAligned(a, size, opt);
  }

  /** Otherwise push takes the first free block that fits (lines 240-250):
      it leaves the free list, heads the chain, and every free block before
      it has had its cursor reset. */
  lemma PushReusesFree(a: Arena, size: usize, opt: AllocOpt)
    requires Valid(a) && Sane(a, size, opt) && !Stays(a, size, opt) && !Push(a, size, opt).Fault?
    requires FirstFit(a.blocks, a.free, size, AlignOf(opt)) < |a.free|
    ensures var o := Push(a, size, opt);
            var k := FirstFit(a.blocks, a.free, size, AlignOf(opt));
            && o.arena.chain == [a.free[k]] + a.chain
            && o.arena.free == a.free[..k] + a.free[k + 1..]
            && forall j :: 0 <= j < k ==> o.arena.blocks[a.free[j]].pos == Header
  {
    var c := FreeChoice(a, size, opt);
    PushShape(a, size, opt, c);
  }

  /** The arena a push that takes free block `k` places in. */
  lemma FreeChoice(a: Arena, size: usize, opt: AllocOpt) returns (c: Arena)
    requires Linked(a) && !Stays(a, size, opt)
    requires FirstFit(a.blocks, a.free, size, AlignOf(opt)) < |a.free|
    ensures var k := FirstFit(a.blocks, a.free, size, AlignOf(opt));
            && Chosen(a, size, opt) == Some(c) && Linked(c)
            && c.chain == [a.free[k]] + a.chain && c.free == a.free[..k] + a.free[k + 1..]
            && forall j :: 0 <= j < k ==>
                 a.free[j] in c.blocks && a.free[j] != c.chain[0] && c.blocks[a.free[j]].pos == Header
  {
    var k := FirstFit(a.blocks, a.free, size, AlignOf(opt));
    ChooseIsFree(a, size, AlignOf(opt));
    FreeResets(a, k);
    c := ChooseFree(a, k).value;
    DistinctParts(a.chain, a.free);
    forall j | 0 <= j < k ensures a.free[j] != a.free[k] {
      DistinctIndex(a.free, j, k);
    }
  }

  /** A push that does not fault places in the arena `Chosen` yields and
      changes, besides the position, only the cursor, commit and bytes of
      its head block. */
  lemma PushShape(a: Arena, size: usize, opt: AllocOpt, c: Arena)
    requires Linked(a) && Chosen(a, size, opt) == Some(c) && !Push(a, size, opt).Fault?
    ensures var p := Push(a, size, opt).arena;
            && p.chain == c.chain && p.free == c.free && p.blocks.Keys == c.blocks.Keys
            && forall id :: id in c.blocks && id != c.chain[0] ==> p.blocks[id] == c.blocks[id]
    ensures var p := Push(a, size, opt).arena;
            var h := c.chain[0];
            p.blocks[h].owned == c.blocks[h].owned && p.blocks[h].res == c.blocks[h].res
  {
    PushIsSettle(a, size, opt);
    SettleFrame(c, size, opt);
  }

  /** Taking free block `k` resets the cursors of it and the blocks before it. */
  lemma FreeResets(a: Arena, k: nat)
    requires Linked(a) && k < |a.free|
    ensures forall j :: 0 <= j <= k ==> ChooseFree(a, k).value.blocks[a.free[j]].pos == Header
  {
    var c := ChooseFree(a, k).value;
    forall j | 0 <= j <= k ensures c.blocks[a.free[j]].pos == Header {
      assert a.free[j] in a.free[..k + 1];
    }
  }

  /** When no free block fits (lines 252-262), push creates an owned block
      with id `next`, reserving the current block's size or
      `align_pow2(size + header, align)` rounded to pages, after resetting
      the cursor of every free block, and makes it the head of the chain. */
  lemma PushCreatesBlock(a: Arena, size: usize, opt: AllocOpt)
    requires Valid(a) && Sane(a, size, opt) && !Stays(a, size, opt) && !Push(a, size, opt).Fault?
    requires FirstFit(a.blocks, a.free, size, AlignOf(opt)) == |a.free|
    ensures var o := Push(a, size, opt);
            var rc := GrownSizes(a.blocks[a.chain[0]], size, AlignOf(opt));
            && o.arena.chain == [a.next] + a.chain && o.arena.free == a.free
            && o.arena.blocks[a.next].owned
            && rc.0 <= o.arena.blocks[a.next].res < rc.0 + PageSize
            && o.arena.blocks[a.next].res % PageSize == 0
            && forall id :: id in a.free ==> o.arena.blocks[id].pos == Header
  {
    var c := NewChoice(a, size, opt);
    PushShape(a, size, opt, c);
    assert c.chain[0] == a.next;
  }

  /** The arena a push that creates a block places in. */
  lemma NewChoice(a: Arena, size: usize, opt: AllocOpt) returns (c: Arena)
    requires Valid(a) && Sane(a, size, opt) && !Stays(a, size, opt)
    requires FirstFit(a.blocks, a.free, size, AlignOf(opt)) == |a.free|
    ensures var rc := GrownSizes(a.blocks[a.chain[0]], size, AlignOf(opt));
            && Chosen(a, size, opt) == Some(c) && Linked(c)
            && c.chain == [a.next] + a.chain && c.free == a.free
            && a.next in c.blocks && c.blocks[a.next].owned
            && rc.0 <= c.blocks[a.next].res < rc.0 + PageSize && c.blocks[a.next].res % PageSize == 0
            && forall id :: id in a.free ==> id != a.next && c.blocks[id].pos == Header
  {
    var rc := GrownBounds(a.blocks[a.chain[0]], size, AlignOf(opt));
    ChooseIsNew(a, size, AlignOf(opt));
    c := ChooseNew(a, rc.0, rc.1);
    assert c.blocks[a.next] == NewBlock(rc.0, rc.1);
  }

  /** Push returns NULL only right after creating a block: the current
      block and any free block it picks have room by the tests that chose
      them. */
  lemma PushRefusedOnlyNew(a: Arena, size: usize, opt: AllocOpt)
    requires Valid(a) && Sane(a, size, opt) && Push(a, size, opt).Refused?
    ensures !Stays(a, size, opt)
    ensures FirstFit(a.blocks, a.free, size, AlignOf(opt)) == |a.free|
    ensures Push(a, size, opt).arena.chain == [a.next] + a.chain
  {
    ChosenFacts(a, size, opt);
    PushIsSettle(a, size, opt);
    var c := Chosen(a, size, opt).value;
    SettleOutcome(c, size, opt);
    if Stays(a, size, opt) {
      PushStays(a, size, opt);
    } else {
      var k := FirstFit(a.blocks, a.free, size, AlignOf(opt));
      if k < |a.free| {
        FreeChoiceFits(a, size, opt, k);
      } else {
        PushCreatesBlock(a, size, opt);
      }
    }
  }

  /** A free block chosen by the fit test has room for the placement. */
  lemma FreeChoiceFits(a: Arena, size: usize, opt: AllocOpt, k: nat)
    requires Valid(a) && Sane(a, size, opt) && !Stays(a, size, opt)
    requires k == FirstFit(a.blocks, a.free, size, AlignOf(opt)) < |a.free|
    ensures !Settle(Chosen(a, size, opt).value, size, opt).Refused?
  {
    ChosenFacts(a, size, opt);
    var c := Chosen(a, size, opt).value;
    FreeHeadRoom(a, size, AlignOf(opt), k);
    assert c == ChooseFree(a, k).value;
    var id := a.free[k];
    assert id in a.free[..k + 1];
    assert c.blocks[id] == a.blocks[id].(pos := Header);
    assert Start(c, opt) == AlignPow2(Header, AlignOf(opt));
    SettleOutcome(c, size, opt);
  }

  lemma FreeHeadRoom(a: Arena, size: usize, align: usize, k: nat)
    requires Linked(a) && k == FirstFit(a.blocks, a.free, size, align) < |a.free|
    requires IsPowerOfTwo(align) && align <= Limit && size <= Limit
    ensures AlignPow2(Header, align) + size <= a.blocks[a.free[k]].res
  {
    AlignSmall(Header, align);
    assert Fits(a.blocks[a.free[k]], size, align);
  }

  /** A fresh arena of one page with `cmt` bytes committed. */
  function PageArena(cmt: usize, mem: seq<u8>): Arena {
    Arena([0], [], 0, map[0 := Block(true, Header, PageSize, cmt, mem)], 1)
  }

  /** Pointer alignment leaves the header in place; page alignment moves
      it to the end of the first page. */
  lemma HeaderAlign()
    ensures IsPowerOfTwo(PointerAlign) && AlignPow2(Header, PointerAlign) == Header
    ensures IsPowerOfTwo(PageSize) && AlignPow2(Header, PageSize) == PageSize
  {
    Pow2Small();
    Pow2Of12();
    AlignPow2Is(Header, PointerAlign, 3, Header);
    AlignPow2Is(Header, PageSize, 12, PageSize);
  }

  /** The block `cflat_arena_new(4096, c)` builds for `c` from 1 to 4096:
      one page, all of it committed. */
  lemma NewPage(c: usize) returns (mem: seq<u8>)
    requires 0 < c <= PageSize
    ensures NewBlock(PageSize, c) == Block(true, Header, PageSize, PageSize, mem) && |mem| == PageSize
  {
    Pow2Of12();
    AlignPow2Is(PageSize, PageSize, 12, PageSize);
    AlignPow2Is(c, PageSize, 12, PageSize);
    mem := NewBlock(PageSize, c).mem;
  }

  /** `cflat_arena_new(4096, c)` succeeds for every `c` from 1 to 4096 and
      gives a one-page arena with the whole page committed. */
  lemma OnePage(c: usize) returns (a: Arena)
    requires 0 < c <= PageSize
    ensures New(PageSize, c) == Done(a)
    ensures a == ArenaNew(PageSize, c) && a == PageArena(PageSize, a.blocks[0].mem)
    ensures |a.blocks[0].mem| == PageSize
  {
    var mem := NewPage(c);
    a := ArenaNew(PageSize, c);
  }

  /** A one-page arena is well formed, with nothing in use. */
  lemma PageValid(cmt: usize, mem: seq<u8>)
    requires |mem| == PageSize && Header <= cmt <= PageSize
    ensures var a := PageArena(cmt, mem);
            Valid(a) && InUse(a) == 0 && a.pos == InUse(a) % WordModulus
  {
    var a := PageArena(cmt, mem);
    assert InUse(a) == 0;
    DivUnique(0, WordModulus, 0, 0);
  }

  /** A page-sized arena takes 16 bytes at offset 64 with pointer alignment. */
  lemma FirstPush(mem: seq<u8>)
    requires |mem| == PageSize
    ensures var a := PageArena(PageSize, mem);
            Sane(a, 16, AllocOpt(0, false)) && Committed(a) && Valid(a)
    ensures var o := Push(PageArena(PageSize, mem), 16, AllocOpt(0, false));
            o.Placed? && o.consumed == 16 && InUse(o.arena) == 16
  {
    var a := PageArena(PageSize, mem);
    var opt := AllocOpt(0, false);
    HeaderAlign();
    PageValid(PageSize, mem);
    assert Start(a, opt) == Header;
    assert Stays(a, 16, opt);
    PushFaults(a, 16, opt);
    PushStays(a, 16, opt);
    PushPlacement(a, 16, opt);
    PushAccounts(a, 16, opt);
  }

  /** As written, the logical position ignores a push: 16 bytes handed out
      from a fresh arena leave its position at 0. */
  lemma PushAsWrittenMisses()
    ensures var o := PushAsWritten(ArenaNew(4096, 4096), 16, AllocOpt(0, false));
            o.Placed? && o.arena.pos == 0 && InUse(o.arena) == 16
  {
    var a := OnePage(4096);
    FirstPush(a.blocks[0].mem);
  }

  /** A push aligned beyond the header can be refused right after creating
      a block: on a one-page arena, 10 bytes at alignment 4096 need a second
      block, which is again one page and starts its data at 4096, so push
      returns NULL and leaves the empty block on the chain. */
  lemma PushLargeAlignRefused()
    ensures var o := Push(ArenaNew(4096, 4096), 10, AllocOpt(4096, false));
            o.Refused? && o.arena.chain == [1, 0]
  {
    var a := OnePage(4096);
    PageRefused(a.blocks[0].mem);
  }

  lemma PageRefused(mem: seq<u8>)
    requires |mem| == PageSize
    ensures var o := Push(PageArena(PageSize, mem), 10, AllocOpt(PageSize, false));
            o.Refused? && o.arena.chain == [1, 0]
  {
    var a := PageArena(PageSize, mem);
    var opt := AllocOpt(PageSize, false);
    var c := PageMoves(mem);
    HeaderAlign();
    assert Start(c, opt) == PageSize;
    assert Commit(c.blocks[1], PageSize + 10) == Some(c.blocks[1]);
  }

  /** Ten bytes at page alignment do not fit a one-page arena, whose only
      block is current, so push creates a second one-page block. */
  lemma PageMoves(mem: seq<u8>) returns (c: Arena)
    requires |mem| == PageSize
    ensures Linked(c) && c.chain == [1, 0] && 1 in c.blocks
    ensures c.blocks[1].pos == Header && c.blocks[1].res == c.blocks[1].cmt == PageSize
    ensures var a := PageArena(PageSize, mem);
            Linked(a) && PushAsWritten(a, 10, AllocOpt(PageSize, false)) == Settle(c, 10, AllocOpt(PageSize, false))
  {
    var a := PageArena(PageSize, mem);
    c := PageGrows(mem);
    var m := NewPage(PageSize);
    assert c.blocks[1] == NewBlock(PageSize, PageSize);
  }

  lemma PageGrows(mem: seq<u8>) returns (c: Arena)
    requires |mem| == PageSize
    ensures var a := PageArena(PageSize, mem);
            && Linked(a) && c == ChooseNew(a, PageSize, PageSize)
            && Chosen(a, 10, AllocOpt(PageSize, false)) == Some(c)
  {
    var a := PageArena(PageSize, mem);
    var opt := AllocOpt(PageSize, false);
    HeaderAlign();
    assert Start(a, opt) == PageSize;
    assert !Stays(a, 10, opt);
    assert GrownSizes(a.blocks[0], 10, PageSize) == (PageSize, PageSize);
    c := ChooseNew(a, PageSize, PageSize);
  }

  /** The sum at line 237 wraps: asked for 2^64 - 1 bytes, push on a fresh
      arena hands out offset 64 and moves the cursor back to 63. */
  lemma PushWraps()
    ensures var o := Push(ArenaNew(4096, 4096), WordModulus - 1, AllocOpt(0, false));
            o.Placed? && o.offset == 64 && o.arena.blocks[0].pos == 63
  {
    var a := OnePage(4096);
    PageWraps(a.blocks[0].mem);
  }

  lemma PageWraps(mem: seq<u8>)
    requires |mem| == PageSize
    ensures var o := Push(PageArena(PageSize, mem), WordModulus - 1, AllocOpt(0, false));
            o.Placed? && o.offset == Header && o.arena.blocks[0].pos == Header - 1
  {
    var a := PageArena(PageSize, mem);
    var opt := AllocOpt(0, false);
    var size := WordModulus - 1;
    HeaderAlign();
    assert AddWrap(Header, size) == Header - 1;
    PageSettles(PageSize, mem, size, opt);
    assert Commit(a.blocks[0], Header - 1) == Some(a.blocks[0]);
  }

  /** On a one-page arena a push whose aligned end (wrapping) stays within
      the page places in it. */
  lemma PageSettles(cmt: usize, mem: seq<u8>, size: usize, opt: AllocOpt)
    requires |mem| == PageSize && AlignPow2(Header, AlignOf(opt)) == Header
    requires AddWrap(Header, size) <= PageSize
    ensures var a := PageArena(cmt, mem);
            Linked(a) && PushAsWritten(a, size, opt) == Settle(a, size, opt)
  {
    var a := PageArena(cmt, mem);
    assert Start(a, opt) == Header;
    assert Chosen(a, size, opt) == Some(a);
  }
}
