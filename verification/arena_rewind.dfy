/** Giving arena memory back (CflatArena.h): `cflat_arena_pop`, which walks
    the chain from its head lowering cursors and moving emptied blocks to
    the free list; `cflat_arena_clear`; `cflat_arena_set_pos` and the
    temporary-arena checkpoints built on it. */
module ArenaRewind {
  import opened Words
  import opened Bits
  import opened Core
  import opened Arena

  /** The pieces of an arena the pop loop rewrites. */
  datatype Lists = Lists(blocks: map<Id, Block>, chain: seq<Id>, free: seq<Id>)

  /** Bytes `cflat_arena_pop` reads as handed out from a block: its cursor
      less the header, in 64-bit arithmetic. */
  function Allocated(b: Block): (n: usize)
    ensures b.pos >= Header ==> n == Span(b)
  {
    SubWrap(b.pos, Header)
  }

  /** Lines 300-313: while `size` exceeds the head block's bytes, that block
      is emptied and pushed on the free list and `size` shrinks by its bytes;
      the block that covers the rest has its cursor lowered. */
  function PopChain(blocks: map<Id, Block>, chain: seq<Id>, free: seq<Id>, size: usize): (r: Lists)
    requires forall id :: id in chain ==> id in blocks
    ensures r.blocks.Keys == blocks.Keys
    decreases |chain|
  {
    if chain == [] then Lists(blocks, chain, free)
    else
      var id := chain[0];
      var b := blocks[id];
      var held := Allocated(b);
      if size <= held then
        Lists(blocks[id := b.(pos := SubWrap(b.pos, size))], chain, free)
      else
        PopChain(blocks[id := b.(pos := Header)], chain[1..], [id] + free, size - held)
  }

  /** The pop loop keeps what is left of the chain (a suffix) and moves the
      emptied blocks to the free list: no block is lost or duplicated. */
  lemma {:induction false} PopChainShape(blocks: map<Id, Block>, chain: seq<Id>, free: seq<Id>, size: usize)
    requires forall id :: id in chain ==> id in blocks
    ensures var r := PopChain(blocks, chain, free, size);
            |r.chain| <= |chain| && r.chain == chain[|chain| - |r.chain|..]
    ensures var r := PopChain(blocks, chain, free, size);
            multiset(r.chain + r.free) == multiset(chain + free)
    decreases |chain|
  {
    if chain != [] {
      var id := chain[0];
      var b := blocks[id];
      if size > Allocated(b) {
        PopChainShape(blocks[id := b.(pos := Header)], chain[1..], [id] + free, size - Allocated(b));
        assert chain + free == [id] + (chain[1..] + free);
        assert chain[1..] + ([id] + free) == chain[1..] + [id] + free;
      }
    }
  }

  /** The pop loop only moves cursors, and only of chain blocks. */
  lemma {:induction false} PopChainFrame(blocks: map<Id, Block>, chain: seq<Id>, free: seq<Id>, size: usize)
    requires forall id :: id in chain ==> id in blocks
    ensures var r := PopChain(blocks, chain, free, size);
            forall id :: id in blocks ==> r.blocks[id] == blocks[id].(pos := r.blocks[id].pos)
    ensures var r := PopChain(blocks, chain, free, size);
            forall id :: id in blocks && id !in chain ==> r.blocks[id] == blocks[id]
    decreases |chain|
  {
    if chain != [] {
      var id := chain[0];
      var b := blocks[id];
      if size > Allocated(b) {
        PopChainFrame(blocks[id := b.(pos := Header)], chain[1..], [id] + free, size - Allocated(b));
      }
    }
  }

  /** `cflat_arena_pop`: the position drops by `size` (wrapping), the chain
      gives back `size` bytes, and when every block has been emptied the
      most recently freed one (the oldest) becomes the chain again. */
  function Pop(a: Arena, size: usize): (r: Arena)
    requires Linked(a)
    ensures Linked(r) && r.next == a.next && r.blocks.Keys == a.blocks.Keys
    ensures multiset(Listed(r)) == multiset(Listed(a))
    ensures r.pos == SubWrap(a.pos, size)
  {
    if size == 0 then a
    else
      var l := PopChain(a.blocks, a.chain, a.free, size);
      PopChainShape(a.blocks, a.chain, a.free, size);
      var r := a.(blocks := l.blocks, chain := l.chain, free := l.free, pos := SubWrap(a.pos, size));
      assert Listed(r) == l.chain + l.free;
      if l.chain == [] then
        assert l.free != [] by {
          assert |multiset(Listed(r))| == |multiset(Listed(a))|;
        }
        var id := l.free[0];
        assert id in multiset(Listed(r));
        assert [id] + l.free[1..] == l.free;
        var r1 := r.(chain := [id], free := l.free[1..], blocks := l.blocks[id := l.blocks[id].(pos := Header)]);
        assert Listed(r1) == l.free;
        PermLinked(a, r1);
        r1
      else
        PermLinked(a, r);
        r
  }

  /** Blocks rearranged between the chain and the free list keep an arena
      linked. */
  lemma PermLinked(a: Arena, r: Arena)
    requires Linked(a) && |r.chain| >= 1 && multiset(Listed(r)) == multiset(Listed(a))
    requires r.blocks.Keys == a.blocks.Keys && r.next == a.next
    ensures Linked(r)
  {
    forall x | x in Listed(r) ensures multiset(Listed(r))[x] == 1 && x in r.blocks {
      assert x in multiset(Listed(r));
    }
  }

  /* ---------------------------------------------------------------------- */
  /*  Facts about pop                                                        */
  /* ---------------------------------------------------------------------- */

  lemma DistinctTail(s: seq<Id>)
    requires Distinct(s) && s != []
    ensures Distinct(s[1..]) && s[0] !in s[1..]
  {
    assert [s[0]] + s[1..] == s;
    DistinctParts([s[0]], s[1..]);
    DistinctSplit([s[0]], s[1..], s[0]);
  }

  /** The pop loop lowers cursors by exactly the bytes asked for, or to the
      header everywhere when the chain holds fewer. */
  lemma {:induction false} PopChainUsed(blocks: map<Id, Block>, chain: seq<Id>, free: seq<Id>, size: usize)
    requires Distinct(chain) && forall id :: id in chain ==> id in blocks && blocks[id].pos >= Header
    ensures var r := PopChain(blocks, chain, free, size);
            Used(r.blocks, r.chain) == if size <= Used(blocks, chain) then Used(blocks, chain) - size else 0
    decreases |chain|
  {
    if chain != [] {
      var id := chain[0];
      var b := blocks[id];
      if size <= Allocated(b) {
        UsedHead(blocks, chain, b.(pos := SubWrap(b.pos, size)));
      } else {
        var b1 := blocks[id := b.(pos := Header)];
        UsedEmptyHead(blocks, chain);
        DistinctTail(chain);
        PopChainUsed(b1, chain[1..], [id] + free, size - Allocated(b));
      }
    }
  }

  /** Emptying the head block of a list leaves the bytes of the rest. */
  lemma UsedEmptyHead(blocks: map<Id, Block>, chain: seq<Id>)
    requires Distinct(chain) && chain != [] && chain[0] in blocks
    ensures Used(blocks, chain) == Span(blocks[chain[0]]) + Used(blocks[chain[0] := blocks[chain[0]].(pos := Header)], chain[1..])
  {
    DistinctTail(chain);
    UsedFrame(blocks[chain[0] := blocks[chain[0]].(pos := Header)], blocks, chain[1..]);
  }

  /** The pop loop keeps every cursor between the header and where it was,
      and leaves the blocks it frees at the header. */
  lemma {:induction false} PopChainCursors(blocks: map<Id, Block>, chain: seq<Id>, free: seq<Id>, size: usize)
    requires Distinct(chain) && forall id :: id in chain ==> id in blocks && blocks[id].pos >= Header
    ensures var r := PopChain(blocks, chain, free, size);
            forall id :: id in blocks && blocks[id].pos >= Header ==> Header <= r.blocks[id].pos <= blocks[id].pos
    ensures var r := PopChain(blocks, chain, free, size);
            forall id :: id in r.free && id !in free && id in blocks ==> r.blocks[id].pos == Header
    decreases |chain|
  {
    if chain != [] {
      var id := chain[0];
      var b := blocks[id];
      DistinctTail(chain);
      if size > Allocated(b) {
        var b1 := blocks[id := b.(pos := Header)];
        PopChainCursors(b1, chain[1..], [id] + free, size - Allocated(b));
        PopChainFrame(b1, chain[1..], [id] + free, size - Allocated(b));
      }
    }
  }

  /** The pop loop keeps every block well formed. */
  lemma PopChainOk(blocks: map<Id, Block>, chain: seq<Id>, free: seq<Id>, size: usize) returns (r: Lists)
    requires Distinct(chain) && forall id :: id in chain ==> id in blocks
    requires forall id :: id in blocks ==> BlockOk(blocks[id])
    ensures r == PopChain(blocks, chain, free, size)
    ensures forall id :: id in r.blocks ==> BlockOk(r.blocks[id])
  {
    PopChainCursors(blocks, chain, free, size);
    PopChainFrame(blocks, chain, free, size);
    r := PopChain(blocks, chain, free, size);
    forall id | id in r.blocks ensures BlockOk(r.blocks[id]) {
      assert BlockOk(blocks[id]);
    }
  }

  /** Pop keeps an arena well formed. */
  lemma PopKeepsValid(a: Arena, size: usize)
    requires Valid(a)
    ensures Valid(Pop(a, size))
  {
    if size != 0 {
      DistinctParts(a.chain, a.free);
      var l := PopChainOk(a.blocks, a.chain, a.free, size);
      var r := Pop(a, size);
      forall id | id in r.blocks ensures BlockOk(r.blocks[id]) {
        assert id in a.blocks && id in l.blocks;
        assert BlockOk(l.blocks[id]);
      }
    }
  }

  /** Pop gives back `size` bytes of the chain, or all of them when it holds
      fewer. */
  lemma PopInUse(a: Arena, size: usize)
    requires Valid(a)
    ensures InUse(Pop(a, size)) == if size <= InUse(a) then InUse(a) - size else 0
  {
    if size != 0 {
      DistinctParts(a.chain, a.free);
      PopChainUsed(a.blocks, a.chain, a.free, size);
      if PopChain(a.blocks, a.chain, a.free, size).chain == [] {
        PopEmptied(a, size);
      }
    }
  }

  /** When the pop loop empties the chain, the block brought back holds
      nothing. */
  lemma PopEmptied(a: Arena, size: usize)
    requires Linked(a) && size != 0 && PopChain(a.blocks, a.chain, a.free, size).chain == []
    ensures InUse(Pop(a, size)) == 0
  {
    var r := Pop(a, size);
    assert r.chain == [r.chain[0]];
    assert Used(r.blocks, r.chain) == Span(r.blocks[r.chain[0]]) + Used(r.blocks, []);
  }

  /** Popping at most the bytes in use keeps the position equal to them. */
  lemma PopAccounts(a: Arena, size: usize)
    requires Valid(a) && a.pos == InUse(a) && size <= a.pos
    ensures Pop(a, size).pos == InUse(Pop(a, size)) == a.pos - size
  {
    PopInUse(a, size);
  }

  /** Popping more than is in use empties the chain but wraps the position
      round to `2^64 - (size - pos)`. */
  lemma PopPastStart(a: Arena, size: usize)
    requires Valid(a) && a.pos == InUse(a) && size > a.pos
    ensures InUse(Pop(a, size)) == 0
    ensures Pop(a, size).pos == WordModulus - (size - a.pos)
  {
    PopInUse(a, size);
  }

  /* ---------------------------------------------------------------------- */
  /*  Clear                                                                  */
  /* ---------------------------------------------------------------------- */

  /** Lines 345-358 after the splice: the spliced list's first block, its
      cursor at the header, becomes the chain, the rest the free list, and
      the position is 0. */
  function Restart(a: Arena, spliced: seq<Id>): (r: Arena)
    requires |spliced| >= 1 && spliced[0] in a.blocks
    ensures r.chain == [spliced[0]] && r.free == spliced[1..] && r.pos == 0
    ensures r.blocks == a.blocks[spliced[0] := a.blocks[spliced[0]].(pos := Header)]
    ensures InUse(r) == 0
  {
    var id := spliced[0];
    var r := a.(chain := [id], free := spliced[1..], pos := 0,
                blocks := a.blocks[id := a.blocks[id].(pos := Header)]);
    assert Used(r.blocks, r.chain) == Span(r.blocks[id]) + Used(r.blocks, []);
    r
  }

  /** `cflat_arena_clear` as written: lines 347-352 link the free list's
      head in front of the chain, dropping the rest of the free list. */
  function ClearAsWritten(a: Arena): (r: Arena)
    requires Linked(a)
    ensures r.pos == 0 && InUse(r) == 0
  {
    Restart(a, if a.free == [] then a.chain else [a.free[0]] + a.chain)
  }

  /** `cflat_arena_clear` with the splice linking the whole free list (its
      tail's `prev` set to the chain's head) in front of the chain. */
  function Clear(a: Arena): (r: Arena)
    requires Linked(a)
    ensures r.pos == 0 && InUse(r) == 0
    ensures Linked(r) && multiset(Listed(r)) == multiset(Listed(a))
  {
    var r := Restart(a, a.free + a.chain);
    assert Listed(r) == a.free + a.chain by {
      assert [(a.free + a.chain)[0]] + (a.free + a.chain)[1..] == a.free + a.chain;
    }
    assert multiset(a.free + a.chain) == multiset(Listed(a));
    r
  }

  /** Clear keeps an arena well formed. */
  lemma ClearKeepsValid(a: Arena)
    requires Valid(a)
    ensures Valid(Clear(a))
  {
  }

  /** So does clear as written: the blocks it keeps are distinct. */
  lemma ClearAsWrittenKeepsValid(a: Arena)
    requires Valid(a)
    ensures Valid(ClearAsWritten(a))
  {
    if a.free == [] {
      assert a.chain == Listed(a);
      RestartValid(a, a.chain);
    } else {
      var s := [a.free[0]] + a.chain;
      assert multiset(s) <= multiset(Listed(a)) by {
        assert a.free == [a.free[0]] + a.free[1..];
        assert multiset(Listed(a)) == multiset(s) + multiset(a.free[1..]);
      }
      DistinctSubMultiset(s, Listed(a));
      forall id | id in s ensures id in a.blocks {
        assert id in Listed(a);
      }
      RestartValid(a, s);
    }
  }

  /** Restarting on a list of distinct existing blocks keeps an arena well
      formed. */
  lemma RestartValid(a: Arena, s: seq<Id>)
    requires Valid(a) && |s| >= 1 && Distinct(s) && forall id :: id in s ==> id in a.blocks
    ensures Valid(Restart(a, s))
  {
    var r := Restart(a, s);
    assert Listed(r) == s by {
      assert [s[0]] + s[1..] == s;
    }
    assert BlockOk(a.blocks[s[0]]);
  }

  /** A list whose elements occur in a distinct list no more often is
      distinct. */
  lemma DistinctSubMultiset(s: seq<Id>, t: seq<Id>)
    requires Distinct(t) && multiset(s) <= multiset(t)
    ensures Distinct(s)
  {
    forall x | x in s ensures multiset(s)[x] == 1 {
      assert x in multiset(s);
      assert x in multiset(t);
    }
  }

  /** With at most one free block the two agree. */
  lemma ClearAgrees(a: Arena)
    requires Linked(a) && |a.free| <= 1
    ensures ClearAsWritten(a) == Clear(a)
  {
    if a.free != [] {
      assert a.free == [a.free[0]];
      assert a.free + a.chain == [a.free[0]] + a.chain;
    } else {
      assert a.free + a.chain == a.chain;
    }
  }

  /** As written, clear drops every free block past the first: with two or
      more, the second is reachable from neither list afterwards. */
  lemma ClearLosesFreeBlocks(a: Arena)
    requires Linked(a) && |a.free| >= 2
    ensures a.free[1] in Listed(a) && a.free[1] !in Listed(ClearAsWritten(a))
  {
    var x := a.free[1];
    var s := [a.free[0]] + a.chain;
    assert Listed(ClearAsWritten(a)) == s by {
      assert [s[0]] + s[1..] == s;
    }
    assert Listed(a) == a.chain + [a.free[0], x] + a.free[2..] by {
      assert a.free == [a.free[0], x] + a.free[2..];
    }
    assert multiset(Listed(a))[x] == 1;
    assert multiset(Listed(a)) == multiset(s) + multiset{x} + multiset(a.free[2..]);
  }

  /* ---------------------------------------------------------------------- */
  /*  Set position and temporary arenas                                      */
  /* ---------------------------------------------------------------------- */

  /** The options `cflat_arena_set_pos` pushes with. */
  const Unaligned := AllocOpt(1, false)

  /** `cflat_arena_set_pos` as written: below the position it pops the
      difference; above it pushes `pos` bytes (not `pos - arena->pos`) with
      the push as written, which leaves the position where it was.  None
      when the push faults; a NULL result leaves the arena the push left. */
  function SetPosAsWritten(a: Arena, target: usize): (r: Option<Arena>)
    requires Linked(a)
  {
    if a.pos >= target then Some(Pop(a, SubWrap(a.pos, target)))
    else
      var o := PushAsWritten(a, target, Unaligned);
      if o.Fault? then None else Some(o.arena)
  }

  /** Line 332 alone: `cflat_arena_set_pos` pushing `pos` bytes, over the
      push whose position is fixed. */
  function SetPosOverFixedPush(a: Arena, target: usize): (r: Option<Arena>)
    requires Linked(a)
  {
    if a.pos >= target then Some(Pop(a, SubWrap(a.pos, target)))
    else
      var o := Push(a, target, Unaligned);
      if o.Fault? then None else Some(o.arena)
  }

  /** `cflat_arena_set_pos` pushing the difference, over the push whose
      position is fixed. */
  function SetPos(a: Arena, target: usize): (r: Option<Arena>)
    requires Linked(a)
  {
    if a.pos >= target then Some(Pop(a, SubWrap(a.pos, target)))
    else
      var o := Push(a, SubWrap(target, a.pos), Unaligned);
      if o.Fault? then None else Some(o.arena)
  }

  /** `cflat_arena_temp_begin`: remember the position.  Ending the
      temporary arena straight away changes nothing. */
  function TempBegin(a: Arena): (t: TempArena)
    ensures Linked(a) ==> TempEnd(a, t) == Some(a)
  {
    TempArena(a.pos)
  }

  /** `cflat_arena_temp_end` over the corrected set position. */
  function TempEnd(a: Arena, t: TempArena): (r: Option<Arena>)
    requires Linked(a)
  {
    SetPos(a, t.pos)
  }

  /** `cflat_arena_temp_end` as written: over the set position as
      written. */
  function TempEndAsWritten(a: Arena, t: TempArena): (r: Option<Arena>)
    requires Linked(a)
  {
    SetPosAsWritten(a, t.pos)
  }

  /** The unaligned push arguments set_pos uses are sane below the limit. */
  lemma UnalignedSane(a: Arena, size: usize)
    requires size <= Limit && forall id :: id in a.blocks ==> a.blocks[id].res <= Limit
    ensures Sane(a, size, Unaligned) && AlignOf(Unaligned) == 1
  {
    assert IsPowerOfTwo(1) by {
      assert Pow2(0) == 1;
    }
  }

  /** An unaligned push that succeeds consumes exactly its size. */
  lemma UnalignedConsumes(a: Arena, size: usize)
    requires Valid(a) && Sane(a, size, Unaligned) && Push(a, size, Unaligned).Placed?
    ensures Push(a, size, Unaligned).consumed == size
  {
    PushPlacement(a, size, Unaligned);
    if !Stays(a, size, Unaligned) {
      AlignSmall(Header, 1);
    }
  }

  /** The arguments set_pos is analysed for: a committed, well-formed arena
      whose position is the bytes it has handed out, and reservations and a
      target below the limit. */
  ghost predicate Balanced(a: Arena) {
    && Valid(a) && Committed(a) && a.pos == InUse(a)
    && forall id :: id in a.blocks ==> a.blocks[id].res <= Limit
  }

  /** Set position never faults on such an arena; it lands exactly on the
      target unless it must grow a block and the push returns NULL. */
  lemma SetPosReaches(a: Arena, target: usize)
    requires Balanced(a) && target <= Limit
    ensures SetPos(a, target).Some?
    ensures var r := SetPos(a, target).value;
            Valid(r) && (r.pos == InUse(r) == target || (a.pos < target && r.pos == InUse(r) == a.pos))
    ensures a.pos >= target ==> SetPos(a, target).value.pos == target
  {
    if a.pos >= target {
      SetPosDown(a, target);
    } else {
      SetPosUp(a, target);
    }
  }

  lemma SetPosDown(a: Arena, target: usize)
    requires Valid(a) && a.pos == InUse(a) && target <= a.pos
    ensures SetPos(a, target).Some? && Valid(SetPos(a, target).value)
    ensures SetPos(a, target).value.pos == InUse(SetPos(a, target).value) == target
  {
    SetPosBelow(a, target);
    PopBack(a, target);
  }

  lemma SetPosBelow(a: Arena, target: usize)
    requires Linked(a) && target <= a.pos
    ensures SetPos(a, target) == Some(Pop(a, SubWrap(a.pos, target)))
  {
  }

  /** Popping back to a target below the position reaches it exactly. */
  lemma PopBack(a: Arena, target: usize)
    requires Valid(a) && a.pos == InUse(a) && target <= a.pos
    ensures Valid(Pop(a, SubWrap(a.pos, target)))
    ensures Pop(a, SubWrap(a.pos, target)).pos == InUse(Pop(a, SubWrap(a.pos, target))) == target
  {
    PopKeepsValid(a, SubWrap(a.pos, target));
    PopAccounts(a, SubWrap(a.pos, target));
  }

  lemma SetPosUp(a: Arena, target: usize)
    requires Balanced(a) && a.pos < target <= Limit
    ensures SetPos(a, target).Some?
    ensures var r := SetPos(a, target).value;
            Valid(r) && (r.pos == InUse(r) == target || r.pos == InUse(r) == a.pos)
  {
    var size := SubWrap(target, a.pos);
    UnalignedPush(a, size);
  }

  /** An unaligned push on a balanced arena never faults and keeps it
      balanced, moving the position by exactly `size` or not at all. */
  lemma UnalignedPush(a: Arena, size: usize)
    requires Balanced(a) && size <= Limit && a.pos + size < WordModulus
    ensures var o := Push(a, size, Unaligned);
            !o.Fault? && Valid(o.arena)
    ensures var o := Push(a, size, Unaligned);
            o.arena.pos == InUse(o.arena) && (o.arena.pos == a.pos + size || o.arena.pos == a.pos)
  {
    UnalignedSane(a, size);
    PushFaults(a, size, Unaligned);
    PushKeepsValid(a, size, Unaligned);
    UnalignedBalance(a, size);
  }

  lemma UnalignedBalance(a: Arena, size: usize)
    requires Balanced(a) && size <= Limit && a.pos + size < WordModulus
    requires !Push(a, size, Unaligned).Fault?
    ensures var o := Push(a, size, Unaligned);
            o.arena.pos == InUse(o.arena) && (o.arena.pos == a.pos + size || o.arena.pos == a.pos)
  {
    if Push(a, size, Unaligned).Placed? {
      var p := UnalignedPlaced(a, size);
    } else {
      var p := UnalignedRefused(a, size);
    }
  }

  lemma UnalignedPlaced(a: Arena, size: usize) returns (p: Arena)
    requires Balanced(a) && size <= Limit && a.pos + size < WordModulus
    requires Push(a, size, Unaligned).Placed?
    ensures p == Push(a, size, Unaligned).arena && p.pos == InUse(p) == a.pos + size
  {
    p := Push(a, size, Unaligned).arena;
    UnalignedSane(a, size);
    DivUnique(a.pos, WordModulus, 0, a.pos);
    PushAccounts(a, size, Unaligned);
    UnalignedConsumes(a, size);
    var u := InUse(p);
    assert u == a.pos + size;
    DivUnique(u, WordModulus, 0, u);
  }

  lemma UnalignedRefused(a: Arena, size: usize) returns (p: Arena)
    requires Balanced(a) && size <= Limit && Push(a, size, Unaligned).Refused?
    ensures p == Push(a, size, Unaligned).arena && p.pos == InUse(p) == a.pos
  {
    p := Push(a, size, Unaligned).arena;
    UnalignedSane(a, size);
    DivUnique(a.pos, WordModulus, 0, a.pos);
    PushAccounts(a, size, Unaligned);
  }

  /** Over the fixed push, line 332 alone makes a successful set position
      above the current one move the position by `target` bytes past it. */
  lemma SetPosOverFixedPushOvershoots(a: Arena, target: usize)
    requires Balanced(a) && a.pos < target <= Limit && a.pos <= Limit
    requires SetPosOverFixedPush(a, target).Some?
    ensures var r := SetPosOverFixedPush(a, target).value;
            r.pos == InUse(r) && (r.pos == a.pos + target || r.pos == a.pos)
  {
    UnalignedBalance(a, target);
  }

  /** The one-block arena of the examples: position 16, its page's cursor
      at 80. */
  function Sixteen(mem: seq<u8>): (a: Arena)
    ensures Linked(a)
  {
    var a := Arena([0], [], 16, map[0 := Block(true, 80, 4096, 4096, mem)], 1);
    assert Listed(a) == [0];
    a
  }

  lemma SixteenBalanced(mem: seq<u8>)
    requires |mem| == 4096
    ensures Balanced(Sixteen(mem)) && Sixteen(mem).blocks[0].pos + 32 <= Sixteen(mem).blocks[0].res
  {
    var a := Sixteen(mem);
    assert Valid(a) by {
      assert Listed(a) == [0];
      assert multiset(Listed(a)) == multiset{0};
    }
    assert Used(a.blocks, a.chain) == Span(a.blocks[0]) + Used(a.blocks, []);
    assert Committed(a) by {
      assert Listed(a) == [0];
    }
  }

  /** A concrete case: setting the position of `Sixteen` to 32 over the
      fixed push with line 332 as written leaves it at 48. */
  lemma SetPosOverFixedPushExample(mem: seq<u8>)
    requires |mem| == 4096
    ensures SetPosOverFixedPush(Sixteen(mem), 32).Some? && SetPosOverFixedPush(Sixteen(mem), 32).value.pos == 48
  {
    SixteenBalanced(mem);
    SetPosOverFixedPushPlaces(Sixteen(mem), 32);
  }

  /** On a balanced arena whose head block has room, set position over the
      fixed push succeeds and overshoots. */
  lemma SetPosOverFixedPushPlaces(a: Arena, target: usize)
    requires Balanced(a) && a.pos < target <= Limit && a.pos <= Limit
    requires a.blocks[a.chain[0]].pos + target <= a.blocks[a.chain[0]].res
    ensures SetPosOverFixedPush(a, target).Some? && SetPosOverFixedPush(a, target).value.pos == a.pos + target
  {
    UnalignedFits(a, target);
    var p := UnalignedPlaced(a, target);
    assert SetPosOverFixedPush(a, target) == Some(p);
  }

  /** As written, a set position above the current one never moves the
      position, while the push it makes hands out `target` bytes (or
      none, when it returns NULL). */
  lemma SetPosAsWrittenStays(a: Arena, target: usize)
    requires Balanced(a) && a.pos < target <= Limit && a.pos <= Limit
    ensures SetPosAsWritten(a, target).Some?
    ensures var r := SetPosAsWritten(a, target).value;
            r.pos == a.pos && (InUse(r) == a.pos + target || InUse(r) == a.pos)
  {
    UnalignedSane(a, target);
    PushFaults(a, target, Unaligned);
    var o := Push(a, target, Unaligned);
    var w := PushAsWritten(a, target, Unaligned);
    assert w.arena.chain == o.arena.chain && w.arena.blocks == o.arena.blocks;
    assert InUse(w.arena) == InUse(o.arena);
    UnalignedBalance(a, target);
  }

  /** As written, a set position above the current one that fits in the
      head block leaves the position and moves that block's cursor by
      `target`. */
  lemma SetPosAsWrittenCursor(a: Arena, target: usize)
    requires Balanced(a) && a.pos < target <= Limit
    requires a.blocks[a.chain[0]].pos + target <= a.blocks[a.chain[0]].res
    ensures var r := SetPosAsWritten(a, target);
            && r.Some? && r.value.pos == a.pos && a.chain[0] in r.value.blocks
            && r.value.blocks[a.chain[0]].pos == a.blocks[a.chain[0]].pos + target
  {
    UnalignedFits(a, target);
    UnalignedSane(a, target);
    PushPlacement(a, target, Unaligned);
    var o := Push(a, target, Unaligned);
    var w := PushAsWritten(a, target, Unaligned);
    assert o.block == a.chain[0] && o.offset == a.blocks[a.chain[0]].pos;
    assert w.arena.blocks == o.arena.blocks;
    assert SetPosAsWritten(a, target) == Some(w.arena);
  }

  /** The concrete case as written: setting the position of `Sixteen` to 32
      leaves the position at 16 and moves the page's cursor from 80 to 112. */
  lemma SetPosAsWrittenExample(mem: seq<u8>)
    requires |mem| == 4096
    ensures var r := SetPosAsWritten(Sixteen(mem), 32);
            r.Some? && r.value.pos == 16 && r.value.blocks[0].pos == 112
  {
    SixteenBalanced(mem);
    SetPosAsWrittenCursor(Sixteen(mem), 32);
  }

  /** Over the corrected set position the same call lands on 32. */
  lemma SetPosExample(mem: seq<u8>)
    requires |mem| == 4096
    ensures SetPos(Sixteen(mem), 32).Some? && SetPos(Sixteen(mem), 32).value.pos == 32
  {
    var a := Sixteen(mem);
    SixteenBalanced(mem);
    UnalignedFits(a, 16);
    var p := UnalignedPlaced(a, 16);
  }

  /** Ending a temporary arena begun at 32 on `Sixteen` (a pop took it back
      to 16): as written the position stays at 16, corrected it returns to
      32. */
  lemma TempEndAsWrittenDiffers(mem: seq<u8>)
    requires |mem| == 4096
    ensures TempEndAsWritten(Sixteen(mem), TempArena(32)).Some?
    ensures TempEndAsWritten(Sixteen(mem), TempArena(32)).value.pos == 16
    ensures TempEnd(Sixteen(mem), TempArena(32)).Some? && TempEnd(Sixteen(mem), TempArena(32)).value.pos == 32
  {
    var a := Sixteen(mem);
    assert TempEndAsWritten(a, TempArena(32)) == SetPosAsWritten(a, 32);
    assert TempEnd(a, TempArena(32)) == SetPos(a, 32);
    SetPosAsWrittenExample(mem);
    SetPosExample(mem);
  }

  /** An unaligned push that fits in the head block is placed there. */
  lemma UnalignedFits(a: Arena, size: usize)
    requires Valid(a) && Committed(a) && size <= Limit && forall id :: id in a.blocks ==> a.blocks[id].res <= Limit
    requires a.blocks[a.chain[0]].pos + size <= a.blocks[a.chain[0]].res
    ensures Push(a, size, Unaligned).Placed? && Stays(a, size, Unaligned)
  {
    UnalignedSane(a, size);
    var b := a.blocks[a.chain[0]];
    AlignSmall(b.pos, 1);
    assert Stays(a, size, Unaligned);
    PushFaults(a, size, Unaligned);
    PushStays(a, size, Unaligned);
  }

  /** A successful push on a balanced arena, positioned below the limit,
      keeps it balanced and moves its position by the bytes consumed. */
  lemma PushBalanced(a: Arena, size: usize, opt: AllocOpt) returns (p: Arena, c: usize)
    requires Balanced(a) && Sane(a, size, opt) && a.pos <= Limit
    requires Push(a, size, opt).Placed?
    ensures p == Push(a, size, opt).arena && c == Push(a, size, opt).consumed
    ensures Valid(p) && c <= p.pos && p.pos == InUse(p) == a.pos + c
  {
    var o := Push(a, size, opt);
    p, c := o.arena, o.consumed;
    PushKeepsValid(a, size, opt);
    DivUnique(a.pos, WordModulus, 0, a.pos);
    PushAccounts(a, size, opt);
    PushPadding(a, size, opt);
    var u := InUse(p);
    assert u == a.pos + c && u < WordModulus;
    DivUnique(u, WordModulus, 0, u);
  }

  /** A temporary arena undoes a push: ending it after a successful push
      restores the position and the bytes in use. */
  lemma TempRoundTrip(a: Arena, size: usize, opt: AllocOpt)
    requires Balanced(a) && Sane(a, size, opt) && a.pos <= Limit
    requires Push(a, size, opt).Placed?
    ensures var r := TempEnd(Push(a, size, opt).arena, TempBegin(a));
            r.Some? && Valid(r.value) && r.value.pos == InUse(r.value) == a.pos
  {
    var p, c := PushBalanced(a, size, opt);
    assert TempEnd(p, TempBegin(a)) == SetPos(p, a.pos);
    SetPosDown(p, a.pos);
  }

  /** As written, push never moves the position, so ending a temporary
      arena after a push pops nothing. */
  lemma TempLeaksAsWritten(a: Arena, size: usize, opt: AllocOpt)
    requires Linked(a) && PushAsWritten(a, size, opt).Placed?
    ensures TempEndAsWritten(PushAsWritten(a, size, opt).arena, TempBegin(a)) == Some(PushAsWritten(a, size, opt).arena)
  {
    var w := PushAsWritten(a, size, opt).arena;
    assert TempEndAsWritten(w, TempBegin(a)) == Some(Pop(w, 0));
  }

  /** The bytes such a push hands out stay in use: the same count as with
      the position fixed. */
  lemma PushAsWrittenInUse(a: Arena, size: usize, opt: AllocOpt)
    requires Balanced(a) && Sane(a, size, opt) && PushAsWritten(a, size, opt).Placed?
    ensures InUse(PushAsWritten(a, size, opt).arena) == a.pos + PushAsWritten(a, size, opt).consumed
  {
    var w := PushAsWritten(a, size, opt);
    var o := Push(a, size, opt);
    assert o.consumed == w.consumed && o.arena.chain == w.arena.chain && o.arena.blocks == w.arena.blocks;
    DivUnique(a.pos, WordModulus, 0, a.pos);
    PushAccounts(a, size, opt);
  }
}
