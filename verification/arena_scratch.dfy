/** Releasing an arena (`cflat_arena_delete`) and the per-thread scratch
    arenas (`cflat_get_scratch_arena_pool`) of CflatArena.h.

    Delete is modelled by the sequence of blocks it hands back to the
    operating system, in order.  The scratch pool is a sequence of slots,
    each NULL (or holding an arena whose `curr` is NULL) or an arena living
    in the slot's own thread-local buffer; arena pointers are compared by
    identity, so an arena is named by a `Ref`. */
module ArenaScratch {
  import opened Words
  import opened Core
  import opened Arena
  import opened ArenaRewind

  /* ---------------------------------------------------------------------- */
  /*  Delete                                                                 */
  /* ---------------------------------------------------------------------- */

  /** The blocks among `ids` whose `ptr2free` is set, in order. */
  function Owned(blocks: map<Id, Block>, ids: seq<Id>): (r: seq<Id>)
    ensures forall id :: id in r <==> id in ids && id in blocks && blocks[id].owned
    ensures multiset(r) <= multiset(ids) && |r| <= |ids|
    decreases |ids|
  {
    if ids == [] then []
    else
      var rest := Owned(blocks, ids[1..]);
      assert ids == [ids[0]] + ids[1..];
      if ids[0] in blocks && blocks[ids[0]].owned then [ids[0]] + rest else rest
  }

  /** `cflat_arena_delete`: nothing for a NULL arena; otherwise it walks the
      chain, then the free list, releasing every block it owns. */
  function Delete(a: Option<Arena>): (r: seq<Id>)
    ensures a.None? ==> r == []
    ensures a.Some? ==> |r| <= |Listed(a.value)|
  {
    if a.None? then []
    else Owned(a.value.blocks, a.value.chain) + Owned(a.value.blocks, a.value.free)
  }

  /** Delete releases exactly the owned blocks the arena reaches, each once. */
  lemma DeleteReleases(a: Arena)
    requires Linked(a)
    ensures forall id :: id in Delete(Some(a)) <==> id in Listed(a) && a.blocks[id].owned
    ensures Distinct(Delete(Some(a)))
  {
    var r := Delete(Some(a));
    assert multiset(r) <= multiset(Listed(a)) by {
      assert multiset(Listed(a)) == multiset(a.chain) + multiset(a.free);
    }
    DistinctSubMultiset(r, Listed(a));
  }

  /** An arena built in a caller's buffer releases nothing. */
  lemma DeleteInit(size: usize, mem: seq<u8>)
    requires Header <= size && |mem| == size
    ensures Delete(Some(ArenaInit(size, mem))) == []
  {
    var a := ArenaInit(size, mem);
    assert Owned(a.blocks, a.chain[1..]) == [];
  }

  /** An arena from `cflat_arena_new` releases its one reservation. */
  lemma DeleteNew(reserve: usize, commit: usize)
    requires 0 < commit <= reserve <= WordModulus - PageSize
    ensures New(reserve, commit).Done? && Delete(Some(New(reserve, commit).value)) == [0]
  {
    var a := New(reserve, commit).value;
    assert a.chain == [0] + a.chain[1..];
    assert Owned(a.blocks, a.chain[1..]) == [];
  }

  /** After the corrected clear, delete releases the same blocks as before. */
  lemma ClearReleasesSame(a: Arena)
    requires Linked(a)
    ensures forall id :: id in Delete(Some(Clear(a))) <==> id in Delete(Some(a))
  {
    var c := Clear(a);
    DeleteReleases(a);
    DeleteReleases(c);
    forall id ensures id in Listed(c) <==> id in Listed(a) {
      assert id in Listed(c) <==> id in multiset(Listed(c));
      assert id in Listed(a) <==> id in multiset(Listed(a));
    }
    forall id | id in Listed(a) ensures c.blocks[id].owned == a.blocks[id].owned {
    }
  }

  /** After clear as written, an owned block past the head of the free list
      is never released: delete no longer reaches it. */
  lemma ClearAsWrittenLeaks(a: Arena)
    requires Linked(a) && |a.free| >= 2 && a.blocks[a.free[1]].owned
    ensures a.free[1] in Delete(Some(a))
    ensures a.free[1] !in Delete(Some(ClearAsWritten(a)))
  {
    DeleteReleases(a);
    ClearLosesFreeBlocks(a);
    var c := ClearAsWritten(a);
    assert a.free[1] !in c.chain + c.free;
  }

  /* ---------------------------------------------------------------------- */
  /*  Scratch arenas                                                         */
  /* ---------------------------------------------------------------------- */

  /** An arena pointer: NULL, the arena in thread-local buffer `slot`, or
      some other arena. */
  datatype Ref = Null | Tls(slot: nat) | Elsewhere(id: nat)

  /** What `cflat_get_scratch_arena_pool` does: it returns a checkpoint of
      the arena in `slot`, or dereferences NULL when every slot conflicts
      (`cflat_arena_temp_begin(NULL)`).  Both leave the pool `pool`. */
  datatype Scratch =
    | Got(pool: seq<Option<Arena>>, slot: nat, temp: TempArena)
    | NullDeref(pool: seq<Option<Arena>>)

  /** The thread-local buffers are `ScratchBytes` long. */
  predicate Buffers(buffers: seq<seq<u8>>) {
    forall i :: 0 <= i < |buffers| ==> |buffers[i]| == ScratchBytes
  }

  /** Slot `i` once the scan reaches it: kept, or initialised in its buffer. */
  function Ready(pool: seq<Option<Arena>>, buffers: seq<seq<u8>>, i: nat): (a: Arena)
    requires i < |pool| <= |buffers| && Buffers(buffers)
    ensures pool[i].Some? ==> a == pool[i].value
    ensures pool[i].None? ==> Valid(a) && InUse(a) == a.pos == 0 && a.chain == [0]
  {
    if pool[i].Some? then pool[i].value else ArenaInit(ScratchBytes, buffers[i])
  }

  /** The scan from slot `i` on.  A slot's arena sits at the start of its
      buffer, so it is `Tls(i)`; no conflict equal to NULL matches a slot. */
  function Scan(pool: seq<Option<Arena>>, buffers: seq<seq<u8>>, conflicts: seq<Ref>, i: nat): (r: Scratch)
    requires i <= |pool| <= |buffers| && Buffers(buffers)
    ensures |r.pool| == |pool|
    ensures forall j :: 0 <= j < i ==> r.pool[j] == pool[j]
    ensures r.NullDeref? <==> forall j :: i <= j < |pool| ==> Tls(j) in conflicts
    ensures r.Got? ==> && i <= r.slot < |pool| && Tls(r.slot) !in conflicts
                       && (forall j :: i <= j < r.slot ==> Tls(j) in conflicts)
                       && r.pool[r.slot].Some? && r.temp.pos == r.pool[r.slot].value.pos
                       && (forall j :: r.slot < j < |pool| ==> r.pool[j] == pool[j])
    ensures forall j :: i <= j < |pool| && (r.NullDeref? || j <= r.slot) ==>
              r.pool[j] == Some(Ready(pool, buffers, j))
    decreases |pool| - i
  {
    if i == |pool| then NullDeref(pool)
    else
      var p := pool[i := Some(Ready(pool, buffers, i))];
      if Tls(i) !in conflicts then Got(p, i, TempBegin(p[i].value))
      else
        var r := Scan(p, buffers, conflicts, i + 1);
        assert forall j :: i < j < |pool| ==> Ready(p, buffers, j) == Ready(pool, buffers, j);
        r
  }

  /** `cflat_get_scratch_arena`: the scan of the two thread-local slots. */
  function GetScratch(pool: seq<Option<Arena>>, buffers: seq<seq<u8>>, conflicts: seq<Ref>): (r: Scratch)
    requires |pool| == |buffers| == ScratchSlots && Buffers(buffers)
    ensures |r.pool| == ScratchSlots
  {
    Scan(pool, buffers, conflicts, 0)
  }

  /** The first slot whose arena is not among the conflicts. */
  function FirstClear(conflicts: seq<Ref>, i: nat, n: nat): (k: Option<nat>)
    decreases n - i
  {
    if i >= n then None
    else if Tls(i) !in conflicts then Some(i)
    else FirstClear(conflicts, i + 1, n)
  }

  /** The scan hands out the first slot not in conflict, and dereferences
      NULL exactly when there is none. */
  lemma {:induction false} ScanFirst(pool: seq<Option<Arena>>, buffers: seq<seq<u8>>, conflicts: seq<Ref>, i: nat)
    requires i <= |pool| <= |buffers| && Buffers(buffers)
    ensures var r := Scan(pool, buffers, conflicts, i);
            match FirstClear(conflicts, i, |pool|)
            case None => r.NullDeref?
            case Some(k) => r.Got? && r.slot == k
    decreases |pool| - i
  {
    if i < |pool| && Tls(i) in conflicts {
      var p := pool[i := Some(Ready(pool, buffers, i))];
      ScanFirst(p, buffers, conflicts, i + 1);
    }
  }

  /** The scan keeps every slot's arena well formed, and the arena it hands
      out is never one of the conflicts. */
  lemma ScanValid(pool: seq<Option<Arena>>, buffers: seq<seq<u8>>, conflicts: seq<Ref>)
    requires |pool| == |buffers| == ScratchSlots && Buffers(buffers)
    requires forall j :: 0 <= j < |pool| && pool[j].Some? ==> Valid(pool[j].value)
    ensures var r := GetScratch(pool, buffers, conflicts);
            forall j :: 0 <= j < |r.pool| && r.pool[j].Some? ==> Valid(r.pool[j].value)
  {
    var r := GetScratch(pool, buffers, conflicts);
    forall j | 0 <= j < |r.pool| && r.pool[j].Some? ensures Valid(r.pool[j].value) {
      if r.NullDeref? || j <= r.slot {
        assert r.pool[j] == Some(Ready(pool, buffers, j));
      }
    }
  }

  /** A fresh pool, asked first with no conflict (NULL) and then with the
      arena it handed out, gives slot 0 and then slot 1; asked with both,
      it dereferences NULL. */
  lemma NestedScratch(b0: seq<u8>, b1: seq<u8>)
    requires |b0| == |b1| == ScratchBytes
    ensures var first := GetScratch([None, None], [b0, b1], [Null]);
            && first.Got? && first.slot == 0 && first.temp.pos == 0
            && var second := GetScratch(first.pool, [b0, b1], [Tls(0)]);
               && second.Got? && second.slot == 1 && second.temp.pos == 0
               && GetScratch(second.pool, [b0, b1], [Tls(0), Tls(1)]).NullDeref?
  {
    var bs := [b0, b1];
    var first := GetScratch([None, None], bs, [Null]);
    assert Tls(0) !in [Null];
    assert first.pool[0] == Some(ArenaInit(ScratchBytes, b0));
    var second := GetScratch(first.pool, bs, [Tls(0)]);
    assert Tls(0) in [Tls(0)] && Tls(1) !in [Tls(0)];
    assert second.pool[1] == Some(ArenaInit(ScratchBytes, b1));
    assert Tls(0) in [Tls(0), Tls(1)] && Tls(1) in [Tls(0), Tls(1)];
  }
}
