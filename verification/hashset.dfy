/** The variant of the table in CflatHashSet.h, which also stores each
    entry's hash and always hashes with `cflat__fnv1a_hash`.

    Its scans are those of CflatHashTable.h (module `HashStore`); what
    differs is the `hashes` array, the NULL branch of resize (a new table
    instead of a NULL dereference) and the arena traffic of resize. */
module HashSet {
  import opened Words
  import opened Core
  import opened HashProbe
  import opened HashStore
  import Arena
  import ArenaScratch

  /** A table with its `hashes` array. */
  datatype SetTable = SetTable(store: Store, hashes: seq<u64>)

  /** The slots and the hash array agree in length and are `Shaped`. */
  predicate Sized(t: SetTable) {
    Shaped(t.store) && |t.hashes| == |t.store.slots|
  }

  /** The hash array a table of these slots holds: the FNV-1a hash of each
      USED slot's key, zero (the cleared allocation) elsewhere. */
  function HashesOf(slots: seq<Slot>): (hs: seq<u64>)
    ensures |hs| == |slots|
  {
    seq(|slots|, i requires 0 <= i < |slots| => if slots[i].Used? then Fnv(slots[i].key) else 0)
  }

  /** The invariant: the store invariant for FNV-1a, and the recorded hash
      of every slot is the one its contents give. */
  ghost predicate Good(t: SetTable) {
    Valid(t.store, Fnv) && t.hashes == HashesOf(t.store.slots)
  }

  /** What `cflat__hashtable_add_raw` of this file does. */
  datatype SetOutcome =
    | Wrote(table: SetTable, index: nat)
    | Holds(index: nat)
    | Full
    | Loops

  /** The table after `cflat_hashtable_add` and its result. */
  datatype SetAdded = SetAdded(table: SetTable, inserted: bool)

  /* ---------------------------------------------------------------------- */
  /*  Operations                                                             */
  /* ---------------------------------------------------------------------- */

  /** `cflat_hashtable_new_opt` and `cflat_hashset_new_opt` of this file:
      `next_pow2(capacity)` cleared slots and hashes.  (The set has no key
      array, which the model does not see.) */
  function New(capacity: u64): (t: SetTable)
    ensures Sized(t) || capacity > 0x1_0000_0000
    ensures t.store.count == 0
  {
    NewStoreShaped2(capacity);
    var s := NewStore(capacity);
    SetTable(s, seq(|s.slots|, _ => 0))
  }

  /** The insertion: the scan of `HashStore.AddRaw` under FNV-1a, which
      also stores the hash at the slot it writes. */
  function AddRaw(t: SetTable, key: seq<u8>, value: seq<u8>): (r: SetOutcome)
    requires Sized(t)
    ensures r.Wrote? ==> Sized(r.table) && r.table.store.exponent == t.store.exponent && r.index < |t.hashes|
  {
    var h := Fnv(key);
    match HashStore.AddRaw(t.store, key, value, h)
    case Inserted(s, i) =>
      AddScanInserted(t.store, key, value, h, 1, None);
      Wrote(SetTable(s, t.hashes[i := h]), i)
    case Present(i) => Holds(i)
    case Refused => Full
    case Cycles => Loops
  }

  /** The loop of resize: the USED slots of `src` from `i` on are added in
      slot order; `None` when an insertion never stops. */
  function Rehash(src: seq<Slot>, t: SetTable, i: nat): (r: Option<SetTable>)
    requires Sized(t) && i <= |src|
    ensures r.Some? ==> Sized(r.value) && r.value.store.exponent == t.store.exponent
    decreases |src| - i
  {
    if i == |src| then Some(t)
    else if !src[i].Used? then Rehash(src, t, i + 1)
    else
      match AddRaw(t, src[i].key, src[i].value)
      case Wrote(u, _) => Rehash(src, u, i + 1)
      case Loops => None
      case _ => Rehash(src, t, i + 1)
  }

  /** `cflat_hashtable_resize` of this file: NULL gets a new table of the
      requested capacity; otherwise the old entries are added, in slot
      order, to a new table of `next_pow2(capacity)` slots. */
  function Resize(t: Option<SetTable>, capacity: u64): (r: Outcome<SetTable>)
    requires capacity <= 0x1_0000_0000
    ensures !r.Faults?
    ensures r.Done? ==> Sized(r.value)
  {
    if t.None? then Done(New(capacity))
    else
      match Rehash(t.value.store.slots, New(capacity), 0)
      case None => Hangs
      case Some(u) => Done(u)
  }

  /** `cflat_hashtable_add` of this file: as in CflatHashTable.h, NULL is
      dereferenced for the resize, and a refusal doubles the slots and
      retries once. */
  function Add(t: Option<SetTable>, key: seq<u8>, value: seq<u8>): (r: Outcome<SetAdded>)
    requires t.Some? ==> Sized(t.value) && t.value.store.exponent < 32
    ensures t.None? <==> r.Faults?
  {
    if t.None? then Faults
    else
      var tb := t.value;
      match AddRaw(tb, key, value)
      case Wrote(u, _) => Done(SetAdded(u, true))
      case Holds(_) => Done(SetAdded(tb, false))
      case Loops => Hangs
      case Full =>
        var e := tb.store.exponent;
        Pow2Monotone(e + 1, 32);
        Pow2Of32();
        match Resize(t, Pow2(e + 1))
        case Done(grown) =>
          (match AddRaw(grown, key, value)
           case Wrote(u, _) => Done(SetAdded(u, true))
           case Loops => Hangs
           case _ => Done(SetAdded(grown, false)))
        case _ => Hangs
  }

  /** `cflat_hashtable_get` of this file as written: only a USED slot with
      the key ends the loop. */
  function GetAsWritten(t: Option<SetTable>, key: seq<u8>): (r: Outcome<Option<seq<u8>>>)
    requires t.Some? ==> Shaped(t.value.store)
    ensures t.None? ==> r == Done(None)
    ensures !r.Faults?
  {
    if t.None? then Done(None)
    else
      var s := t.value.store;
      match GetScanAsWritten(s, key, Fnv(key), 1)
      case Found(i) => Done(Some(s.slots[i].value))
      case Missing => Done(None)
      case Diverges => Hangs
  }

  /** The lookup with the exit the insertion loop has. */
  function Get(t: Option<SetTable>, key: seq<u8>): (r: Outcome<Option<seq<u8>>>)
    requires t.Some? ==> Shaped(t.value.store)
    ensures t.None? ==> r == Done(None)
    ensures !r.Faults?
  {
    if t.None? then Done(None)
    else
      var s := t.value.store;
      match GetScan(s, key, Fnv(key), 1)
      case Found(i) => Done(Some(s.slots[i].value))
      case Missing => Done(None)
      case Diverges => Hangs
  }

  /* ---------------------------------------------------------------------- */
  /*  Properties                                                             */
  /* ---------------------------------------------------------------------- */

  /** Up to `2^32` requested slots the new table is `Shaped`. */
  lemma NewStoreShaped2(capacity: u64)
    ensures capacity <= 0x1_0000_0000 ==> Shaped(NewStore(capacity))
  {
    if capacity <= 0x1_0000_0000 {
      NewStoreShaped(capacity);
    }
  }

  /** A new table is empty and valid, its hash array matching its slots. */
  lemma NewSpec(capacity: u64)
    requires capacity <= 0x1_0000_0000
    ensures var t := New(capacity);
            && Good(t) && Contents(t.store.slots) == map[]
            && capacity <= Pow2(t.store.exponent)
  {
    var t := New(capacity);
    NewStoreValid(capacity, Fnv);
    assert t.hashes == HashesOf(t.store.slots);
  }

  /** Writing a slot changes the hash array the contents give at that slot
      only. */
  lemma HashesUpdate(slots: seq<Slot>, i: nat, key: seq<u8>, value: seq<u8>)
    requires i < |slots|
    ensures HashesOf(slots[i := Used(key, value)]) == HashesOf(slots)[i := Fnv(key)]
  {
  }

  /** The insertion of this file makes the store insertion's choice and
      records the hash at the slot it writes. */
  lemma AddRawTracks(t: SetTable, key: seq<u8>, value: seq<u8>)
    requires Sized(t) && t.hashes == HashesOf(t.store.slots)
    ensures match HashStore.AddRaw(t.store, key, value, Fnv(key))
            case Inserted(s, i) =>
              AddRaw(t, key, value) == Wrote(SetTable(s, HashesOf(s.slots)), i)
            case Present(i) => AddRaw(t, key, value) == Holds(i)
            case Refused => AddRaw(t, key, value) == Full
            case Cycles => AddRaw(t, key, value) == Loops
  {
    var h := Fnv(key);
    if HashStore.AddRaw(t.store, key, value, h).Inserted? {
      AddScanInserted(t.store, key, value, h, 1, None);
      var i := HashStore.AddRaw(t.store, key, value, h).index;
      HashesUpdate(t.store.slots, i, key, value);
    }
  }

  /** The set's rehash is the store's rehash under FNV-1a, with the hash
      array kept in step. */
  lemma {:induction false} RehashTracks(src: seq<Slot>, t: SetTable, i: nat)
    requires Sized(t) && t.hashes == HashesOf(t.store.slots) && i <= |src|
    ensures match HashStore.Rehash(src, t.store, Fnv, i)
            case None => Rehash(src, t, i) == None
            case Some(s) => Rehash(src, t, i) == Some(SetTable(s, HashesOf(s.slots)))
    decreases |src| - i
  {
    if i < |src| {
      if src[i].Used? {
        AddRawTracks(t, src[i].key, src[i].value);
        match HashStore.AddRaw(t.store, src[i].key, src[i].value, Fnv(src[i].key))
        case Inserted(s, _) =>
          RehashTracks(src, SetTable(s, HashesOf(s.slots)), i + 1);
        case Cycles =>
        case _ =>
          RehashTracks(src, t, i + 1);
      } else {
        RehashTracks(src, t, i + 1);
      }
    }
  }

  /** The insertion of this file on a valid table: it finds a held key,
      refuses exactly at the load cap, and otherwise adds the pair with
      its hash, keeping the table valid. */
  lemma AddRawSpec(t: SetTable, key: seq<u8>, value: seq<u8>)
    requires Good(t)
    ensures var r := AddRaw(t, key, value);
            && !r.Loops?
            && (r.Holds? <==> key in Contents(t.store.slots))
            && (r.Full? <==> key !in Contents(t.store.slots) && t.store.count + 1 > MaxLoad(t.store.exponent))
            && (r.Wrote? ==>
                  && Good(r.table) && r.table.hashes[r.index] == Fnv(key)
                  && Contents(r.table.store.slots) == Contents(t.store.slots)[key := value])
  {
    HashStore.AddRawSpec(t.store, Fnv, key, value);
    AddRawTracks(t, key, value);
    AddScanInserted(t.store, key, value, Fnv(key), 1, None);
  }

  /** Resizing NULL gives a new empty table; resizing a valid table gives
      a valid one with no pair it did not hold, and the same pairs while
      the new load cap has room. */
  lemma ResizeSpec(t: Option<SetTable>, capacity: u64)
    requires capacity <= 0x1_0000_0000
    requires t.Some? ==> Good(t.value)
    ensures var r := Resize(t, capacity);
            && r.Done? && Good(r.value)
            && (t.None? ==> Contents(r.value.store.slots) == map[])
            && (t.Some? ==> forall key :: key in Contents(r.value.store.slots) ==>
                  key in Contents(t.value.store.slots) && Contents(r.value.store.slots)[key] == Contents(t.value.store.slots)[key])
            && (t.Some? && t.value.store.count <= MaxLoad(r.value.store.exponent) ==>
                  Contents(r.value.store.slots) == Contents(t.value.store.slots)
                  && r.value.store.count == t.value.store.count)
  {
    NewSpec(capacity);
    if t.Some? {
      var n := New(capacity);
      RehashTracks(t.value.store.slots, n, 0);
      HashStore.ResizeSpec(t.value.store, capacity, Fnv);
    }
  }

  /** `cflat_hashtable_add` of this file on a valid table with fewer than
      `2^32` slots: `true` exactly when the key was absent, which it then
      holds; a held key keeps its old value. */
  lemma AddSpec(t: SetTable, key: seq<u8>, value: seq<u8>)
    requires Good(t) && t.store.exponent < 32
    ensures var r := Add(Some(t), key, value);
            && r.Done? && Good(r.value.table)
            && (r.value.inserted <==> key !in Contents(t.store.slots))
            && Contents(r.value.table.store.slots) ==
                 if r.value.inserted then Contents(t.store.slots)[key := value] else Contents(t.store.slots)
  {
    AddRawSpec(t, key, value);
    if AddRaw(t, key, value).Full? {
      var grown := Grow(t);
      AddRawSpec(grown, key, value);
    }
  }

  /** The resize `Add` makes under the load cap: twice the slots, the same
      pairs, room for one more. */
  lemma Grow(t: SetTable) returns (grown: SetTable)
    requires Good(t) && t.store.exponent < 32
    ensures Pow2(t.store.exponent + 1) <= 0x1_0000_0000
    ensures Resize(Some(t), Pow2(t.store.exponent + 1)) == Done(grown)
    ensures Good(grown) && grown.store.exponent == t.store.exponent + 1
    ensures Contents(grown.store.slots) == Contents(t.store.slots) && grown.store.count == t.store.count
    ensures t.store.count + 1 <= MaxLoad(grown.store.exponent)
  {
    var e := t.store.exponent;
    NewStoreOfPow2(e + 1);
    ResizeSpec(Some(t), Pow2(e + 1));
    MaxLoadMonotone(e, e + 1);
    MaxLoadDoubles(e);
    grown := Resize(Some(t), Pow2(e + 1)).value;
    NewSpec(Pow2(e + 1));
  }

  /** The fixed lookup returns the value of a held key and NULL for any
      other. */
  lemma GetSpec(t: SetTable, key: seq<u8>)
    requires Good(t)
    ensures Get(Some(t), key) ==
              Done(if key in Contents(t.store.slots) then Some(Contents(t.store.slots)[key]) else None)
  {
    HashStore.GetSpec(t.store, Fnv, key);
  }

  /** The lookup as written returns the value of a held key and never
      returns for any other. */
  lemma GetAsWrittenHangs(t: SetTable, key: seq<u8>)
    requires Good(t)
    ensures key in Contents(t.store.slots) ==> GetAsWritten(Some(t), key) == Done(Some(Contents(t.store.slots)[key]))
    ensures key !in Contents(t.store.slots) ==> GetAsWritten(Some(t), key) == Hangs
  {
    HashStore.GetAsWrittenSpec(t.store, Fnv, key);
  }

  /** The scratch arena of this resize is requested with no conflict, so
      it is the first pool slot even when the table's own arena `a` is
      that slot; CflatHashTable.h lists `a` and gets the next one. */
  lemma ResizeScratchAliases(pool: seq<Option<Arena.Arena>>, buffers: seq<seq<u8>>)
    requires |pool| == |buffers| == Arena.ScratchSlots && ArenaScratch.Buffers(buffers)
    ensures var r := ArenaScratch.GetScratch(pool, buffers, []);
            r.Got? && r.slot == 0
    ensures var r := ArenaScratch.GetScratch(pool, buffers, [ArenaScratch.Tls(0)]);
            r.Got? && r.slot == 1
  {
    ArenaScratch.ScanFirst(pool, buffers, [], 0);
    ArenaScratch.ScanFirst(pool, buffers, [ArenaScratch.Tls(0)], 0);
  }
}
