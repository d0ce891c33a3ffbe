/** The `CflatHashTable` handle and the four public operations of
    CflatHashTable.h: `cflat_hashtable_new_opt`, `cflat_hashtable_resize`,
    `cflat_hashtable_add` and `cflat_hashtable_get`.

    A handle is `Option<Table>` (`None` is NULL).  Where the code
    dereferences NULL the model answers `Faults`; where it loops forever,
    `Hangs`.  Keys are compared byte for byte (the default
    `cflat__mem_equals`). */
module HashTable {
  import opened Words
  import opened Bits
  import opened Core
  import opened HashProbe
  import opened HashStore

  /** The `hash` field: NULL selects `cflat__fnv1a_hash`. */
  datatype Hasher = Fnv1a | Custom(f: seq<u8> -> u64)

  /** The hash function a table uses. */
  function HashOf(h: Hasher): seq<u8> -> u64
  {
    if h.Fnv1a? then Fnv else h.f
  }

  datatype Table = Table(store: Store, hasher: Hasher)

  /** A table whose slots satisfy the store invariant for its own hash. */
  ghost predicate Good(t: Table) {
    Valid(t.store, HashOf(t.hasher))
  }

  /** The table after `cflat_hashtable_add` and its result. */
  datatype Added = Added(table: Table, inserted: bool)

  /* ---------------------------------------------------------------------- */
  /*  Operations                                                             */
  /* ---------------------------------------------------------------------- */

  /** `cflat_hashtable_new_opt` (the arena pushes are not modelled). */
  function New(capacity: u64, hasher: Hasher): (t: Table)
    ensures t.hasher == hasher && t.store.count == 0
  {
    Table(NewStore(capacity), hasher)
  }

  /** `cflat_hashtable_resize`.  On NULL it reads `hashtable->hash`, a NULL
      dereference. */
  function Resize(t: Option<Table>, capacity: u64): (r: Outcome<Table>)
    requires capacity <= 0x1_0000_0000
    ensures t.None? <==> r.Faults?
    ensures r.Done? ==> r.value.hasher == t.value.hasher && Shaped(r.value.store)
  {
    if t.None? then Faults
    else
      match ResizeStore(t.value.store, capacity, HashOf(t.value.hasher))
      case None => Hangs
      case Some(s) => Done(Table(s, t.value.hasher))
  }

  /** `cflat_hashtable_add`: the raw insertion; under the load cap, a
      resize to twice the slots and a second insertion.  The result is
      whether the second call wrote the pair (`index != SIZE_MAX`).  On
      NULL the raw insertion returns NULL and the resize reads
      `(*hashtable)->exponent`. */
  function Add(t: Option<Table>, key: seq<u8>, value: seq<u8>): (r: Outcome<Added>)
    requires t.Some? ==> Shaped(t.value.store) && t.value.store.exponent < 32
    ensures t.None? <==> r.Faults?
    ensures r.Done? ==> r.value.table.hasher == t.value.hasher
  {
    if t.None? then Faults
    else
      var tb := t.value;
      var hf := HashOf(tb.hasher);
      match AddRaw(tb.store, key, value, hf(key))
      case Inserted(s, _) => Done(Added(Table(s, tb.hasher), true))
      case Present(_) => Done(Added(tb, false))
      case Cycles => Hangs
      case Refused =>
        var e := tb.store.exponent;
        Pow2Monotone(e + 1, 32);
        Pow2Of32();
        match Resize(t, Pow2(e + 1))
        case Done(grown) =>
          (match AddRaw(grown.store, key, value, hf(key))
           case Inserted(s, _) => Done(Added(Table(s, tb.hasher), true))
           case Cycles => Hangs
           case _ => Done(Added(grown, false)))
        case _ => Hangs
  }

  /** `cflat_hashtable_get` as written: NULL gives NULL; otherwise only a
      USED slot holding the key ends the loop. */
  function GetAsWritten(t: Option<Table>, key: seq<u8>): (r: Outcome<Option<seq<u8>>>)
    requires t.Some? ==> Shaped(t.value.store)
    ensures t.None? ==> r == Done(None)
    ensures !r.Faults?
  {
    if t.None? then Done(None)
    else
      var s := t.value.store;
      match GetScanAsWritten(s, key, HashOf(t.value.hasher)(key), 1)
      case Found(i) => Done(Some(s.slots[i].value))
      case Missing => Done(None)
      case Diverges => Hangs
  }

  /** `cflat_hashtable_get` with the exit the insertion loop has: an EMPTY
      slot, or a full cycle of probes, means the key is absent. */
  function Get(t: Option<Table>, key: seq<u8>): (r: Outcome<Option<seq<u8>>>)
    requires t.Some? ==> Shaped(t.value.store)
    ensures t.None? ==> r == Done(None)
    ensures !r.Faults?
  {
    if t.None? then Done(None)
    else
      var s := t.value.store;
      match GetScan(s, key, HashOf(t.value.hasher)(key), 1)
      case Found(i) => Done(Some(s.slots[i].value))
      case Missing => Done(None)
      case Diverges => Hangs
  }

  /* ---------------------------------------------------------------------- */
  /*  Properties                                                             */
  /* ---------------------------------------------------------------------- */

  /** A new table of up to `2^32` requested slots is empty, valid, and has
      room for the request. */
  lemma NewSpec(capacity: u64, hasher: Hasher)
    requires capacity <= 0x1_0000_0000
    ensures var t := New(capacity, hasher);
            && Good(t) && Contents(t.store.slots) == map[]
            && capacity <= Pow2(t.store.exponent)
  {
    NewStoreValid(capacity, HashOf(hasher));
  }

  /** Resizing keeps the hash function, validity and, while the new load
      cap has room, every pair. */
  lemma ResizeSpec(t: Table, capacity: u64)
    requires Good(t) && capacity <= 0x1_0000_0000
    ensures var r := Resize(Some(t), capacity);
            && r.Done? && Good(r.value)
            && (t.store.count <= MaxLoad(r.value.store.exponent) ==>
                  Contents(r.value.store.slots) == Contents(t.store.slots))
  {
    HashStore.ResizeSpec(t.store, capacity, HashOf(t.hasher));
  }

  /** The resize `cflat_hashtable_add` makes under the load cap: twice
      the slots, the same pairs, and room for one more. */
  lemma Grow(s: Store, hf: seq<u8> -> u64) returns (grown: Store)
    requires Valid(s, hf) && s.exponent < 32
    ensures Pow2(s.exponent + 1) <= 0x1_0000_0000
    ensures ResizeStore(s, Pow2(s.exponent + 1), hf) == Some(grown)
    ensures Valid(grown, hf) && grown.exponent == s.exponent + 1
    ensures Contents(grown.slots) == Contents(s.slots) && grown.count == s.count
    ensures s.count + 1 <= MaxLoad(grown.exponent)
  {
    var e := s.exponent;
    NewStoreOfPow2(e + 1);
    HashStore.ResizeSpec(s, Pow2(e + 1), hf);
    MaxLoadMonotone(e, e + 1);
    MaxLoadDoubles(e);
    grown := ResizeStore(s, Pow2(e + 1), hf).value;
  }

  /** `cflat_hashtable_add` on a valid table with fewer than `2^32` slots:
      it reports `true` exactly when the key was absent, then holds the
      pair; a held key keeps its old value; the table stays valid. */
  lemma AddSpec(t: Table, key: seq<u8>, value: seq<u8>)
    requires Good(t) && t.store.exponent < 32
    ensures var r := Add(Some(t), key, value);
            && r.Done? && Good(r.value.table)
            && (r.value.inserted <==> key !in Contents(t.store.slots))
            && Contents(r.value.table.store.slots) ==
                 if r.value.inserted then Contents(t.store.slots)[key := value] else Contents(t.store.slots)
  {
    var hf := HashOf(t.hasher);
    var s := t.store;
    AddRawSpec(s, hf, key, value);
    if AddRaw(s, key, value, hf(key)).Refused? {
      var grown := Grow(s, hf);
      AddRawSpec(grown, hf, key, value);
      assert Resize(Some(t), Pow2(s.exponent + 1)) == Done(Table(grown, t.hasher));
    }
  }

  /** The fixed lookup on a valid table returns the value of a held key
      and NULL for any other. */
  lemma GetSpec(t: Table, key: seq<u8>)
    requires Good(t)
    ensures Get(Some(t), key) ==
              Done(if key in Contents(t.store.slots) then Some(Contents(t.store.slots)[key]) else None)
  {
    HashStore.GetSpec(t.store, HashOf(t.hasher), key);
  }

  /** The lookup as written returns the value of a held key but never
      returns for a key the table does not hold. */
  lemma GetAsWrittenHangs(t: Table, key: seq<u8>)
    requires Good(t)
    ensures key in Contents(t.store.slots) ==> GetAsWritten(Some(t), key) == Done(Some(Contents(t.store.slots)[key]))
    ensures key !in Contents(t.store.slots) ==> GetAsWritten(Some(t), key) == Hangs
  {
    HashStore.GetAsWrittenSpec(t.store, HashOf(t.hasher), key);
  }

  /** A concrete case: the lookup of any key in a new, empty table never
      returns, where the fixed lookup returns NULL. */
  lemma EmptyGetHangs(capacity: u64, hasher: Hasher, key: seq<u8>)
    requires capacity <= 0x1_0000_0000
    ensures Good(New(capacity, hasher))
    ensures GetAsWritten(Some(New(capacity, hasher)), key) == Hangs
    ensures Get(Some(New(capacity, hasher)), key) == Done(None)
  {
    NewSpec(capacity, hasher);
    GetAsWrittenHangs(New(capacity, hasher), key);
    GetSpec(New(capacity, hasher), key);
  }
}
