/** The slot array of CflatHashTable.h / CflatHashSet.h and the scans that
    insert into it and look keys up in it.

    The flag, key and value arrays are one sequence of slots.  Nothing in
    the library ever writes `CFLAT__HASH_ENTRY_DELETED`, so the tables the
    operations build have none, but the scans handle the flag as the code
    does. */
module HashStore {
  import opened Words
  import opened Bits
  import opened Core
  import opened HashProbe

  /** A `HashTableEntryFlag` with the key and value bytes of a USED slot. */
  datatype Slot = Empty | Used(key: seq<u8>, value: seq<u8>) | Deleted

  /** `exponent`, `count` and the slots of a table. */
  datatype Store = Store(exponent: nat, count: nat, slots: seq<Slot>)

  /** `2^exponent` slots, with at most 32 index bits (the probe passes the
      index through an `i32`, see `MaskStepMod`). */
  predicate Shaped(s: Store)
    ensures Shaped(s) ==> 1 <= |s.slots| <= 0x1_0000_0000
  {
    if s.exponent <= 32 then
      Pow2Of32();
      Pow2Monotone(0, s.exponent);
      Pow2Monotone(s.exponent, 32);
      |s.slots| == Pow2(s.exponent)
    else false
  }

  /** `(3ULL << exponent) / 4`, the 75% load cap. */
  function MaxLoad(e: nat): (n: nat)
  {
    ((3 * Pow2(e)) % WordModulus) / 4
  }

  lemma MaxLoadBelow(e: nat)
    requires e <= 32
    ensures MaxLoad(e) == 3 * Pow2(e) / 4 < Pow2(e)
  {
    Pow2Monotone(e, 32);
    Pow2Of32();
    ModSmall(3 * Pow2(e), WordModulus);
  }

  /** The cap grows with the exponent. */
  lemma MaxLoadMonotone(e: nat, f: nat)
    requires e <= f <= 32
    ensures MaxLoad(e) <= MaxLoad(f)
  {
    MaxLoadBelow(e);
    MaxLoadBelow(f);
    Pow2Monotone(e, f);
  }

  /* ---------------------------------------------------------------------- */
  /*  Contents                                                               */
  /* ---------------------------------------------------------------------- */

  /** The number of USED slots. */
  function CountUsed(slots: seq<Slot>): (n: nat)
    ensures n <= |slots|
  {
    if slots == [] then 0
    else CountUsed(slots[..|slots| - 1]) + (if slots[|slots| - 1].Used? then 1 else 0)
  }

  /** The key-value pairs of the USED slots (a later slot wins, which never
      matters in a table with distinct keys). */
  function Contents(slots: seq<Slot>): (m: map<seq<u8>, seq<u8>>)
  {
    if slots == [] then map[]
    else
      var m := Contents(slots[..|slots| - 1]);
      match slots[|slots| - 1]
      case Used(k, v) => m[k := v]
      case _ => m
  }

  /** No key is held twice. */
  ghost predicate UniqueKeys(slots: seq<Slot>) {
    forall i, j :: 0 <= i < j < |slots| && slots[i].Used? && slots[j].Used? ==> slots[i].key != slots[j].key
  }

  predicate NoDeleted(slots: seq<Slot>) {
    forall i :: 0 <= i < |slots| ==> !slots[i].Deleted?
  }

  /** A key is in the contents iff some slot holds it. */
  lemma {:induction false} ContentsHas(slots: seq<Slot>, key: seq<u8>)
    ensures key in Contents(slots) <==> exists i :: 0 <= i < |slots| && slots[i].Used? && slots[i].key == key
    decreases |slots|
  {
    if slots != [] {
      var n := |slots| - 1;
      var init := slots[..n];
      ContentsHas(init, key);
      if key in Contents(init) {
        var i :| 0 <= i < |init| && init[i].Used? && init[i].key == key;
        assert slots[i] == init[i];
      }
      if exists i :: 0 <= i < |slots| && slots[i].Used? && slots[i].key == key {
        var i :| 0 <= i < |slots| && slots[i].Used? && slots[i].key == key;
        if i < n {
          assert init[i] == slots[i];
        }
      }
    }
  }

  /** With distinct keys, a USED slot's value is the one the contents give. */
  lemma {:induction false} ContentsValue(slots: seq<Slot>, i: nat)
    requires UniqueKeys(slots) && i < |slots| && slots[i].Used?
    ensures slots[i].key in Contents(slots) && Contents(slots)[slots[i].key] == slots[i].value
    decreases |slots|
  {
    var n := |slots| - 1;
    var init := slots[..n];
    if i < n {
      assert UniqueKeys(init);
      ContentsValue(init, i);
      assert init[i] == slots[i];
    }
  }

  /** Writing a new key into a slot that held none adds exactly that pair. */
  lemma {:induction false} ContentsUpdate(slots: seq<Slot>, i: nat, key: seq<u8>, value: seq<u8>)
    requires i < |slots| && !slots[i].Used?
    requires forall j :: 0 <= j < |slots| && slots[j].Used? ==> slots[j].key != key
    ensures Contents(slots[i := Used(key, value)]) == Contents(slots)[key := value]
    ensures CountUsed(slots[i := Used(key, value)]) == CountUsed(slots) + 1
    decreases |slots|
  {
    var n := |slots| - 1;
    var t := slots[i := Used(key, value)];
    if i == n {
      assert t[..n] == slots[..n];
    } else {
      assert t[..n] == slots[..n][i := Used(key, value)];
      ContentsUpdate(slots[..n], i, key, value);
    }
  }

  /** A table with fewer USED slots than slots and no DELETED one has an
      EMPTY slot. */
  lemma {:induction false} EmptyExists(slots: seq<Slot>) returns (i: nat)
    requires NoDeleted(slots) && CountUsed(slots) < |slots|
    ensures i < |slots| && slots[i].Empty?
    decreases |slots|
  {
    var n := |slots| - 1;
    if slots[n].Empty? {
      i := n;
    } else {
      assert NoDeleted(slots[..n]);
      i := EmptyExists(slots[..n]);
      assert slots[..n][i] == slots[i];
    }
  }

  /** The count of a prefix never exceeds the whole. */
  lemma {:induction false} CountPrefix(slots: seq<Slot>, i: nat)
    requires i <= |slots|
    ensures CountUsed(slots[..i]) <= CountUsed(slots)
    decreases |slots|
  {
    if i < |slots| {
      var n := |slots| - 1;
      assert slots[..n][..i] == slots[..i];
      CountPrefix(slots[..n], i);
    } else {
      assert slots[..i] == slots;
    }
  }

  /** Extending a prefix by one slot. */
  lemma PrefixStep(slots: seq<Slot>, i: nat)
    requires i < |slots|
    ensures CountUsed(slots[..i + 1]) == CountUsed(slots[..i]) + (if slots[i].Used? then 1 else 0)
    ensures Contents(slots[..i + 1]) ==
              if slots[i].Used? then Contents(slots[..i])[slots[i].key := slots[i].value] else Contents(slots[..i])
  {
    assert slots[..i + 1][..i] == slots[..i];
  }

  /* ---------------------------------------------------------------------- */
  /*  Scans                                                                  */
  /* ---------------------------------------------------------------------- */

  /** What `cflat__hashtable_add_raw` does: it writes the pair at `index`,
      finds the key already held at `index`, returns NULL under the load
      cap, or probes forever. */
  datatype AddOutcome =
    | Inserted(store: Store, index: nat)
    | Present(index: nat)
    | Refused
    | Cycles

  /** The insertion loop from probe `k`, `del` being the first DELETED slot
      met so far (`*out_index`).  Past `Pow2(e)` probes the indices repeat
      (`ProbePeriodic`), so a scan that got there never stops. */
  function AddScan(s: Store, key: seq<u8>, value: seq<u8>, h: u64, k: nat, del: Option<nat>): (r: AddOutcome)
    requires Shaped(s) && k >= 1
    requires del.Some? ==> del.value < |s.slots|
    ensures r.Inserted? ==> Shaped(r.store) && r.store.exponent == s.exponent
    decreases Pow2(s.exponent) + 1 - k
  {
    if k > Pow2(s.exponent) then Cycles
    else
      var p := Probe(h, s.exponent, k);
      match s.slots[p]
      case Empty =>
        if s.count + 1 > MaxLoad(s.exponent) then Refused
        else
          var i := if del.Some? then del.value else p;
          Inserted(s.(count := s.count + 1, slots := s.slots[i := Used(key, value)]), i)
      case Deleted => AddScan(s, key, value, h, k + 1, if del.Some? then del else Some(p))
      case Used(k2, _) => if k2 == key then Present(p) else AddScan(s, key, value, h, k + 1, del)
  }

  /** `cflat__hashtable_add_raw` on a table, for a key hashing to `h`. */
  function AddRaw(s: Store, key: seq<u8>, value: seq<u8>, h: u64): (r: AddOutcome)
    requires Shaped(s)
  {
    AddScan(s, key, value, h, 1, None)
  }

  /** What a lookup does: it finds the key at `index`, misses, or probes
      forever. */
  datatype Lookup = Found(index: nat) | Missing | Diverges

  /** The loop of `cflat_hashtable_get` as written: EMPTY and DELETED both
      continue, so only a USED slot with the key ends it. */
  function GetScanAsWritten(s: Store, key: seq<u8>, h: u64, k: nat): (r: Lookup)
    requires Shaped(s) && k >= 1
    ensures r.Found? ==> r.index < |s.slots| && s.slots[r.index].Used?
    decreases Pow2(s.exponent) + 1 - k
  {
    if k > Pow2(s.exponent) then Diverges
    else
      var p := Probe(h, s.exponent, k);
      if s.slots[p].Used? && s.slots[p].key == key then Found(p)
      else GetScanAsWritten(s, key, h, k + 1)
  }

  /** The lookup with the exit the insertion loop has: an EMPTY slot ends
      it (the key would have been placed there), as does a full cycle. */
  function GetScan(s: Store, key: seq<u8>, h: u64, k: nat): (r: Lookup)
    requires Shaped(s) && k >= 1
    ensures r.Found? ==> r.index < |s.slots| && s.slots[r.index].Used?
    decreases Pow2(s.exponent) + 1 - k
  {
    if k > Pow2(s.exponent) then Missing
    else
      var p := Probe(h, s.exponent, k);
      match s.slots[p]
      case Empty => Missing
      case Deleted => GetScan(s, key, h, k + 1)
      case Used(k2, _) => if k2 == key then Found(p) else GetScan(s, key, h, k + 1)
  }

  /* ---------------------------------------------------------------------- */
  /*  The table invariant                                                    */
  /* ---------------------------------------------------------------------- */

  /** Every held key is found by the lookup from its own hash: no EMPTY
      slot lies on its probe path before it. */
  ghost predicate Reachable(s: Store, hf: seq<u8> -> u64)
    requires Shaped(s)
  {
    forall i :: 0 <= i < |s.slots| && s.slots[i].Used? ==>
      GetScan(s, s.slots[i].key, hf(s.slots[i].key), 1) == Found(i)
  }

  /** The invariant every operation keeps, for the hash function `hf`:
      `count` is the number of USED slots and within the load cap, keys
      are distinct and reachable, and nothing is DELETED. */
  ghost predicate Valid(s: Store, hf: seq<u8> -> u64) {
    && Shaped(s)
    && s.count == CountUsed(s.slots)
    && s.count <= MaxLoad(s.exponent)
    && UniqueKeys(s.slots)
    && NoDeleted(s.slots)
    && Reachable(s, hf)
  }

  /* ---------------------------------------------------------------------- */
  /*  What the scans report                                                  */
  /* ---------------------------------------------------------------------- */

  /** The lookup reports only slots holding the key, and always ends. */
  lemma {:induction false} GetScanSound(s: Store, key: seq<u8>, h: u64, k: nat)
    requires Shaped(s) && k >= 1
    ensures var r := GetScan(s, key, h, k);
            && !r.Diverges?
            && (r.Found? ==> r.index < |s.slots| && s.slots[r.index].Used? && s.slots[r.index].key == key)
    decreases Pow2(s.exponent) + 1 - k
  {
    if k <= Pow2(s.exponent) {
      var p := Probe(h, s.exponent, k);
      if !s.slots[p].Empty? && !(s.slots[p].Used? && s.slots[p].key == key) {
        GetScanSound(s, key, h, k + 1);
      }
    }
  }

  /** The lookup as written reports only slots holding the key, and never
      reports a miss: it finds the key or runs forever. */
  lemma {:induction false} AsWrittenSound(s: Store, key: seq<u8>, h: u64, k: nat)
    requires Shaped(s) && k >= 1
    ensures var r := GetScanAsWritten(s, key, h, k);
            && !r.Missing?
            && (r.Found? ==> r.index < |s.slots| && s.slots[r.index].Used? && s.slots[r.index].key == key)
    decreases Pow2(s.exponent) + 1 - k
  {
    if k <= Pow2(s.exponent) {
      var p := Probe(h, s.exponent, k);
      if !(s.slots[p].Used? && s.slots[p].key == key) {
        AsWrittenSound(s, key, h, k + 1);
      }
    }
  }

  /** Where the corrected lookup finds the key, the one as written finds
      it at the same slot. */
  lemma {:induction false} AsWrittenAgrees(s: Store, key: seq<u8>, h: u64, k: nat)
    requires Shaped(s) && k >= 1 && GetScan(s, key, h, k).Found?
    ensures GetScanAsWritten(s, key, h, k) == GetScan(s, key, h, k)
    decreases Pow2(s.exponent) + 1 - k
  {
    var p := Probe(h, s.exponent, k);
    if !(s.slots[p].Used? && s.slots[p].key == key) {
      AsWrittenAgrees(s, key, h, k + 1);
    }
  }

  /** Insertion stops at the key exactly where the lookup finds it. */
  lemma {:induction false} AddScanMirror(s: Store, key: seq<u8>, value: seq<u8>, h: u64, k: nat, del: Option<nat>)
    requires Shaped(s) && k >= 1
    requires del.Some? ==> del.value < |s.slots|
    ensures var r := AddScan(s, key, value, h, k, del);
            var g := GetScan(s, key, h, k);
            && (r.Present? <==> g.Found?)
            && (r.Present? ==> r.index == g.index)
    decreases Pow2(s.exponent) + 1 - k
  {
    if k <= Pow2(s.exponent) {
      var p := Probe(h, s.exponent, k);
      if s.slots[p].Deleted? {
        AddScanMirror(s, key, value, h, k + 1, if del.Some? then del else Some(p));
      } else if s.slots[p].Used? && s.slots[p].key != key {
        AddScanMirror(s, key, value, h, k + 1, del);
      }
    }
  }

  /** Insertion runs forever only when no probe from `k` on meets an EMPTY
      slot. */
  lemma {:induction false} AddScanCycles(s: Store, key: seq<u8>, value: seq<u8>, h: u64, k: nat, del: Option<nat>)
    requires Shaped(s) && k >= 1
    requires del.Some? ==> del.value < |s.slots|
    requires AddScan(s, key, value, h, k, del).Cycles?
    ensures forall j :: k <= j <= Pow2(s.exponent) ==> !s.slots[Probe(h, s.exponent, j)].Empty?
    decreases Pow2(s.exponent) + 1 - k
  {
    if k <= Pow2(s.exponent) {
      var p := Probe(h, s.exponent, k);
      if s.slots[p].Deleted? {
        AddScanCycles(s, key, value, h, k + 1, if del.Some? then del else Some(p));
      } else {
        AddScanCycles(s, key, value, h, k + 1, del);
      }
    }
  }

  /** What an insertion writes: the pair, at the first DELETED slot met or
      else the EMPTY slot that ended the scan, one more in `count`, and only
      within the load cap.  A NULL result means the cap was reached. */
  lemma {:induction false} AddScanInserted(s: Store, key: seq<u8>, value: seq<u8>, h: u64, k: nat, del: Option<nat>)
    requires Shaped(s) && k >= 1
    requires del.Some? ==> del.value < |s.slots| && s.slots[del.value].Deleted?
    ensures var r := AddScan(s, key, value, h, k, del);
            r.Refused? ==> s.count + 1 > MaxLoad(s.exponent)
    ensures var r := AddScan(s, key, value, h, k, del);
            r.Inserted? ==>
              && r.index < |s.slots| && !s.slots[r.index].Used?
              && s.count + 1 <= MaxLoad(s.exponent)
              && r.store == s.(count := s.count + 1, slots := s.slots[r.index := Used(key, value)])
              && (del.Some? ==> r.index == del.value)
              && (del.None? ==> GetScan(r.store, key, h, k) == Found(r.index))
    decreases Pow2(s.exponent) + 1 - k
  {
    if k <= Pow2(s.exponent) {
      var p := Probe(h, s.exponent, k);
      var r := AddScan(s, key, value, h, k, del);
      if s.slots[p].Deleted? {
        AddScanInserted(s, key, value, h, k + 1, if del.Some? then del else Some(p));
      } else if s.slots[p].Used? && s.slots[p].key != key {
        AddScanInserted(s, key, value, h, k + 1, del);
        if r.Inserted? && del.None? {
          assert r.store.slots[p] == s.slots[p];
        }
      }
    }
  }

  /** Filling a slot the lookup for another key passes (or never reaches)
      leaves that lookup's answer alone. */
  lemma {:induction false} GetScanFrame(s: Store, t: Store, key: seq<u8>, h: u64, k: nat, i: nat, other: Slot)
    requires Shaped(s) && k >= 1 && i < |s.slots| && !s.slots[i].Used?
    requires other.Used? && other.key != key
    requires t.exponent == s.exponent && t.slots == s.slots[i := other]
    requires GetScan(s, key, h, k).Found?
    ensures GetScan(t, key, h, k) == GetScan(s, key, h, k)
    decreases Pow2(s.exponent) + 1 - k
  {
    var p := Probe(h, s.exponent, k);
    if !(s.slots[p].Used? && s.slots[p].key == key) {
      GetScanFrame(s, t, key, h, k + 1, i, other);
    }
  }

  /* ---------------------------------------------------------------------- */
  /*  Lookup and insertion on a valid table                                  */
  /* ---------------------------------------------------------------------- */

  /** On a valid table the lookup finds a key exactly when the table holds
      it, at a slot holding its value, and otherwise reports a miss. */
  lemma GetSpec(s: Store, hf: seq<u8> -> u64, key: seq<u8>)
    requires Valid(s, hf)
    ensures var g := GetScan(s, key, hf(key), 1);
            && (g.Found? <==> key in Contents(s.slots))
            && (g.Found? ==> g.index < |s.slots| && s.slots[g.index] == Used(key, Contents(s.slots)[key]))
            && (!g.Found? ==> g.Missing?)
  {
    var g := GetScan(s, key, hf(key), 1);
    GetScanSound(s, key, hf(key), 1);
    ContentsHas(s.slots, key);
    if g.Found? {
      ContentsValue(s.slots, g.index);
    }
    if key in Contents(s.slots) {
      var i :| 0 <= i < |s.slots| && s.slots[i].Used? && s.slots[i].key == key;
      assert GetScan(s, s.slots[i].key, hf(s.slots[i].key), 1) == Found(i);
    }
  }

  /** The lookup as written finds every held key at a slot holding its
      value, and never returns for a key the table does not hold. */
  lemma GetAsWrittenSpec(s: Store, hf: seq<u8> -> u64, key: seq<u8>)
    requires Valid(s, hf)
    ensures var g := GetScanAsWritten(s, key, hf(key), 1);
            && (key in Contents(s.slots) ==>
                  g.Found? && g.index < |s.slots| && s.slots[g.index] == Used(key, Contents(s.slots)[key]))
            && (key !in Contents(s.slots) ==> g.Diverges?)
  {
    var g := GetScanAsWritten(s, key, hf(key), 1);
    GetSpec(s, hf, key);
    AsWrittenSound(s, key, hf(key), 1);
    ContentsHas(s.slots, key);
    if key in Contents(s.slots) {
      AsWrittenAgrees(s, key, hf(key), 1);
    }
  }

  /** A key the table does not hold is in none of its slots. */
  lemma AbsentNowhere(s: Store, key: seq<u8>)
    requires key !in Contents(s.slots)
    ensures forall j :: 0 <= j < |s.slots| && s.slots[j].Used? ==> s.slots[j].key != key
  {
    ContentsHas(s.slots, key);
  }

  /** On a valid table insertion always stops: the load cap leaves an EMPTY
      slot and the probe sequence visits every slot. */
  lemma NeverCycles(s: Store, hf: seq<u8> -> u64, key: seq<u8>, value: seq<u8>)
    requires Valid(s, hf)
    ensures !AddRaw(s, key, value, hf(key)).Cycles?
  {
    if AddRaw(s, key, value, hf(key)).Cycles? {
      MaxLoadBelow(s.exponent);
      var i := EmptyExists(s.slots);
      var k := ProbeCovers(hf(key), s.exponent, i);
      AddScanCycles(s, key, value, hf(key), 1, None);
    }
  }

  /** Writing an absent key keeps the table valid and adds exactly that
      pair. */
  lemma InsertKeeps(s: Store, hf: seq<u8> -> u64, key: seq<u8>, value: seq<u8>)
    requires Valid(s, hf) && key !in Contents(s.slots)
    requires AddRaw(s, key, value, hf(key)).Inserted?
    ensures var t := AddRaw(s, key, value, hf(key)).store;
            && Valid(t, hf) && t.exponent == s.exponent && t.count == s.count + 1
            && Contents(t.slots) == Contents(s.slots)[key := value]
  {
    var h := hf(key);
    var r := AddRaw(s, key, value, h);
    var t := r.store;
    var i := r.index;
    AddScanInserted(s, key, value, h, 1, None);
    AbsentNowhere(s, key);
    ContentsUpdate(s.slots, i, key, value);
    assert Shaped(t);
    assert UniqueKeys(t.slots) by {
      forall a, b | 0 <= a < b < |t.slots| && t.slots[a].Used? && t.slots[b].Used?
        ensures t.slots[a].key != t.slots[b].key
      {
        if a != i && b != i {
          assert t.slots[a] == s.slots[a] && t.slots[b] == s.slots[b];
        }
      }
    }
    assert Reachable(t, hf) by {
      forall j | 0 <= j < |t.slots| && t.slots[j].Used?
        ensures GetScan(t, t.slots[j].key, hf(t.slots[j].key), 1) == Found(j)
      {
        if j != i {
          var kj := s.slots[j].key;
          assert GetScan(s, kj, hf(kj), 1) == Found(j);
          GetScanFrame(s, t, kj, hf(kj), 1, i, Used(key, value));
        }
      }
    }
  }

  /** `cflat__hashtable_add_raw` on a valid table: it finds a held key
      (leaving its value alone), returns NULL exactly when an absent key
      meets the load cap, and otherwise adds the pair, keeping the table
      valid. */
  lemma AddRawSpec(s: Store, hf: seq<u8> -> u64, key: seq<u8>, value: seq<u8>)
    requires Valid(s, hf)
    ensures var r := AddRaw(s, key, value, hf(key));
            && !r.Cycles?
            && (r.Present? <==> key in Contents(s.slots))
            && (r.Present? ==> r.index < |s.slots| && s.slots[r.index] == Used(key, Contents(s.slots)[key]))
            && (r.Refused? <==> key !in Contents(s.slots) && s.count + 1 > MaxLoad(s.exponent))
            && (r.Inserted? ==>
                  && Valid(r.store, hf) && r.store.exponent == s.exponent && r.store.count == s.count + 1
                  && Contents(r.store.slots) == Contents(s.slots)[key := value])
  {
    var r := AddRaw(s, key, value, hf(key));
    NeverCycles(s, hf, key, value);
    AddScanMirror(s, key, value, hf(key), 1, None);
    AddScanInserted(s, key, value, hf(key), 1, None);
    GetSpec(s, hf, key);
    if r.Inserted? {
      InsertKeeps(s, hf, key, value);
    }
  }

  /* ---------------------------------------------------------------------- */
  /*  Creating and resizing                                                  */
  /* ---------------------------------------------------------------------- */

  /** The table `cflat_hashtable_new_opt` builds: `next_pow2(capacity)`
      EMPTY slots, the exponent `cflat_log2_u64` of that, no entries. */
  function NewStore(capacity: u64): (s: Store)
    ensures |s.slots| == NextPow2U64(capacity) && s.count == 0
    ensures forall i :: 0 <= i < |s.slots| ==> s.slots[i].Empty?
  {
    var n := NextPow2U64(capacity);
    Store(Log2U64(n), 0, seq(n, _ => Empty))
  }

  /** Slots none of which is USED hold nothing. */
  lemma {:induction false} NothingUsed(slots: seq<Slot>)
    requires forall i :: 0 <= i < |slots| ==> !slots[i].Used?
    ensures CountUsed(slots) == 0 && Contents(slots) == map[]
    decreases |slots|
  {
    if slots != [] {
      NothingUsed(slots[..|slots| - 1]);
    }
  }

  /** A power of two below `2^33` is `Pow2` of its logarithm, at most 32. */
  lemma PowerOfTwoExponent(n: nat)
    requires IsPowerOfTwo(n) && n < 0x2_0000_0000
    ensures n >= 1 && Log2Floor(n) <= 32 && n == Pow2(Log2Floor(n))
  {
    var k: nat :| n == Pow2(k);
    Pow2Between(k, Log2Floor(n));
    Pow2Of32();
    if k > 32 {
      Pow2Monotone(33, k);
    }
  }

  /** The exponent and slot count of a new table. */
  lemma NewStoreView(capacity: u64) returns (n: u64, e: u64)
    ensures n == NextPow2U64(capacity) && e == Log2U64(n)
    ensures NewStore(capacity) == Store(e, 0, seq(n, _ => Empty))
  {
    n := NextPow2U64(capacity);
    e := Log2U64(n);
  }

  /** Up to `2^32` requested slots, the new table has `Pow2(exponent)`
      slots, at least as many as requested and fewer than twice as many. */
  lemma NewStoreShaped(capacity: u64)
    requires capacity <= 0x1_0000_0000
    ensures var s := NewStore(capacity);
            && Shaped(s) && capacity <= |s.slots| && (capacity <= 1 || |s.slots| < 2 * capacity)
  {
    var n, e := NewStoreView(capacity);
    if capacity == 0 {
      ShapeOfOne(n, e);
    } else {
      ShapeOfPower(capacity, n, e);
    }
  }

  lemma ShapeOfOne(n: u64, e: u64)
    requires n == 1 && e == Log2U64(n)
    ensures e == 0 && Pow2(e) == n
  {
  }

  lemma ShapeOfPower(capacity: nat, n: u64, e: u64)
    requires 0 < capacity <= 0x1_0000_0000 && capacity <= n < 2 * capacity && IsPowerOfTwo(n)
    requires e == Log2U64(n)
    ensures e <= 32 && Pow2(e) == n
  {
    PowerOfTwoExponent(n);
  }

  /** Up to `2^32` requested slots, the new table is a valid empty table
      of at least that capacity, the least power of two not below it. */
  lemma NewStoreValid(capacity: u64, hf: seq<u8> -> u64)
    requires capacity <= 0x1_0000_0000
    ensures var s := NewStore(capacity);
            && Valid(s, hf) && Contents(s.slots) == map[]
            && capacity <= |s.slots| && (capacity <= 1 || |s.slots| < 2 * capacity)
  {
    NewStoreShaped(capacity);
    NothingUsed(NewStore(capacity).slots);
  }

  /** The new table of a power-of-two capacity has exactly that many
      slots. */
  lemma NewStoreOfPow2(e: nat)
    requires e <= 32
    ensures Pow2(e) <= 0x1_0000_0000
    ensures NewStore(Pow2(e)).exponent == e
  {
    Pow2Monotone(e, 32);
    Pow2Of32();
    Pow2Monotone(1, e + 1);
    assert IsPowerOfTwo(Pow2(e));
    NextPow2U64Unique(Pow2(e), Pow2(e));
    Pow2Between(e, Log2Floor(Pow2(e)));
  }

  /** Doubling the slots raises the load cap by at least one. */
  lemma MaxLoadDoubles(e: nat)
    requires e < 32
    ensures MaxLoad(e) + 1 <= MaxLoad(e + 1)
  {
    MaxLoadBelow(e);
    MaxLoadBelow(e + 1);
    Pow2Monotone(0, e);
    assert Pow2(e + 1) == 2 * Pow2(e);
  }

  /** Past `2^63` requested slots `next_pow2` wraps to zero: the table
      claims `2^63` slots and has none. */
  lemma NewStoreHuge(capacity: u64)
    requires capacity > 0x8000_0000_0000_0000
    ensures NewStore(capacity).exponent == 63 && NewStore(capacity).slots == []
  {
  }

  /** The loop of `cflat_hashtable_resize`: the USED slots of `src` from
      `i` on are added to `t` in slot order; `None` when an addition never
      stops. */
  function Rehash(src: seq<Slot>, t: Store, hf: seq<u8> -> u64, i: nat): (r: Option<Store>)
    requires Shaped(t) && i <= |src|
    ensures r.Some? ==> Shaped(r.value) && r.value.exponent == t.exponent
    decreases |src| - i
  {
    if i == |src| then Some(t)
    else if !src[i].Used? then Rehash(src, t, hf, i + 1)
    else
      match AddRaw(t, src[i].key, src[i].value, hf(src[i].key))
      case Inserted(u, _) => Rehash(src, u, hf, i + 1)
      case Cycles => None
      case _ => Rehash(src, t, hf, i + 1)
  }

  /** A key held in a prefix of slots with distinct keys is not held again
      later. */
  lemma UniqueAfter(src: seq<Slot>, i: nat)
    requires UniqueKeys(src) && i < |src| && src[i].Used?
    ensures src[i].key !in Contents(src[..i])
  {
    ContentsHas(src[..i], src[i].key);
    forall j | 0 <= j < i && src[..i][j].Used?
      ensures src[..i][j].key != src[i].key
    {
      assert src[..i][j] == src[j];
    }
  }

  /** Rehashing into a valid table always stops and keeps it valid; every
      pair it ends up with comes from `src` (entries past the load cap are
      dropped). */
  lemma {:induction false} RehashSafe(src: seq<Slot>, t: Store, hf: seq<u8> -> u64, i: nat)
    requires Valid(t, hf) && i <= |src| && UniqueKeys(src)
    requires forall key :: key in Contents(t.slots) ==> key in Contents(src) && Contents(t.slots)[key] == Contents(src)[key]
    ensures var r := Rehash(src, t, hf, i);
            && r.Some? && Valid(r.value, hf)
            && forall key :: key in Contents(r.value.slots) ==>
                 key in Contents(src) && Contents(r.value.slots)[key] == Contents(src)[key]
    decreases |src| - i
  {
    if i < |src| {
      if src[i].Used? {
        var key, value := src[i].key, src[i].value;
        AddRawSpec(t, hf, key, value);
        var r := AddRaw(t, key, value, hf(key));
        if r.Inserted? {
          ContentsValue(src, i);
          RehashSafe(src, r.store, hf, i + 1);
        } else {
          RehashSafe(src, t, hf, i + 1);
        }
      } else {
        RehashSafe(src, t, hf, i + 1);
      }
    }
  }

  /** Rehashing into a valid table with room for every entry of `src`
      gives a table holding exactly the pairs of `src`. */
  lemma {:induction false} RehashComplete(src: seq<Slot>, t: Store, hf: seq<u8> -> u64, i: nat)
    requires Valid(t, hf) && i <= |src| && UniqueKeys(src)
    requires Contents(t.slots) == Contents(src[..i]) && t.count == CountUsed(src[..i])
    requires CountUsed(src) <= MaxLoad(t.exponent)
    ensures var r := Rehash(src, t, hf, i);
            && r.Some? && Valid(r.value, hf)
            && Contents(r.value.slots) == Contents(src) && r.value.count == CountUsed(src)
    decreases |src| - i
  {
    if i == |src| {
      assert src[..i] == src;
    } else {
      PrefixStep(src, i);
      CountPrefix(src, i + 1);
      if src[i].Used? {
        var key, value := src[i].key, src[i].value;
        UniqueAfter(src, i);
        AddRawSpec(t, hf, key, value);
        var r := AddRaw(t, key, value, hf(key));
        RehashComplete(src, r.store, hf, i + 1);
      } else {
        RehashComplete(src, t, hf, i + 1);
      }
    }
  }

  /** `cflat_hashtable_resize` on a table: the src entries added, in slot
      order, to a new table of `next_pow2(capacity)` slots. */
  function ResizeStore(s: Store, capacity: u64, hf: seq<u8> -> u64): (r: Option<Store>)
    requires capacity <= 0x1_0000_0000
    ensures r.Some? ==> Shaped(r.value) && r.value.exponent == NewStore(capacity).exponent
  {
    NewStoreValid(capacity, hf);
    Rehash(s.slots, NewStore(capacity), hf, 0)
  }

  /** Resizing a valid table gives a valid table with no pair it did not
      hold; when the new load cap leaves room for every entry, it holds the
      same pairs. */
  lemma ResizeSpec(s: Store, capacity: u64, hf: seq<u8> -> u64)
    requires Valid(s, hf) && capacity <= 0x1_0000_0000
    ensures var r := ResizeStore(s, capacity, hf);
            && r.Some? && Valid(r.value, hf)
            && (forall key :: key in Contents(r.value.slots) ==>
                  key in Contents(s.slots) && Contents(r.value.slots)[key] == Contents(s.slots)[key])
            && (s.count <= MaxLoad(r.value.exponent) ==>
                  Contents(r.value.slots) == Contents(s.slots) && r.value.count == s.count)
  {
    var t := NewStore(capacity);
    NewStoreValid(capacity, hf);
    RehashSafe(s.slots, t, hf, 0);
    if s.count <= MaxLoad(t.exponent) {
      assert s.slots[..0] == [];
      NothingUsed(s.slots[..0]);
      RehashComplete(s.slots, t, hf, 0);
    }
  }
}
