/**
 * The key index of a map as values: a map from keys to slots of a backing sequence. The
 * entries of the map are the keys with the values in their slots; overwriting, appending
 * and tombstoning a slot act on the entries as a map update, a map insertion and a key
 * removal.
 */
module KeySlots {

  /** Every slot is within the store, and no two keys share a slot. */
  ghost predicate WellIndexed<T>(slots: map<string, nat>, store: seq<T>)
  {
    && (forall k :: k in slots ==> slots[k] < |store|)
    && (forall k, k' :: k in slots && k' in slots && k != k' ==> slots[k] != slots[k'])
  }

  /** Each indexed key with the value held in its slot. */
  ghost function EntriesOf<T>(slots: map<string, nat>, store: seq<T>): (m: map<string, T>)
    requires forall k :: k in slots ==> slots[k] < |store|
    ensures m.Keys == slots.Keys
  {
    map k | k in slots :: store[slots[k]]
  }

  /** Writing a key's own slot updates that key's entry and no other. */
  lemma Overwrite<T>(slots: map<string, nat>, store: seq<T>, key: string, value: T)
    requires WellIndexed(slots, store) && key in slots
    ensures WellIndexed(slots, store[slots[key] := value])
    ensures EntriesOf(slots, store[slots[key] := value]) == EntriesOf(slots, store)[key := value]
  {
    var updated := store[slots[key] := value];
    var before, after := EntriesOf(slots, store), EntriesOf(slots, updated);
    forall k | k in slots
      ensures after[k] == before[key := value][k]
    {
      if k != key {
        assert slots[k] != slots[key];
      }
    }
  }

  /** A new key indexed at the end of the store, its value appended, adds exactly that entry. */
  lemma Append<T>(slots: map<string, nat>, store: seq<T>, key: string, value: T)
    requires WellIndexed(slots, store) && key !in slots
    ensures WellIndexed(slots[key := |store|], store + [value])
    ensures EntriesOf(slots[key := |store|], store + [value]) == EntriesOf(slots, store)[key := value]
  {
    var slots', store' := slots[key := |store|], store + [value];
    forall k, k' | k in slots' && k' in slots' && k != k'
      ensures slots'[k] != slots'[k']
    {
      if k != key && k' != key {
        assert slots'[k] == slots[k] && slots'[k'] == slots[k'];
      }
    }
    var before, after := EntriesOf(slots, store), EntriesOf(slots', store');
    forall k | k in slots'
      ensures after[k] == before[key := value][k]
    {
      if k != key {
        assert store'[slots[k]] == store[slots[k]];
      }
    }
  }

  /** Unindexing a key and overwriting its slot with a tombstone removes exactly that entry. */
  lemma Tombstone<T>(slots: map<string, nat>, store: seq<T>, key: string, tombstone: T)
    requires WellIndexed(slots, store) && key in slots
    ensures WellIndexed(slots - {key}, store[slots[key] := tombstone])
    ensures EntriesOf(slots - {key}, store[slots[key] := tombstone]) == EntriesOf(slots, store) - {key}
  {
    var slots', store' := slots - {key}, store[slots[key] := tombstone];
    var before, after := EntriesOf(slots, store), EntriesOf(slots', store');
    forall k | k in slots'
      ensures after[k] == before[k]
    {
      assert slots[k] != slots[key];
    }
  }

  /** Putting back one of the removed keys of `m` removes one key fewer. */
  lemma Restore<K, V>(m: map<K, V>, removed: set<K>, key: K)
    requires key in removed && key in m
    ensures (m - removed)[key := m[key]] == m - (removed - {key})
  {
  }

  /** Two maps over the same keys have the same size. */
  lemma SameKeysSameSize<K, V, W>(a: map<K, V>, b: map<K, W>)
    requires a.Keys == b.Keys
    ensures |a| == |b|
  {
    assert |a| == |a.Keys| && |b| == |b.Keys|;
  }
}
