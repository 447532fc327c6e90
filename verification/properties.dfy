/** Properties of the cache transitions: the bookkeeping invariant is kept,
    the bound is kept, the cache never changes what a key reads as, and the
    persister stays the system of record. */
module CacheProperties {
  import opened Wrappers
  import opened Recency
  import opened FakePersister
  import opened LruCache

  /** Eviction keeps the invariant, apart from the key it drops, which
      leaves memory but stays with the persister. */
  lemma MakeRoomKeepsValid<K, V>(c: Cache<K, V>)
    requires Valid(c)
    ensures Valid(MakeRoom(c))
    ensures forall k :: k in c.itemMap && k !in MakeRoom(c).itemMap ==> k in c.persister
  {
    if |c.lruList| >= c.size {
      DropLastNoDup(c.lruList);
    }
  }

  /** Bringing a persisted, non-resident key in at the front keeps the
      invariant. */
  lemma PushFrontKeepsValid<K, V>(c: Cache<K, V>, key: K)
    requires Valid(c) && key in c.persister && key !in c.itemMap
    ensures Valid(c.(lruList := [key] + c.lruList, itemMap := c.itemMap[key := c.persister[key]]))
  {
    PushFrontNoDup(c.lruList, key);
  }

  /** `getItem` keeps the bookkeeping invariant. */
  lemma GetItemKeepsValid<K, V>(c: Cache<K, V>, key: K)
    requires Valid(c)
    ensures Valid(GetItem(c, key).next)
  {
    if key in c.itemMap {
      PromoteNoDup(c.lruList, key);
    } else if key in c.persister {
      MakeRoomKeepsValid(c);
      PushFrontKeepsValid(MakeRoom(c), key);
    }
  }

  /** `putItem` keeps the bookkeeping invariant. */
  lemma PutItemKeepsValid<K, V>(c: Cache<K, V>, item: Item<K, V>)
    requires Valid(c)
    ensures Valid(PutItem(c, item))
  {
    if item.key !in c.persister {
      var p := c.(persister := PersistValue(c.persister, item));
      assert Valid(p);
      MakeRoomKeepsValid(p);
      PushFrontKeepsValid(MakeRoom(p), item.key);
    }
  }

  /** `removeItem` keeps the bookkeeping invariant, and the removed key is
      gone from the recency list. */
  lemma RemoveItemKeepsValid<K, V>(c: Cache<K, V>, key: K)
    requires Valid(c)
    ensures Valid(RemoveItem(c, key).next)
    ensures key !in RemoveItem(c, key).next.lruList
  {
    NoDupRemoveFirst(c.lruList, key);
  }

  /** Under the invariant the recency list is exactly as long as the
      resident map is large. */
  lemma ResidentCount<K, V>(c: Cache<K, V>)
    requires Valid(c)
    ensures |c.itemMap| == |c.lruList|
  {
    NoDupCard(c.lruList);
    assert |c.itemMap| == |c.itemMap.Keys|;
  }

  /** `getItem` never grows the list past the larger of the bound and its
      previous length, so a cache within its bound stays within it. */
  lemma GetItemBound<K, V>(c: Cache<K, V>, key: K)
    requires Valid(c)
    ensures |GetItem(c, key).next.lruList| <= Max(c.size, |c.lruList|)
    ensures WithinBound(c) ==> WithinBound(GetItem(c, key).next)
  {
    if key in c.itemMap {
      assert key in Elems(c.lruList);
    }
  }

  /** `putItem` never grows the list past the larger of the bound and its
      previous length. */
  lemma PutItemBound<K, V>(c: Cache<K, V>, item: Item<K, V>)
    ensures |PutItem(c, item).lruList| <= Max(c.size, |c.lruList|)
    ensures WithinBound(c) ==> WithinBound(PutItem(c, item))
  {
  }

  /** `removeItem` never grows the list. */
  lemma RemoveItemBound<K, V>(c: Cache<K, V>, key: K)
    ensures |RemoveItem(c, key).next.lruList| <= |c.lruList|
    ensures WithinBound(c) ==> WithinBound(RemoveItem(c, key).next)
  {
  }

  /** The cache is transparent: `getItem` returns exactly what the
      persister holds for the key, whether the key is resident or not. */
  lemma GetItemReadsPersister<K, V>(c: Cache<K, V>, key: K)
    requires Valid(c)
    ensures GetItem(c, key).item == GetValue(c.persister, key)
  {
  }

  /** Round trip: after a first write of an item, reading its key returns
      that item, from memory and without a fault. */
  lemma PutThenGet<K, V>(c: Cache<K, V>, item: Item<K, V>)
    requires item.key !in c.persister
    ensures GetItem(PutItem(c, item), item.key).item == Some(item)
    ensures GetItem(PutItem(c, item), item.key).next.faultNo == c.faultNo
  {
  }

  /** Removal is final: once a resident key is removed, reading it finds
      it neither in memory nor in the persister. */
  lemma RemoveThenGet<K, V>(c: Cache<K, V>, key: K)
    requires Valid(c) && key in c.itemMap
    ensures GetItem(RemoveItem(c, key).next, key).item == None
    ensures GetItem(RemoveItem(c, key).next, key).next == RemoveItem(c, key).next
  {
  }

  /** Eviction by a first write on a full cache drops exactly the
      least-recently-used key from memory, and that key's item stays with
      the persister. */
  lemma PutItemEvictsColdest<K, V>(c: Cache<K, V>, item: Item<K, V>)
    requires Valid(c) && item.key !in c.persister && |c.lruList| >= c.size
    ensures Last(c.lruList) !in PutItem(c, item).itemMap
    ensures Last(c.lruList) in PutItem(c, item).persister
    ensures PutItem(c, item).persister[Last(c.lruList)] == c.itemMap[Last(c.lruList)]
    ensures PutItem(c, item).itemMap.Keys == c.itemMap.Keys - {Last(c.lruList)} + {item.key}
  {
    assert Last(c.lruList) in Elems(c.lruList);
  }

  /** The same for a fault on a full cache. */
  lemma GetItemEvictsColdest<K, V>(c: Cache<K, V>, key: K)
    requires Valid(c) && key !in c.itemMap && key in c.persister && |c.lruList| >= c.size
    ensures Last(c.lruList) !in GetItem(c, key).next.itemMap
    ensures Last(c.lruList) in GetItem(c, key).next.persister
    ensures GetItem(c, key).next.persister[Last(c.lruList)] == c.itemMap[Last(c.lruList)]
  {
    assert Last(c.lruList) in Elems(c.lruList);
  }

  /** Persister authority: only `removeItem` deletes from the persister. */
  lemma OnlyRemoveDeletesFromPersister<K, V>(c: Cache<K, V>, key: K, item: Item<K, V>, n: Capacity)
    ensures c.persister.Keys <= GetItem(c, key).next.persister.Keys
    ensures c.persister.Keys <= PutItem(c, item).persister.Keys
    ensures c.persister.Keys == ModifySize(c, n).persister.Keys
    ensures c.persister.Keys == ResetFaultRateStats(c).persister.Keys
  {
  }

  /** The eviction step as written agrees with the modelled one whenever
      the bound is positive. */
  lemma MakeRoomAsWrittenAgrees<K, V>(c: Cache<K, V>)
    ensures MakeRoomAsWritten(c.lruList, c.itemMap, c.size)
         == Some((MakeRoom(c).lruList, MakeRoom(c).itemMap))
  {
  }

  /** The input that shows the unchecked bound: `modifySize(0)` on an empty
      cache, then any insertion, makes the eviction step read index -1. */
  lemma ZeroSizeInsertionFails<K, V>()
    ensures MakeRoomAsWritten<K, V>([], map[], 0) == None
  {
  }
}
