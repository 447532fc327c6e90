/** The LRU cache of `LRUCache.java` as an immutable state record with one
    pure transition per public operation. The persister is the concrete
    key-to-item map of `SimpleFakePersister`, held inside the state. */
module LruCache {
  import opened Wrappers
  import opened Recency
  import opened FakePersister

  /** A cache bound that insertion can honour. */
  type Capacity = n: int | 0 < n witness 1

  /** `IllegalArgumentException` from the constructor. */
  datatype CacheError = InvalidCapacity

  /** The fields of `LRUCache`: the bound, the resident items, the recency
      list (front = most recently used), the two statistics counters and the
      persister behind the cache. */
  datatype Cache<K, V> = Cache(
    size: Capacity,
    itemMap: map<K, Item<K, V>>,
    lruList: seq<K>,
    accessNo: nat,
    faultNo: nat,
    persister: Store<K, V>)

  /** The cache after an operation together with the item it returned
      (`None` for Java's `null`). */
  datatype Reply<K, V> = Reply(next: Cache<K, V>, item: Option<Item<K, V>>)

  function Max(a: int, b: int): int
  {
    if a < b then b else a
  }

  /** The bookkeeping invariant every public operation keeps:
      the recency list holds each resident key exactly once, and the
      resident map is a window onto the persister (same items under the same
      keys), which files every item under its own key. */
  ghost predicate Valid<K, V>(c: Cache<K, V>)
  {
    && NoDup(c.lruList)
    && c.itemMap.Keys == Elems(c.lruList)
    && KeysConsistent(c.persister)
    && forall k :: k in c.itemMap ==> k in c.persister && c.itemMap[k] == c.persister[k]
  }

  /** No more keys are resident than the bound allows. */
  predicate WithinBound<K, V>(c: Cache<K, V>)
  {
    |c.lruList| <= c.size
  }

  /** The constructor: a zero bound is refused explicitly and a negative one
      by the `HashMap` capacity argument; otherwise the cache starts empty
      with both counters at zero over the given persister. */
  function Create<K, V>(size: int, persister: Store<K, V>): (r: Result<Cache<K, V>, CacheError>)
    ensures r.Failure? <==> size <= 0
    ensures r.Success? ==>
      && r.value.size == size && r.value.persister == persister
      && r.value.itemMap == map[] && r.value.lruList == []
      && r.value.accessNo == 0 && r.value.faultNo == 0
    ensures r.Success? ==> WithinBound(r.value) && (Valid(r.value) <==> KeysConsistent(persister))
  {
    if size <= 0 then Failure(InvalidCapacity)
    else Success(Cache(size, map[], [], 0, 0, persister))
  }

  /** `modifySize`: replaces the bound and evicts nothing, even when more
      keys are resident than the new bound allows. */
  function ModifySize<K, V>(c: Cache<K, V>, newSize: Capacity): (r: Cache<K, V>)
    ensures r.size == newSize
    ensures r.itemMap == c.itemMap && r.lruList == c.lruList && r.persister == c.persister
    ensures r.accessNo == c.accessNo && r.faultNo == c.faultNo
    ensures Valid(c) ==> Valid(r)
    ensures WithinBound(r) <==> |c.lruList| <= newSize
  {
    c.(size := newSize)
  }

  /** `resetFaultRateStats`: both counters back to zero, nothing else changes. */
  function ResetFaultRateStats<K, V>(c: Cache<K, V>): (r: Cache<K, V>)
    ensures r.faultNo == 0 && r.accessNo == 0
    ensures r.size == c.size && r.itemMap == c.itemMap && r.lruList == c.lruList
    ensures r.persister == c.persister
    ensures Valid(c) ==> Valid(r)
  {
    c.(faultNo := 0, accessNo := 0)
  }

  /** The eviction step shared by `getItem` and `putItem`: once the list has
      reached the bound, the least-recently-used key leaves memory (list and
      map alike) while the persister keeps its copy. Afterwards there is
      always room for one more key. */
  function MakeRoom<K, V>(c: Cache<K, V>): (r: Cache<K, V>)
    ensures r.size == c.size && r.persister == c.persister
    ensures r.accessNo == c.accessNo && r.faultNo == c.faultNo
    ensures |r.lruList| < Max(c.size, |c.lruList|)
    ensures |c.lruList| < c.size ==> r == c
    ensures |c.lruList| >= c.size ==>
      && r.lruList == DropLast(c.lruList)
      && r.itemMap == c.itemMap - {Last(c.lruList)}
  {
    if |c.lruList| >= c.size then
      c.(itemMap := c.itemMap - {Last(c.lruList)}, lruList := DropLast(c.lruList))
    else c
  }

  /** `getItem(key)`. A resident key is promoted to the front and its item
      returned, with no counter changing. A key only the persister holds is
      a fault: `faultNo` goes up by one, the coldest key is evicted when the
      cache is full, and the stored item is brought in at the front. A key
      held nowhere yields `None` and leaves the cache as it was. The
      persister is never written. */
  function GetItem<K, V>(c: Cache<K, V>, key: K): (r: Reply<K, V>)
    ensures r.next.size == c.size && r.next.persister == c.persister
    ensures r.next.accessNo == c.accessNo
    ensures r.item.None? <==> key !in c.itemMap && key !in c.persister
    ensures r.item.None? ==> r.next == c
    ensures r.item.Some? ==>
      && |r.next.lruList| > 0 && r.next.lruList[0] == key
      && key in r.next.itemMap && r.next.itemMap[key] == r.item.value
    // a hit
    ensures key in c.itemMap ==>
      && r.item == Some(c.itemMap[key])
      && r.next.itemMap == c.itemMap && r.next.faultNo == c.faultNo
      && r.next.lruList[1..] == RemoveFirst(c.lruList, key)
    // a fault
    ensures key !in c.itemMap && key in c.persister ==>
      && r.item == Some(c.persister[key])
      && r.next.faultNo == c.faultNo + 1
      && (forall k :: k in r.next.itemMap && k != key ==> k in c.itemMap && r.next.itemMap[k] == c.itemMap[k])
    ensures key !in c.itemMap && key in c.persister && |c.lruList| >= c.size ==>
      && r.next.lruList == [key] + DropLast(c.lruList)
      && r.next.itemMap.Keys == c.itemMap.Keys - {Last(c.lruList)} + {key}
    ensures key !in c.itemMap && key in c.persister && |c.lruList| < c.size ==>
      && r.next.lruList == [key] + c.lruList
      && r.next.itemMap.Keys == c.itemMap.Keys + {key}
  {
    if key in c.itemMap then
      Reply(c.(lruList := Promote(c.lruList, key)), Some(c.itemMap[key]))
    else
      match GetValue(c.persister, key)
      case Some(stored) =>
        var e := MakeRoom(c);
        Reply(e.(lruList := [key] + e.lruList,
                 itemMap := e.itemMap[key := stored],
                 faultNo := c.faultNo + 1),
              Some(stored))
      case None => Reply(c, None)
  }

  /** `putItem(item)`. A first write (the persister lacks the key) persists
      the item, evicts the coldest key from memory only when the cache is
      full, and puts the item at the front. A redundant write only counts an
      access: the new payload is written nowhere. */
  function PutItem<K, V>(c: Cache<K, V>, item: Item<K, V>): (r: Cache<K, V>)
    ensures r.size == c.size
    // a redundant write
    ensures item.key in c.persister ==>
      && r.accessNo == c.accessNo + 1 && r.faultNo == c.faultNo
      && r.lruList == c.lruList && r.itemMap == c.itemMap && r.persister == c.persister
    // a first write
    ensures item.key !in c.persister ==>
      && r.persister == c.persister[item.key := item]
      && r.accessNo == c.accessNo && r.faultNo == c.faultNo
      && |r.lruList| > 0 && r.lruList[0] == item.key
      && item.key in r.itemMap && r.itemMap[item.key] == item
      && (forall k :: k in r.itemMap && k != item.key ==> k in c.itemMap && r.itemMap[k] == c.itemMap[k])
    ensures item.key !in c.persister && |c.lruList| >= c.size ==>
      && r.lruList == [item.key] + DropLast(c.lruList)
      && r.itemMap.Keys == c.itemMap.Keys - {Last(c.lruList)} + {item.key}
    ensures item.key !in c.persister && |c.lruList| < c.size ==>
      && r.lruList == [item.key] + c.lruList
      && r.itemMap.Keys == c.itemMap.Keys + {item.key}
  {
    if GetValue(c.persister, item.key).None? then
      var e := MakeRoom(c.(persister := PersistValue(c.persister, item)));
      e.(lruList := [item.key] + e.lruList, itemMap := e.itemMap[item.key := item])
    else
      c.(accessNo := c.accessNo + 1)
  }

  /** `removeItem(key)`. Only a resident key is removed, and then from the
      map, the list and the persister; the item it held is returned. A key
      that is not resident yields `None` and the persister is not consulted,
      even if it holds the key. */
  function RemoveItem<K, V>(c: Cache<K, V>, key: K): (r: Reply<K, V>)
    ensures r.next.size == c.size
    ensures r.next.accessNo == c.accessNo && r.next.faultNo == c.faultNo
    ensures r.item.Some? <==> key in c.itemMap
    ensures key !in c.itemMap ==> r.next == c
    ensures key in c.itemMap ==>
      && r.item.value == c.itemMap[key]
      && r.next.itemMap == c.itemMap - {key}
      && r.next.lruList == RemoveFirst(c.lruList, key)
      && r.next.persister.Keys == c.persister.Keys - {key}
      && (forall k :: k in r.next.persister ==> r.next.persister[k] == c.persister[k])
  {
    if key in c.itemMap then
      Reply(c.(itemMap := c.itemMap - {key},
               lruList := RemoveFirst(c.lruList, key),
               persister := RemoveValue(c.persister, key).store),
            Some(c.itemMap[key]))
    else
      Reply(c, None)
  }

  /** The eviction step exactly as written, over the unchecked `int` bound
      that `modifySize` accepts: with a bound of zero or less and an empty
      list, `lruList.get(lruList.size() - 1)` reads index -1 and throws. */
  function MakeRoomAsWritten<K, V>(lruList: seq<K>, itemMap: map<K, Item<K, V>>, size: int)
    : (r: Option<(seq<K>, map<K, Item<K, V>>)>)
    ensures r.None? <==> |lruList| == 0 && size <= 0
    ensures r.Some? && |lruList| >= size ==> r.value.0 == DropLast(lruList)
  {
    if |lruList| >= size then
      if |lruList| == 0 then None
      else Some((DropLast(lruList), itemMap - {Last(lruList)}))
    else Some((lruList, itemMap))
  }
}
