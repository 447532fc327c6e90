# LRU cache bookkeeping, modelled in Dafny

This project models the bookkeeping core of `LRUCache`, a bounded in-memory
cache with least-recently-used eviction that sits in front of a persister (a
key-to-item backing store). The model has four parts:

- **Cache state.** `LruCache.Cache` is an immutable record. It holds the bound
  (`size`), the resident map (`itemMap`) and the recency list (`lruList`,
  most recently used first). It also holds the counters `accessNo` and
  `faultNo`, and the persister itself.
- **Operations.** `getItem`, `putItem`, `removeItem`, `modifySize`,
  `resetFaultRateStats` and the constructor are pure transitions. An
  operation that returns an item yields a `Reply`: the next state plus an
  `Option` standing for Java's possibly-`null` return.
- **Persister.** It is the concrete map of `SimpleFakePersister`
  (`FakePersister.Store`), with `persistValue`, `getValue` and `removeValue`
  as functions.
- **Key iteration.** The documented order (most recently used first) is the
  recency list itself. The iterator as written is modelled next to a corrected
  one.

Files and modules:

- `wrappers.dfy` (`Wrappers`): `Option` and `Result`.
- `recency.dfy` (`Recency`): list operations and their duplicate-freedom lemmas.
  - `RemoveFirst` is `List.remove(Object)`.
  - `Promote` is remove-then-insert-at-front.
  - `DropLast` is `remove(size() - 1)`.
- `persister.dfy` (`FakePersister`): items, the store, and the store operations.
- `cache.dfy` (`LruCache`): the cache state and its transitions.
- `properties.dfy` (`CacheProperties`): invariant preservation, the bound,
  transparency, round trip, eviction and persister authority.
- `iterator.dfy` (`KeyIterator`): the key traversal, as written and corrected.
- `runs.dfy` (`CacheRuns`): arbitrary sequences of calls and a worked
  two-item scenario.

`LruCache.Valid` is the invariant that every operation keeps. It has four parts:

- the recency list has no duplicates;
- its keys are exactly the resident map's keys;
- the persister files every item under that item's own key;
- every resident entry is the persister's entry for the same key, so residents
  are a subset of the persisted keys.

The bound `|lruList| <= size` is kept separately (`LruCache.WithinBound`).
The reason is that `modifySize` may shrink the bound below the current
occupancy without evicting anything. After any insertion, the list is never
longer than the larger of the bound and its previous length.

The model follows the code's actual behaviour at these points:

- The constructor rejects a zero bound explicitly. It rejects a negative bound
  only through `new HashMap<>(size)`, which throws `IllegalArgumentException`.
  `LruCache.Create` therefore fails for every `size <= 0`.
- `modifySize` validates nothing in the code. The model takes a positive
  `Capacity`; see Findings.
- A redundant `putItem` only increments `accessNo`. The new payload is written
  nowhere.
- `removeItem` tests `itemMap.get(key) != null`. Resident items are never
  `null`, so this is the same as residency.

## Model

| member | source | states |
|---|---|---|
| FakePersister.PersistValue | SimpleFakePersister.java:12-14 | the item is stored under its own key, replacing any earlier item there; every other key keeps its item |
| FakePersister.GetValue | SimpleFakePersister.java:17-19 | the result is present exactly when the key is stored, and then it is the stored item |
| FakePersister.RemoveValue | SimpleFakePersister.java:22-24 | returns the previous item for the key (absent if none), deletes exactly that key, and leaves every other item as it was |
| FakePersister.GetAfterPersist | SimpleFakePersister.java:12-19 | reading a key right after persisting an item under it returns that item |
| FakePersister.PersistLeavesOthers | SimpleFakePersister.java:12-19 | persisting an item does not change what any other key reads |
| FakePersister.GetAfterRemove | SimpleFakePersister.java:17-24 | after a removal the key reads as absent, and every other key reads as before |
| FakePersister.StoreOpsKeepKeysConsistent | SimpleFakePersister.java:12-24 | persisting and removing keep every item filed under its own key |
| Recency.RemoveFirst | LRUCache.java:76 | removing a present key shortens the list by one and loses no other key; removing an absent key leaves the list unchanged |
| Recency.FirstIndex | LRUCache.java:76 | the position found holds the key and no earlier position does |
| Recency.RemoveFirstCutsFirstOccurrence | LRUCache.java:76 | removing a present key deletes exactly its first occurrence and keeps everything before and after it in order |
| Recency.Promote | LRUCache.java:76-77 | the promoted key ends up at the front and every other key keeps its relative order: a present key is cut from its first position and put in front, an absent key is simply put in front; the set of keys gains only that key |
| Recency.DropLast | LRUCache.java:83-84 | the result is the list minus its back element: one shorter, with that element appended giving the original back |
| Recency.NoDupRemoveFirst | LRUCache.java:123 | removal from a duplicate-free list removes the key completely and keeps the list duplicate-free |
| Recency.PromoteNoDup | LRUCache.java:76-77 | promotion keeps the recency list duplicate-free |
| Recency.PushFrontNoDup | LRUCache.java:86 | inserting a key not yet present at the front keeps the list duplicate-free and adds exactly that key |
| Recency.DropLastNoDup | LRUCache.java:83-84 | dropping the back element keeps the list duplicate-free and removes exactly the least-recently-used key |
| Recency.NoDupCard | LRUCache.java:9-12 | a duplicate-free list has as many distinct keys as elements |
| LruCache.Create | LRUCache.java:47-58 | fails exactly for a non-positive bound; otherwise the cache is empty, has both counters at 0, is within its bound, and is valid exactly when the given persister files items under their own keys |
| LruCache.ModifySize | LRUCache.java:64-66 | only the bound changes and nothing is evicted; validity is kept; the cache is within the new bound exactly when its list fits it |
| LruCache.ResetFaultRateStats | LRUCache.java:151-154 | both counters become 0 and nothing else changes |
| LruCache.MakeRoom | LRUCache.java:82-85 | when the list has reached the bound, only the least-recently-used key leaves the list and the map; the persister and the counters are untouched; afterwards the list is shorter than the larger of the bound and its old length |
| LruCache.GetItem | LRUCache.java:74-92 | a hit returns the resident item, moves the key to the front and changes no map entry or counter; a fault returns the persister's item, adds exactly 1 to faultNo, evicts the last key only when full, and puts the key at the front; a key held nowhere returns absent and changes nothing; the persister and accessNo never change |
| LruCache.PutItem | LRUCache.java:98-111 | a first write persists the item, evicts only the last key from memory when full, and leaves the key at the front mapped to the item, with the counters unchanged; a redundant write adds exactly 1 to accessNo and changes nothing else |
| LruCache.RemoveItem | LRUCache.java:119-129 | a resident key is removed from the map, the list and the persister, and its item is returned; a non-resident key returns absent and changes nothing, not even the persister |
| LruCache.MakeRoomAsWritten | LRUCache.java:82-84 | the eviction step over an unchecked int bound fails exactly when the list is empty and the bound is not positive |
| CacheProperties.MakeRoomKeepsValid | LRUCache.java:82-85 | eviction keeps the invariant, and an evicted key is still held by the persister |
| CacheProperties.PushFrontKeepsValid | LRUCache.java:86-87 | bringing a persisted, non-resident key in at the front keeps the invariant |
| CacheProperties.GetItemKeepsValid | LRUCache.java:74-92 | getItem keeps the invariant |
| CacheProperties.PutItemKeepsValid | LRUCache.java:98-111 | putItem keeps the invariant |
| CacheProperties.RemoveItemKeepsValid | LRUCache.java:119-129 | removeItem keeps the invariant, and the removed key leaves the recency list |
| CacheProperties.ResidentCount | LRUCache.java:9-12 | under the invariant, the recency list is as long as the resident map is large |
| CacheProperties.GetItemBound | LRUCache.java:82-86 | after getItem, the list is no longer than the larger of the bound and its old length, and a cache within its bound stays within it |
| CacheProperties.PutItemBound | LRUCache.java:101-105 | the same bound holds for putItem |
| CacheProperties.RemoveItemBound | LRUCache.java:119-129 | removeItem never lengthens the list |
| CacheProperties.GetItemReadsPersister | LRUCache.java:70-92 | getItem returns exactly what the persister holds for the key, whether or not it was evicted |
| CacheProperties.PutThenGet | LRUCache.java:74-107 | after a first write, reading that key returns the written item from memory, without a fault |
| CacheProperties.RemoveThenGet | LRUCache.java:74-129 | after removing a resident key, reading it returns absent and changes nothing, since the persister no longer holds it |
| CacheProperties.PutItemEvictsColdest | LRUCache.java:101-106 | a first write on a full cache removes exactly the least-recently-used key from memory, and the persister keeps that key's item |
| CacheProperties.GetItemEvictsColdest | LRUCache.java:82-87 | a fault on a full cache removes the least-recently-used key from memory, and the persister keeps that key's item |
| CacheProperties.OnlyRemoveDeletesFromPersister | LRUCache.java:64-111 | getItem and putItem never delete a persisted key; modifySize and resetFaultRateStats never change the persisted keys |
| CacheProperties.MakeRoomAsWrittenAgrees | LRUCache.java:82-84 | the eviction step as written agrees with the modelled one whenever the bound is positive |
| CacheProperties.ZeroSizeInsertionFails | LRUCache.java:64-66 | with a bound of 0 and an empty list, the eviction step as written fails |
| KeyIterator.HasNext | LRUCache.java:25-27 | true exactly while the position is before the end of the list: then a read at the position yields a cached key, otherwise no key is left |
| KeyIterator.NextAsWritten | LRUCache.java:30-38 | next() as written returns null past the end, throws at the last position, and otherwise returns the key one past its position |
| KeyIterator.DrainAsWrittenSkipsFirst | LRUCache.java:22-38 | a traversal with the iterator as written yields every key after the starting one and then throws |
| KeyIterator.SingleKeyTraversalAsWritten | LRUCache.java:22-38 | on a one-key cache, the traversal as written yields nothing and throws |
| KeyIterator.Next | LRUCache.java:17-21 | the corrected next() yields the key at its position and advances by one, exactly while keys remain |
| KeyIterator.CacheKeys | LRUCache.java:17-21 | the documented key order lists every resident key exactly once |
| KeyIterator.IterateKeys | LRUCache.java:135-137 | a full traversal with the corrected iterator yields the keys in the documented order, most recently used first |
| KeyIterator.GetItemLeadsTraversal | LRUCache.java:74-88 | after a successful getItem, key iteration starts at that key |
| CacheRuns.ApplyKeepsValid | LRUCache.java:64-154 | every public call keeps the invariant |
| CacheRuns.RunKeepsValid | LRUCache.java:64-154 | any sequence of calls keeps the invariant |
| CacheRuns.RunKeepsBound | LRUCache.java:74-154 | with no resize in between, any sequence of calls keeps a cache within its bound |
| CacheRuns.RunWithoutRemoveKeepsPersisted | LRUCache.java:74-111 | without removeItem, no key ever leaves the persister, whatever is evicted from memory |
| CacheRuns.Scenario | LRUCache.java:74-129 | worked example with bound 2: put A, B, C evicts A from memory only; get A is a fault that evicts B and puts A in front; get C moves C to the front; remove A returns A and deletes it from the persister |

## Left out

- `main` (LRUCache.java:156-188): a randomized demo driver with console output, not cache logic.
- `getFaultRatePercent` (LRUCache.java:143-146): floating-point division, which is NaN or Infinity when `accessNo` is 0. The model keeps only the integer counters.
- `Persister.java`: an interface with no logic. The persister is the concrete map of `SimpleFakePersister`, held inside the cache state. The model therefore assumes that only the cache writes to it.
- LruCache.ModifySize: accepts only a positive bound, while the source stores any `int`; see Findings for what a non-positive bound does.
- LruCache.GetItem: `faultNo` is an unbounded `nat`; the Java `int` would wrap after 2^31 - 1 faults.
- LruCache.PutItem: `accessNo` is an unbounded `nat`; the Java `int` would wrap after 2^31 - 1 redundant writes.
- The iterator as a stateful object: a traversal is modelled as reading one list from position 0. A list changed during a traversal is not modelled.
- Java-specific details: unchecked generic casts, `null` as absence (here `Option`), `HashMap` capacity hints, the linear-time `LinkedList.remove(Object)`, and object identity (items are compared as values).
- Concurrency and durability: the code has no locking and no real storage. `SimpleFakePersister` never fails, so persistence errors are not modelled.

## Findings

| source | as written | input that shows it | evidently intended | confidence | as-written member | corrected member |
|---|---|---|---|---|---|---|
| LRUCache.java:31-33 | `next()` increments `pos` before reading, while `hasNext()` still admits `pos == size() - 1` | a cache holding one key: the first `next()` reads index 1 and throws; with more keys, the most recently used key is never returned | read `lruList.get(pos)` and then advance, so a traversal returns every key, most recently used first | high; not executed | KeyIterator.SingleKeyTraversalAsWritten | KeyIterator.IterateKeys |
| LRUCache.java:64-66 | `modifySize` stores any `int`, while eviction assumes a positive bound | `modifySize(0)` on an empty cache, then `putItem` of a new item: `lruList.get(-1)` throws after the item was already persisted | the bound stays positive, so eviction always has a key to drop | high; not executed | CacheProperties.ZeroSizeInsertionFails | LruCache.ModifySize |
