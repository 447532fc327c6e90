/** The backing store: a key-to-item map, as in `SimpleFakePersister`.
    An item is any payload that carries its own key (`Cacheable.getKey`). */
module FakePersister {
  import opened Wrappers

  /** A cacheable item: an opaque payload together with its key. */
  datatype Item<K, V> = Item(key: K, payload: V)

  /** The persister's `localMap`. */
  type Store<K, V> = map<K, Item<K, V>>

  /** The outcome of `removeValue`: the store afterwards and the value that
      was removed, if any. */
  datatype Removal<K, V> = Removal(store: Store<K, V>, previous: Option<Item<K, V>>)

  /** Every item is filed under its own key; `persistValue` keeps this. */
  ghost predicate KeysConsistent<K, V>(s: Store<K, V>)
  {
    forall k :: k in s ==> s[k].key == k
  }

  /** `persistValue(value)`: files `value` under `value.getKey()`, replacing
      any earlier item for that key and leaving every other key alone. */
  function PersistValue<K, V>(s: Store<K, V>, value: Item<K, V>): (s': Store<K, V>)
    ensures s'.Keys == s.Keys + {value.key}
    ensures s'[value.key] == value
    ensures forall k :: k in s && k != value.key ==> s'[k] == s[k]
  {
    s[value.key := value]
  }

  /** `getValue(key)`: the stored item, or absent (`null`) when the key was
      never persisted or has been removed. */
  function GetValue<K, V>(s: Store<K, V>, key: K): (r: Option<Item<K, V>>)
    ensures r.Some? <==> key in s
    ensures r.Some? ==> r.value == s[key]
  {
    if key in s then Some(s[key]) else None
  }

  /** `removeValue(key)`: deletes the key and hands back what it held. */
  function RemoveValue<K, V>(s: Store<K, V>, key: K): (r: Removal<K, V>)
    ensures r.previous.Some? <==> key in s
    ensures r.previous.Some? ==> r.previous.value == s[key]
    ensures r.store.Keys == s.Keys - {key}
    ensures forall k :: k in r.store ==> r.store[k] == s[k]
  {
    Removal(s - {key}, GetValue(s, key))
  }

  /** A persisted item can be read back under its key. */
  lemma GetAfterPersist<K, V>(s: Store<K, V>, value: Item<K, V>)
    ensures GetValue(PersistValue(s, value), value.key) == Some(value)
  {
  }

  /** Persisting one item does not change what any other key reads. */
  lemma PersistLeavesOthers<K, V>(s: Store<K, V>, value: Item<K, V>, k: K)
    requires k != value.key
    ensures GetValue(PersistValue(s, value), k) == GetValue(s, k)
  {
  }

  /** After a removal the key reads as absent; every other key reads as
      before. */
  lemma GetAfterRemove<K, V>(s: Store<K, V>, key: K, k: K)
    ensures GetValue(RemoveValue(s, key).store, key) == None
    ensures k != key ==> GetValue(RemoveValue(s, key).store, k) == GetValue(s, k)
  {
  }

  /** Persisting and removing keep every item filed under its own key. */
  lemma StoreOpsKeepKeysConsistent<K, V>(s: Store<K, V>, value: Item<K, V>, key: K)
    requires KeysConsistent(s)
    ensures KeysConsistent(PersistValue(s, value))
    ensures KeysConsistent(RemoveValue(s, key).store)
  {
  }
}
