/** Sequences of cache operations, as a caller issues them, and the
    worked scenario of a two-item cache. */
module CacheRuns {
  import opened Wrappers
  import opened Recency
  import opened FakePersister
  import opened LruCache
  import opened CacheProperties

  /** One public call on the cache. */
  datatype Op<K, V> =
    | Get(key: K)
    | Put(item: Item<K, V>)
    | Remove(key: K)
    | Resize(newSize: Capacity)
    | ResetStats

  /** The cache after one call; returned items are dropped. */
  function Apply<K, V>(c: Cache<K, V>, op: Op<K, V>): Cache<K, V>
  {
    match op
    case Get(k) => GetItem(c, k).next
    case Put(item) => PutItem(c, item)
    case Remove(k) => RemoveItem(c, k).next
    case Resize(n) => ModifySize(c, n)
    case ResetStats => ResetFaultRateStats(c)
  }

  /** The cache after a sequence of calls, in order. */
  function Run<K, V>(c: Cache<K, V>, ops: seq<Op<K, V>>): Cache<K, V>
    decreases |ops|
  {
    if |ops| == 0 then c else Run(Apply(c, ops[0]), ops[1..])
  }

  predicate NoResize<K, V>(ops: seq<Op<K, V>>)
  {
    forall i :: 0 <= i < |ops| ==> !ops[i].Resize?
  }

  predicate NoRemove<K, V>(ops: seq<Op<K, V>>)
  {
    forall i :: 0 <= i < |ops| ==> !ops[i].Remove?
  }

  /** Every call keeps the bookkeeping invariant. */
  lemma ApplyKeepsValid<K, V>(c: Cache<K, V>, op: Op<K, V>)
    requires Valid(c)
    ensures Valid(Apply(c, op))
  {
    match op
    case Get(k) => GetItemKeepsValid(c, k);
    case Put(item) => PutItemKeepsValid(c, item);
    case Remove(k) => RemoveItemKeepsValid(c, k);
    case Resize(n) =>
    case ResetStats =>
  }

  /** Any sequence of calls keeps the bookkeeping invariant. */
  lemma {:induction false} RunKeepsValid<K, V>(c: Cache<K, V>, ops: seq<Op<K, V>>)
    requires Valid(c)
    ensures Valid(Run(c, ops))
    decreases |ops|
  {
    if |ops| > 0 {
      ApplyKeepsValid(c, ops[0]);
      RunKeepsValid(Apply(c, ops[0]), ops[1..]);
    }
  }

  /** Capacity invariant: with no resize in between, a cache within its
      bound stays within it through any sequence of calls. */
  lemma {:induction false} RunKeepsBound<K, V>(c: Cache<K, V>, ops: seq<Op<K, V>>)
    requires Valid(c) && WithinBound(c) && NoResize(ops)
    ensures WithinBound(Run(c, ops))
    decreases |ops|
  {
    if |ops| > 0 {
      var c' := Apply(c, ops[0]);
      match ops[0] {
        case Get(k) => GetItemBound(c, k);
        case Put(item) => PutItemBound(c, item);
        case Remove(k) => RemoveItemBound(c, k);
        case ResetStats =>
      }
      ApplyKeepsValid(c, ops[0]);
      assert NoResize(ops[1..]) by {
        forall i | 0 <= i < |ops[1..]| ensures !ops[1..][i].Resize? {
          assert ops[1..][i] == ops[i + 1];
        }
      }
      RunKeepsBound(c', ops[1..]);
    }
  }

  /** Persister authority: without a `removeItem`, no key ever leaves the
      persister, whatever is evicted from memory. */
  lemma {:induction false} RunWithoutRemoveKeepsPersisted<K, V>(c: Cache<K, V>, ops: seq<Op<K, V>>)
    requires NoRemove(ops)
    ensures c.persister.Keys <= Run(c, ops).persister.Keys
    decreases |ops|
  {
    if |ops| > 0 {
      var c' := Apply(c, ops[0]);
      assert c.persister.Keys <= c'.persister.Keys by {
        match ops[0]
        case Get(k) =>
        case Put(item) =>
        case Resize(n) =>
        case ResetStats =>
      }
      assert NoRemove(ops[1..]) by {
        forall i | 0 <= i < |ops[1..]| ensures !ops[1..][i].Remove? {
          assert ops[1..][i] == ops[i + 1];
        }
      }
      RunWithoutRemoveKeepsPersisted(c', ops[1..]);
    }
  }

  // The scenario below, one call at a time. Items `a`, `b`, `c` carry keys 1, 2, 3.

  lemma ScenarioPuts(a: Item<int, int>, b: Item<int, int>, c: Item<int, int>)
    requires a.key == 1 && b.key == 2 && c.key == 3
    ensures PutItem(PutItem(PutItem(Create<int, int>(2, map[]).value, a), b), c)
         == Cache(2, map[2 := b, 3 := c], [3, 2], 0, 0, map[1 := a, 2 := b, 3 := c])
  {
    var c1 := PutItem(Create<int, int>(2, map[]).value, a);
    assert c1 == Cache(2, map[1 := a], [1], 0, 0, map[1 := a]);
    var c2 := PutItem(c1, b);
    assert c2 == Cache(2, map[1 := a, 2 := b], [2, 1], 0, 0, map[1 := a, 2 := b]);
  }

  lemma ScenarioFault(a: Item<int, int>, b: Item<int, int>, c: Item<int, int>)
    requires a.key == 1 && b.key == 2 && c.key == 3
    ensures GetItem(Cache(2, map[2 := b, 3 := c], [3, 2], 0, 0, map[1 := a, 2 := b, 3 := c]), 1)
         == Reply(Cache(2, map[1 := a, 3 := c], [1, 3], 0, 1, map[1 := a, 2 := b, 3 := c]), Some(a))
  {
  }

  lemma ScenarioHit(a: Item<int, int>, b: Item<int, int>, c: Item<int, int>)
    requires a.key == 1 && b.key == 2 && c.key == 3
    ensures GetItem(Cache(2, map[1 := a, 3 := c], [1, 3], 0, 1, map[1 := a, 2 := b, 3 := c]), 3)
         == Reply(Cache(2, map[1 := a, 3 := c], [3, 1], 0, 1, map[1 := a, 2 := b, 3 := c]), Some(c))
  {
    assert FirstIndex([1, 3], 3) == 1;
    assert Promote([1, 3], 3) == [3, 1];
  }

  lemma ScenarioRemove(a: Item<int, int>, b: Item<int, int>, c: Item<int, int>)
    requires a.key == 1 && b.key == 2 && c.key == 3
    ensures RemoveItem(Cache(2, map[1 := a, 3 := c], [3, 1], 0, 1, map[1 := a, 2 := b, 3 := c]), 1)
         == Reply(Cache(2, map[3 := c], [3], 0, 1, map[2 := b, 3 := c]), Some(a))
  {
    assert RemoveFirst([3, 1], 1) == [3] + RemoveFirst([1], 1);
  }

  /** A bound-2 cache over an empty persister: put A, B, C evicts A from
      memory only; get A is a fault that evicts B; get C promotes C; remove
      A returns A's item and deletes it from the persister as well. */
  lemma Scenario(a: Item<int, int>, b: Item<int, int>, c: Item<int, int>)
    requires a.key == 1 && b.key == 2 && c.key == 3
    ensures
      var c0 := Create<int, int>(2, map[]).value;
      var c3 := PutItem(PutItem(PutItem(c0, a), b), c);
      && c3.itemMap.Keys == {2, 3} && 1 in c3.persister
      && var g := GetItem(c3, 1);
      && g.item == Some(a) && g.next.faultNo == 1
      && g.next.itemMap.Keys == {1, 3} && g.next.lruList[0] == 1
      && var h := GetItem(g.next, 3);
      && h.next.lruList == [3, 1]
      && var d := RemoveItem(h.next, 1);
      && d.item == Some(a) && d.next.itemMap.Keys == {3} && 1 !in d.next.persister
  {
    ScenarioPuts(a, b, c);
    ScenarioFault(a, b, c);
    ScenarioHit(a, b, c);
    ScenarioRemove(a, b, c);
  }
}
