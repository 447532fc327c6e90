/** Iteration over the cached keys (`getCacheKeys`), promised to run from
    the most- to the least-recently-used key. The iterator as written
    advances its position before reading; the corrected one reads first. */
module KeyIterator {
  import opened Recency
  import opened LruCache

  /** One call of `next()`: a key and the position after it, `null` once
      the iterator is exhausted, or the exception of an out-of-range read. */
  datatype Step<K> = Yield(key: K, pos: nat) | Exhausted | OutOfBounds

  /** The keys a full traversal handed out, and whether it ended by
      throwing. */
  datatype Traversal<K> = Traversal(yielded: seq<K>, threw: bool)

  /** `hasNext()`: a read at `pos` would hand out a cached key, and once
      it is false no key is left after `pos`. */
  function HasNext<K>(keys: seq<K>, pos: nat): (r: bool)
    ensures r ==> pos < |keys| && keys[pos] in keys
    ensures !r ==> |keys| <= pos
  {
    pos < |keys|
  }

  /** `next()` as written: `pos++` and then `lruList.get(pos)`. */
  function NextAsWritten<K>(keys: seq<K>, pos: nat): (r: Step<K>)
    ensures r.Exhausted? <==> !HasNext(keys, pos)
    ensures r.OutOfBounds? <==> pos + 1 == |keys|
    ensures r.Yield? ==> r.pos == pos + 1 && r.key == keys[pos + 1]
  {
    if HasNext(keys, pos) then
      if pos + 1 < |keys| then Yield(keys[pos + 1], pos + 1) else OutOfBounds
    else Exhausted
  }

  /** `while (it.hasNext()) out.add(it.next())` over the iterator as
      written, starting at `pos`. */
  function DrainAsWritten<K>(keys: seq<K>, pos: nat): Traversal<K>
    decreases |keys| - pos
  {
    if !HasNext(keys, pos) then Traversal([], false)
    else
      match NextAsWritten(keys, pos)
      case Yield(k, p) =>
        var rest := DrainAsWritten(keys, p);
        Traversal([k] + rest.yielded, rest.threw)
      case _ => Traversal([], true)
  }

  /** The iterator as written never hands out the key at its starting
      position and always ends by reading one past the end. */
  lemma {:induction false} DrainAsWrittenSkipsFirst<K>(keys: seq<K>, pos: nat)
    requires pos < |keys|
    ensures DrainAsWritten(keys, pos) == Traversal(keys[pos + 1..], true)
    decreases |keys| - pos
  {
    if pos + 1 < |keys| {
      DrainAsWrittenSkipsFirst(keys, pos + 1);
      assert keys[pos + 1..] == [keys[pos + 1]] + keys[pos + 2..];
    }
  }

  /** The input that shows it: over a one-key cache the traversal yields
      nothing and throws, so the most recently used key is never seen. */
  lemma SingleKeyTraversalAsWritten<K>(k: K)
    ensures DrainAsWritten([k], 0) == Traversal([], true)
  {
    DrainAsWrittenSkipsFirst([k], 0);
  }

  /** The corrected `next()`: read at `pos`, then advance. */
  function Next<K>(keys: seq<K>, pos: nat): (r: Step<K>)
    ensures r.Yield? <==> HasNext(keys, pos)
    ensures !r.OutOfBounds?
    ensures r.Yield? ==> r.pos == pos + 1 && r.key == keys[pos]
  {
    if HasNext(keys, pos) then Yield(keys[pos], pos + 1) else Exhausted
  }

  /** The documented key order: most recently used first, each resident key
      exactly once. */
  function CacheKeys<K, V>(c: Cache<K, V>): (r: seq<K>)
    ensures Valid(c) ==> NoDup(r) && Elems(r) == c.itemMap.Keys
    ensures |r| == |c.lruList|
  {
    c.lruList
  }

  /** A full traversal with the corrected iterator hands out the keys in
      the documented order, starting with the most recently used. */
  method IterateKeys<K, V>(c: Cache<K, V>) returns (out: seq<K>)
    ensures out == CacheKeys(c)
  {
    var keys := CacheKeys(c);
    out := [];
    var pos: nat := 0;
    while HasNext(keys, pos)
      invariant pos <= |keys|
      invariant out == keys[..pos]
      decreases |keys| - pos
    {
      var step := Next(keys, pos);
      out := out + [step.key];
      pos := step.pos;
    }
    assert keys[..pos] == keys;
  }

  /** After a successful `getItem`, the traversal starts at that key. */
  lemma GetItemLeadsTraversal<K, V>(c: Cache<K, V>, key: K)
    requires GetItem(c, key).item.Some?
    ensures CacheKeys(GetItem(c, key).next)[0] == key
  {
  }
}
