/** The recency list: a sequence of keys ordered from most- to
    least-recently used, with the list operations the cache performs on it
    (front insertion, removal of a key, removal of the last element). */
module Recency {

  /** The keys held by a recency list, as a set. */
  function Elems<K>(s: seq<K>): set<K>
  {
    set x | x in s
  }

  /** No key occurs twice in the list. */
  predicate NoDup<K(==)>(s: seq<K>)
  {
    forall i, j :: 0 <= i < j < |s| ==> s[i] != s[j]
  }

  /** The least-recently-used key: the back of the list. */
  function Last<K>(s: seq<K>): K
    requires |s| > 0
  {
    s[|s| - 1]
  }

  /** The list without its back element (`remove(size() - 1)`). */
  function DropLast<K>(s: seq<K>): (r: seq<K>)
    requires |s| > 0
    ensures |r| == |s| - 1
    ensures r + [Last(s)] == s
  {
    s[..|s| - 1]
  }

  /** `List.remove(Object)`: drops the first occurrence of `x`, if any, and
      keeps every other key in its place. */
  function RemoveFirst<K(==)>(s: seq<K>, x: K): (r: seq<K>)
    ensures x !in s ==> r == s
    ensures x in s ==> |r| == |s| - 1
    ensures Elems(r) <= Elems(s)
    ensures Elems(s) - {x} <= Elems(r)
  {
    if |s| == 0 then s
    else if s[0] == x then
      assert s == [x] + s[1..];
      s[1..]
    else
      var rest := RemoveFirst(s[1..], x);
      assert s == [s[0]] + s[1..];
      assert Elems([s[0]] + rest) == {s[0]} + Elems(rest);
      [s[0]] + rest
  }

  /** The position of the first occurrence of a present key. */
  function FirstIndex<K(==)>(s: seq<K>, x: K): (i: nat)
    requires x in s
    ensures i < |s| && s[i] == x && x !in s[..i]
  {
    if s[0] == x then 0
    else
      assert x in s[1..] by {
        assert s == [s[0]] + s[1..];
      }
      var j := FirstIndex(s[1..], x);
      assert s[..j + 1] == [s[0]] + s[1..][..j];
      j + 1
  }

  /** `List.remove(Object)` cuts the list at the first occurrence of the
      key: everything before and after it stays, in order. */
  lemma {:induction false} RemoveFirstCutsFirstOccurrence<K>(s: seq<K>, x: K)
    requires x in s
    ensures RemoveFirst(s, x) == s[..FirstIndex(s, x)] + s[FirstIndex(s, x) + 1..]
  {
    if s[0] != x {
      assert x in s[1..] by {
        assert s == [s[0]] + s[1..];
      }
      RemoveFirstCutsFirstOccurrence(s[1..], x);
      var j := FirstIndex(s[1..], x);
      assert s[..j + 1] == [s[0]] + s[1..][..j];
      assert s[j + 2..] == s[1..][j + 1..];
    }
  }

  /** Remove-then-insert-at-front: `x` becomes the most recently used key
      and every other key keeps its relative order. */
  function Promote<K(==)>(s: seq<K>, x: K): (r: seq<K>)
    ensures |r| > 0 && r[0] == x
    ensures Elems(r) == Elems(s) + {x}
    ensures x in s ==> |r| == |s|
    ensures x in s ==> r == [x] + s[..FirstIndex(s, x)] + s[FirstIndex(s, x) + 1..]
    ensures x !in s ==> r == [x] + s
  {
    var rest := RemoveFirst(s, x);
    assert x in s ==> rest == s[..FirstIndex(s, x)] + s[FirstIndex(s, x) + 1..] by {
      if x in s {
        RemoveFirstCutsFirstOccurrence(s, x);
      }
    }
    assert Elems([x] + rest) == {x} + Elems(rest);
    [x] + rest
  }

  lemma {:induction false} NoDupTail<K>(s: seq<K>)
    requires |s| > 0
    ensures NoDup(s) <==> s[0] !in s[1..] && NoDup(s[1..])
  {
    if NoDup(s) {
      forall j | 0 <= j < |s| - 1 ensures s[1..][j] != s[0] {
        assert s[1..][j] == s[j + 1];
      }
    }
    if s[0] !in s[1..] && NoDup(s[1..]) {
      forall i, j | 0 <= i < j < |s| ensures s[i] != s[j] {
        if i == 0 {
          assert s[j] == s[1..][j - 1];
        } else {
          assert s[i] == s[1..][i - 1] && s[j] == s[1..][j - 1];
        }
      }
    }
  }

  /** Removing a key from a duplicate-free list removes it entirely and
      keeps the list duplicate-free. */
  lemma {:induction false} NoDupRemoveFirst<K>(s: seq<K>, x: K)
    requires NoDup(s)
    ensures NoDup(RemoveFirst(s, x))
    ensures Elems(RemoveFirst(s, x)) == Elems(s) - {x}
  {
    if |s| > 0 {
      NoDupTail(s);
      if s[0] != x {
        var rest := RemoveFirst(s[1..], x);
        NoDupRemoveFirst(s[1..], x);
        assert RemoveFirst(s, x) == [s[0]] + rest;
        assert s[0] !in Elems(rest) by {
          assert s[0] !in Elems(s[1..]);
        }
        assert ([s[0]] + rest)[1..] == rest;
        NoDupTail([s[0]] + rest);
        assert Elems(s) == {s[0]} + Elems(s[1..]) by {
          assert s == [s[0]] + s[1..];
        }
      } else {
        assert Elems(s) == {s[0]} + Elems(s[1..]) by {
          assert s == [s[0]] + s[1..];
        }
      }
    }
  }

  /** Promotion keeps a duplicate-free list duplicate-free. */
  lemma PromoteNoDup<K>(s: seq<K>, x: K)
    requires NoDup(s)
    ensures NoDup(Promote(s, x))
  {
    var rest := RemoveFirst(s, x);
    NoDupRemoveFirst(s, x);
    assert Promote(s, x) == [x] + rest;
    assert ([x] + rest)[1..] == rest;
    NoDupTail([x] + rest);
  }

  /** Inserting a key that is not yet present at the front keeps the list
      duplicate-free. */
  lemma PushFrontNoDup<K>(s: seq<K>, x: K)
    requires NoDup(s) && x !in s
    ensures NoDup([x] + s)
    ensures Elems([x] + s) == Elems(s) + {x}
  {
    assert ([x] + s)[1..] == s;
    NoDupTail([x] + s);
  }

  /** Dropping the back element keeps the list duplicate-free and removes
      exactly that key. */
  lemma DropLastNoDup<K>(s: seq<K>)
    requires |s| > 0 && NoDup(s)
    ensures NoDup(DropLast(s))
    ensures Elems(DropLast(s)) == Elems(s) - {Last(s)}
  {
    var r := DropLast(s);
    forall y | y in Elems(s) - {Last(s)} ensures y in r {
      var i :| 0 <= i < |s| && s[i] == y;
      assert i < |s| - 1;
      assert r[i] == y;
    }
  }

  /** A duplicate-free list has exactly as many keys as elements. */
  lemma {:induction false} NoDupCard<K>(s: seq<K>)
    requires NoDup(s)
    ensures |Elems(s)| == |s|
  {
    if |s| > 0 {
      NoDupTail(s);
      NoDupCard(s[1..]);
      assert s == [s[0]] + s[1..];
      assert Elems(s) == {s[0]} + Elems(s[1..]);
      assert s[0] !in Elems(s[1..]);
    }
  }
}
