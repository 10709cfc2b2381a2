/**
 A hand-kept index: per key, the list of items filed under it. The contracts store one
 such list per owner (registry, NFT, subdomain) or per parent name (subdomain) beside
 the records the lists are derived from.
 */
module Index {
  import opened Common

  type Lists<K, T> = map<K, seq<T>>

  function Get<K, T>(lists: Lists<K, T>, key: K): seq<T> {
    if key in lists then lists[key] else []
  }

  function Add<K, T(==)>(lists: Lists<K, T>, key: K, item: T): Lists<K, T> {
    if item in Get(lists, key) then lists else lists[key := Get(lists, key) + [item]]
  }

  function Remove<K, T(==)>(lists: Lists<K, T>, key: K, item: T): Lists<K, T> {
    lists[key := Without(Get(lists, key), item)]
  }

  /** The subdomain contract's variant: first occurrence only, no write when absent. */
  function RemoveFirst<K, T(==)>(lists: Lists<K, T>, key: K, item: T): Lists<K, T> {
    if item in Get(lists, key) then lists[key := WithoutFirst(Get(lists, key), item)] else lists
  }

  /** The lists are a duplicate-free view of the relation `keyOf`, and of nothing else. */
  ghost predicate Views<K(!new), T(!new)>(lists: Lists<K, T>, keyOf: map<T, K>) {
    && (forall k :: Distinct(Get(lists, k)))
    && (forall k, x :: x in Get(lists, k) <==> x in keyOf && keyOf[x] == k)
  }

  /** A new item goes to the end of its list, a known one leaves it alone; a removed one leaves
      the others in order; no other list changes. */
  lemma ListsKeepOrder<K, T>(lists: Lists<K, T>, key: K, item: T, other: K)
    ensures item !in Get(lists, key) ==> Get(Add(lists, key, item), key) == Get(lists, key) + [item]
    ensures item in Get(lists, key) ==> Add(lists, key, item) == lists
    ensures Get(Remove(lists, key, item), key) == Without(Get(lists, key), item)
    ensures Distinct(Get(lists, key)) ==> Get(RemoveFirst(lists, key, item), key) == Without(Get(lists, key), item)
    ensures other != key ==>
              && Get(Add(lists, key, item), other) == Get(lists, other)
              && Get(Remove(lists, key, item), other) == Get(lists, other)
              && Get(RemoveFirst(lists, key, item), other) == Get(lists, other)
  {
    if Distinct(Get(lists, key)) {
      WithoutFirstIsWithout(Get(lists, key), item);
      if item !in Get(lists, key) {
        FilterAll(Get(lists, key), Not(item));
      }
    }
  }

  lemma AddViews<K(!new), T(!new)>(lists: Lists<K, T>, keyOf: map<T, K>, key: K, item: T)
    requires Views(lists, keyOf)
    requires item !in keyOf
    ensures Views(Add(lists, key, item), keyOf[item := key])
  {
    var after := Add(lists, key, item);
    assert item !in Get(lists, key);
    forall k ensures Distinct(Get(after, k)) {
      assert Distinct(Get(lists, k));
    }
    forall k, x ensures x in Get(after, k) <==> x in keyOf[item := key] && keyOf[item := key][x] == k {
      assert x in Get(lists, k) <==> x in keyOf && keyOf[x] == k;
    }
  }

  lemma RemoveViews<K(!new), T(!new)>(lists: Lists<K, T>, keyOf: map<T, K>, key: K, item: T)
    requires Views(lists, keyOf)
    requires item in keyOf && keyOf[item] == key
    ensures Views(Remove(lists, key, item), keyOf - {item})
  {
    var after := Remove(lists, key, item);
    assert Distinct(Get(lists, key));
    FilterDistinct(Get(lists, key), Not(item));
    FilterMembers(Get(lists, key), Not(item));
    forall k ensures Distinct(Get(after, k)) {
      assert Distinct(Get(lists, k));
    }
    forall k, x ensures x in Get(after, k) <==> x in keyOf - {item} && (keyOf - {item})[x] == k {
      assert x in Get(lists, k) <==> x in keyOf && keyOf[x] == k;
    }
  }

  lemma RemoveFirstViews<K(!new), T(!new)>(lists: Lists<K, T>, keyOf: map<T, K>, key: K, item: T)
    requires Views(lists, keyOf)
    requires item in keyOf && keyOf[item] == key
    ensures Views(RemoveFirst(lists, key, item), keyOf - {item})
    ensures RemoveFirst(lists, key, item) == Remove(lists, key, item)
  {
    assert item in Get(lists, key);
    assert Distinct(Get(lists, key));
    WithoutFirstIsWithout(Get(lists, key), item);
    RemoveViews(lists, keyOf, key, item);
  }

  /** Refiling an item under a new key, the old and the new key possibly equal. */
  lemma MoveViews<K(!new), T(!new)>(lists: Lists<K, T>, keyOf: map<T, K>, from: K, to: K, item: T)
    requires Views(lists, keyOf)
    requires item in keyOf && keyOf[item] == from
    ensures Views(Add(Remove(lists, from, item), to, item), keyOf[item := to])
  {
    RemoveViews(lists, keyOf, from, item);
    AddViews(Remove(lists, from, item), keyOf - {item}, to, item);
    assert (keyOf - {item})[item := to] == keyOf[item := to];
  }

  /** The relation without the items filed under `key`. */
  ghost function Except<K(!new), T(!new)>(keyOf: map<T, K>, key: K): map<T, K> {
    map x | x in keyOf && keyOf[x] != key :: keyOf[x]
  }

  /** Forgetting a key forgets the items filed under it. */
  lemma DropKeyViews<K(!new), T(!new)>(lists: Lists<K, T>, keyOf: map<T, K>, key: K)
    requires Views(lists, keyOf)
    ensures Views(lists - {key}, Except(keyOf, key))
  {
    forall k ensures Distinct(Get(lists - {key}, k)) {
      assert Distinct(Get(lists, k));
    }
    forall k, x ensures x in Get(lists - {key}, k) <==> x in Except(keyOf, key) && Except(keyOf, key)[x] == k {
      assert x in Get(lists, k) <==> x in keyOf && keyOf[x] == k;
    }
  }

  // ----- the sizes of the lists add up to the size of the relation -----

  function TotalLength<K, T>(lists: Lists<K, T>, keys: seq<K>): nat {
    if keys == [] then 0
    else TotalLength(lists, keys[..|keys| - 1]) + |Get(lists, keys[|keys| - 1])|
  }

  /** The items filed under one of `keys`. */
  ghost function Filed<K(!new), T(!new)>(keyOf: map<T, K>, keys: set<K>): set<T> {
    set x | x in keyOf && keyOf[x] in keys
  }

  lemma ListIsFiled<K(!new), T(!new)>(lists: Lists<K, T>, keyOf: map<T, K>, key: K)
    requires Views(lists, keyOf)
    ensures |Filed(keyOf, {key})| == |Get(lists, key)|
  {
    assert Distinct(Get(lists, key));
    DistinctCardinality(Get(lists, key));
    assert Elements(Get(lists, key)) == Filed(keyOf, {key});
  }

  lemma FiledSplits<K(!new), T(!new)>(keyOf: map<T, K>, keys: set<K>, key: K)
    requires key !in keys
    ensures |Filed(keyOf, keys + {key})| == |Filed(keyOf, keys)| + |Filed(keyOf, {key})|
  {
    assert Filed(keyOf, keys + {key}) == Filed(keyOf, keys) + Filed(keyOf, {key});
    assert Filed(keyOf, keys) !! Filed(keyOf, {key});
  }

  lemma {:induction false} TotalLengthCounts<K(!new), T(!new)>(lists: Lists<K, T>, keyOf: map<T, K>, keys: seq<K>)
    requires Views(lists, keyOf)
    requires Distinct(keys)
    ensures TotalLength(lists, keys) == |Filed(keyOf, Elements(keys))|
  {
    if keys == [] {
      assert Filed(keyOf, Elements(keys)) == {};
    } else {
      var front, last := keys[..|keys| - 1], keys[|keys| - 1];
      TotalLengthCounts(lists, keyOf, front);
      ListIsFiled(lists, keyOf, last);
      FiledSplits(keyOf, Elements(front), last);
      assert keys == front + [last];
      assert Elements(keys) == Elements(front) + {last};
    }
  }

  /** Over any listing of all keys, the list lengths sum to the number of items. */
  lemma TotalLengthIsSize<K(!new), T(!new)>(lists: Lists<K, T>, keyOf: map<T, K>, keys: seq<K>)
    requires Views(lists, keyOf)
    requires Distinct(keys) && lists.Keys <= Elements(keys)
    ensures TotalLength(lists, keys) == |keyOf|
  {
    TotalLengthCounts(lists, keyOf, keys);
    forall x | x in keyOf ensures keyOf[x] in keys {
      assert x in Get(lists, keyOf[x]);
      assert keyOf[x] in Elements(keys);
    }
    assert Filed(keyOf, Elements(keys)) == keyOf.Keys;
  }
}
