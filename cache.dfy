/**
 * The map-backed `SimpleCache` and the parts of the `Cache` contract shared
 * by every cache of the package: what `GetMany` returns, and the keys and
 * values a cache lists.
 */
module Cache {
  import opened Wrappers

  // ---------------------------------------------------------------------------
  // The `Cache` contract

  /** The requested keys that are present, with their stored values (`GetMany`'s map). */
  ghost function Found<K, V>(keys: seq<K>, store: map<K, V>): map<K, V> {
    map k | k in keys && k in store :: store[k]
  }

  /** Requesting one more key adds it to the found map exactly when it is present. */
  lemma FoundSnoc<K, V>(keys: seq<K>, i: nat, store: map<K, V>)
    requires i < |keys|
    ensures Found(keys[..i + 1], store) ==
      if keys[i] in store then Found(keys[..i], store)[keys[i] := store[keys[i]]] else Found(keys[..i], store)
  {
    assert keys[..i + 1] == keys[..i] + [keys[i]];
  }

  /** The requested keys that are not present, in request order (`GetMany`'s missing list). */
  function Absent<K>(keys: seq<K>, present: set<K>): seq<K> {
    if keys == [] then []
    else Absent(keys[..|keys| - 1], present) + (if keys[|keys| - 1] in present then [] else [keys[|keys| - 1]])
  }

  /** Requesting one more key appends it to the missing list exactly when it is absent. */
  lemma AbsentSnoc<K>(keys: seq<K>, i: nat, present: set<K>)
    requires i < |keys|
    ensures Absent(keys[..i + 1], present) ==
      Absent(keys[..i], present) + if keys[i] in present then [] else [keys[i]]
  {
    assert keys[..i + 1][..i] == keys[..i];
  }

  /** The missing list holds exactly the requested keys that are not present. */
  lemma {:induction false} AbsentIsMissing<K>(keys: seq<K>, present: set<K>)
    ensures forall k :: k in Absent(keys, present) <==> k in keys && k !in present
    ensures |Absent(keys, present)| <= |keys|
  {
    if keys != [] {
      var init := keys[..|keys| - 1];
      AbsentIsMissing(init, present);
      assert keys == init + [keys[|keys| - 1]];
    }
  }

  /** Every requested key is reported either in the found map or in the missing list, never both. */
  lemma FoundAndAbsentCover<K, V>(keys: seq<K>, store: map<K, V>)
    ensures forall k :: k in keys ==> (k in Found(keys, store) <==> k !in Absent(keys, store.Keys))
  {
    AbsentIsMissing(keys, store.Keys);
  }

  /** No key listed twice. */
  ghost predicate Distinct<K>(s: seq<K>) {
    forall i, j :: 0 <= i < j < |s| ==> s[i] != s[j]
  }

  /** The values of a map, each counted once per key that holds it. */
  ghost function Bag<K, V>(m: map<K, V>): multiset<V>
    decreases |m|
  {
    if m == map[] then multiset{}
    else
      var k :| k in m;
      multiset{m[k]} + Bag(m - {k})
  }

  /** The loop every cache's `Keys` runs over its map: each key once, in an order left open. */
  method ListKeys<K, V>(m: map<K, V>) returns (keys: seq<K>)
    ensures |keys| == |m| && Distinct(keys)
    ensures forall k :: k in keys <==> k in m
  {
    keys := [];
    var rest := m.Keys;
    while rest != {}
      invariant rest <= m.Keys && |keys| + |rest| == |m.Keys| && Distinct(keys)
      invariant forall k :: k in m <==> k in keys || k in rest
      invariant forall k :: k in keys ==> k !in rest
      decreases rest
    {
      var key :| key in rest;
      keys := keys + [key];
      rest := rest - {key};
    }
  }

  /**
   * The loop every cache's `Values` runs over its map: each value is appended
   * once per key that holds it, in an order left open.
   */
  method ListValues<K, V>(m: map<K, V>) returns (values: seq<V>)
    ensures |values| == |m| && multiset(values) == Bag(m)
  {
    values := [];
    var rest := m;
    while rest != map[]
      invariant multiset(values) + Bag(rest) == Bag(m)
      decreases |rest|
    {
      var key :| key in rest;
      BagRemove(rest, key);
      values := values + [rest[key]];
      rest := rest - {key};
    }
    BagOfValues(m);
  }

  /** `Bag` does not depend on which key is taken out first. */
  lemma {:induction false} BagRemove<K, V>(m: map<K, V>, k: K)
    requires k in m
    ensures Bag(m) == multiset{m[k]} + Bag(m - {k})
    decreases |m|
  {
    var k' :| k' in m && Bag(m) == multiset{m[k']} + Bag(m - {k'});
    if k' != k {
      var m1, m2 := m - {k'}, m - {k};
      assert m1.Keys == m.Keys - {k'} && m2.Keys == m.Keys - {k};
      assert |m1| < |m| && |m2| < |m|;
      assert k in m1 && k' in m2 && m1[k] == m[k] && m2[k'] == m[k'];
      BagRemove(m1, k);
      BagRemove(m2, k');
      RemoveCommutes(m, k, k');
    }
  }

  lemma RemoveCommutes<K, V>(m: map<K, V>, a: K, b: K)
    ensures m - {a} - {b} == m - {b} - {a}
  {
    assert (m - {a} - {b}).Keys == (m - {b} - {a}).Keys;
  }

  /** The bag holds one value per key, and only values the map holds. */
  lemma {:induction false} BagOfValues<K, V>(m: map<K, V>)
    ensures |Bag(m)| == |m|
    ensures forall v :: v in Bag(m) <==> v in m.Values
    decreases |m|
  {
    if m != map[] {
      var k :| k in m;
      BagRemove(m, k);
      BagOfValues(m - {k});
      forall v | v in m.Values
        ensures v in Bag(m)
      {
        var k' :| k' in m && m[k'] == v;
        if k' != k {
          assert k' in m - {k} && (m - {k})[k'] == v;
          assert v in (m - {k}).Values;
        }
      }
    }
  }

  // ---------------------------------------------------------------------------
  // SimpleCache

  class SimpleCache<K(==), V> {
    var store: map<K, V>

    constructor ()
      ensures store == map[]
    {
      store := map[];
    }

    function Size(): (n: nat)
      reads this
      ensures n == |store.Keys|
    {
      |store|
    }

    function Contains(key: K): (b: bool)
      reads this
      ensures b <==> Get(key).Some?
    {
      key in store
    }

    function Get(key: K): (r: Option<V>)
      reads this
      ensures r.Some? <==> key in store
      ensures r.Some? ==> r.value == store[key]
    {
      if key in store then Some(store[key]) else None
    }

    method GetMany(keys: seq<K>) returns (values: map<K, V>, missing: seq<K>)
      ensures values == Found(keys, store)
      ensures missing == Absent(keys, store.Keys)
    {
      values := map[];
      missing := [];
      for i := 0 to |keys|
        invariant values == Found(keys[..i], store)
        invariant missing == Absent(keys[..i], store.Keys)
      {
        assert keys[..i + 1][..i] == keys[..i];
        if keys[i] in store {
          values := values[keys[i] := store[keys[i]]];
        } else {
          missing := missing + [keys[i]];
        }
      }
      assert keys[..|keys|] == keys;
    }

    method Set(key: K, value: V)
      modifies this
      ensures store == old(store)[key := value]
    {
      store := store[key := value];
    }

    /** Go visits `items` in an unspecified order; every order gives the same store. */
    method SetMany(items: map<K, V>)
      modifies this
      ensures store == old(store) + items
    {
      var rest := items.Keys;
      while rest != {}
        invariant rest <= items.Keys
        invariant store == old(store) + map k | k in items.Keys - rest :: items[k]
        decreases rest
      {
        var key :| key in rest;
        store := store[key := items[key]];
        rest := rest - {key};
      }
    }

    method Delete(key: K)
      modifies this
      ensures store == old(store) - {key}
    {
      store := store - {key};
    }

    method Clear()
      modifies this
      ensures store == map[] && Size() == 0
    {
      store := map[];
    }

    /** Go lists the keys in map iteration order, which is unspecified. */
    method Keys() returns (keys: seq<K>)
      ensures |keys| == Size() && Distinct(keys)
      ensures forall k :: k in keys <==> k in store
    {
      keys := ListKeys(store);
    }

    /** Go lists the values in map iteration order, which is unspecified. */
    method Values() returns (values: seq<V>)
      ensures |values| == Size()
      ensures multiset(values) == Bag(store)
    {
      values := ListValues(store);
    }
  }

  /** After `Set(k, v)`, `Contains(k)` holds and `Get(k)` returns `v`; an unknown key is not found. */
  method SetThenGet<K(==), V>(c: SimpleCache<K, V>, key: K, value: V, other: K) returns (r: Option<V>, s: Option<V>)
    requires other != key && other !in c.store
    modifies c
    ensures r == Some(value) && s == None && c.Contains(key)
  {
    c.Set(key, value);
    r := c.Get(key);
    s := c.Get(other);
  }
}
