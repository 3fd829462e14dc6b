/**
 * `Rwcache`: a string-to-string map with no capacity and no eviction, which
 * can also take in every entry of another cache (`Merge`) and copy itself
 * (`Clone`).
 */
module RwCache {
  import opened Wrappers
  import Cache

  class Rwcache {
    var store: map<string, string>

    /** `NewRwcache`: an empty store. */
    constructor ()
      ensures store == map[]
    {
      store := map[];
    }

    function Size(): (n: nat)
      reads this
      ensures n == |store.Keys|
    {
      |store|
    }

    /** Go's `(value, exists)` pair: `None` stands for `("", false)`. */
    function Get(key: string): (r: Option<string>)
      reads this
      ensures r.Some? <==> key in store
      ensures r.Some? ==> r.value == store[key]
    {
      if key in store then Some(store[key]) else None
    }

    function Contains(key: string): (b: bool)
      reads this
      ensures b <==> Get(key).Some?
    {
      key in store
    }

    /** Unlike the other caches' `GetMany`, the missing keys are not reported. */
    method GetMany(keys: seq<string>) returns (values: map<string, string>)
      ensures values.Keys == set k | k in keys && k in store
      ensures forall k :: k in values ==> values[k] == store[k]
    {
      values := map[];
      for i := 0 to |keys|
        invariant values == Cache.Found(keys[..i], store)
      {
        Cache.FoundSnoc(keys, i, store);
        if keys[i] in store {
          values := values[keys[i] := store[keys[i]]];
        }
      }
      assert keys[..|keys|] == keys;
    }

    method Set(key: string, value: string)
      modifies this
      ensures store == old(store)[key := value]
    {
      store := store[key := value];
    }

    method SetMany(items: map<string, string>)
      modifies this
      ensures store == old(store) + items
    {
      PutAll(items);
    }

    method Delete(key: string)
      modifies this
      ensures store == old(store) - {key}
    {
      store := store - {key};
    }

    method Clear()
      modifies this
      ensures store == map[] && Size() == 0
    {
      store := map[];
    }

    /** Go lists the keys in map iteration order, which is unspecified. */
    method Keys() returns (keys: seq<string>)
      ensures |keys| == Size() && Cache.Distinct(keys)
      ensures forall k :: k in keys <==> k in store
    {
      keys := Cache.ListKeys(store);
    }

    /** Go lists the values in map iteration order, which is unspecified. */
    method Values() returns (values: seq<string>)
      ensures |values| == Size()
      ensures multiset(values) == Cache.Bag(store)
    {
      values := Cache.ListValues(store);
    }

    /**
     * Every entry of `other` is written into this store, overwriting the
     * value of a key both hold; `other` is left as it was.
     */
    method Merge(other: Rwcache)
      modifies this
      ensures store == old(store) + old(other.store)
      ensures other != this ==> other.store == old(other.store)
    {
      PutAll(other.store);
    }

    /** A new cache whose store holds the same entries as this one. */
    method Clone() returns (clone: Rwcache)
      ensures fresh(clone) && clone.store == store
    {
      clone := new Rwcache();
      clone.PutAll(store);
    }

    /**
     * The loop `SetMany`, `Merge` and `Clone` run: `store[key] = value` for
     * each entry of `items`, in an order left open; every order ends in the
     * same store.
     */
    method PutAll(items: map<string, string>)
      modifies this
      ensures store == old(store) + items
    {
      var rest := items.Keys;
      while rest != {}
        invariant rest <= items.Keys
        invariant store == old(store) + map k | k in items.Keys - rest :: items[k]
        decreases rest
      {
        var key :| key in rest;
        store := store[key := items[key]];
        rest := rest - {key};
      }
    }
  }

  /** After `c.Merge(o)`, a key of `o` gets `o`'s value and a key only `c` had keeps its own. */
  method MergeThenGet(c: Rwcache, o: Rwcache, k: string, j: string) returns (r: Option<string>, s: Option<string>)
    requires c != o && k in o.store && j in c.store && j !in o.store
    modifies c
    ensures r == Some(o.store[k]) && s == Some(old(c.store[j]))
  {
    c.Merge(o);
    r := c.Get(k);
    s := c.Get(j);
  }

  /** A clone is a separate store: writing to it leaves the original as it was. */
  method CloneIsSeparate(c: Rwcache, key: string, value: string) returns (d: Rwcache)
    ensures fresh(d) && d.store == c.store[key := value]
  {
    d := c.Clone();
    d.Set(key, value);
  }
}
