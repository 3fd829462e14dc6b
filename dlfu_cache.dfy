/**
 * `DLFUCache`: a map from keys to `DLFUItem`s plus an eviction heap ordered by
 * a decaying frequency score. Every `Get` multiplies the increment `incr` by
 * `decay`, so that a later hit is worth more than an earlier one; a hit also
 * adds the current `incr` to the item's priority. Entries carry an expiry
 * time; an expired entry is no longer returned by `Get`, but it stays in the
 * map until a `Set` of a new key pops it from the heap root.
 *
 * Unlike `LFUCache` and `LRUCache`, a `Set` of a present key updates that
 * key's item in place, so the map and the heap stay one to one: `Valid` is
 * kept by every operation.
 */
module DlfuCache {
  import opened Wrappers
  import opened ContainerHeap
  import opened DlfuHeap
  import CacheHeap
  import Cache

  /** `incr` of a new cache: `1 / (1 - gamma)`, or 0 when `gamma` is 1. */
  function InitialIncr(gamma: real): (r: real)
    requires gamma <= 1.0
    ensures gamma < 1.0 ==> r * (1.0 - gamma) == 1.0
    ensures 0.0 <= gamma < 1.0 ==> r >= 1.0
    ensures gamma == 1.0 ==> r == 0.0
  {
    if gamma < 1.0 then
      var d := 1.0 - gamma;
      assert 0.0 <= gamma ==> 1.0 / d >= 1.0 by {
        if 0.0 <= gamma { assert d <= 1.0 && (1.0 / d) * d == 1.0; }
      }
      1.0 / d
    else 0.0
  }

  /** `decay` of a new cache: `(p + 1) / p` with `p = capacity * gamma`. */
  function Decay(capacity: int, gamma: real): (r: real)
    requires capacity as real * gamma != 0.0
    ensures r * (capacity as real * gamma) == capacity as real * gamma + 1.0
    ensures capacity > 0 && gamma > 0.0 ==> r > 1.0
  {
    var p := capacity as real * gamma;
    (p + 1.0) / p
  }

  /** `a` multiplied `n` times by `x`. */
  ghost function Decayed(a: real, x: real, n: nat): real {
    if n == 0 then a else Decayed(a, x, n - 1) * x
  }

  /**
   * What `Get` of each of the first `n` keys adds to the priority of the live
   * item of `k`: at each position holding `k`, the increment then in effect,
   * which is `a` decayed once per earlier read.
   */
  ghost function Gain<K>(keys: seq<K>, n: nat, k: K, a: real, x: real): real
    requires n <= |keys|
  {
    if n == 0 then 0.0 else Gain(keys, n - 1, k, a, x) + if keys[n - 1] == k then Decayed(a, x, n - 1) else 0.0
  }

  /** One more multiplication by `x`. */
  lemma DecayStep(a: real, x: real, n: nat, b: real, c: real)
    requires b == Decayed(a, x, n) && c == b * x
    ensures c == Decayed(a, x, n + 1)
  {
  }

  /** The elements of `s` outside `dead`, in their order in `s`. */
  ghost function Survivors<T>(s: seq<T>, dead: set<T>): (r: seq<T>)
    ensures |r| <= |s|
    ensures forall x :: x in r ==> x in s && x !in dead
    ensures forall x :: x in s && x !in dead ==> x in r
  {
    if s == [] then []
    else Survivors(s[..|s| - 1], dead) + (if s[|s| - 1] in dead then [] else [s[|s| - 1]])
  }

  /** The items of `s` that have not expired at `now`, in their order in `s`. */
  ghost function LiveItems<K, V>(s: seq<DLFUItem<K, V>>, now: int): (r: seq<DLFUItem<K, V>>)
    reads ItemSet(s)`expiresAt
  {
    Survivors(s, Dead(s, now))
  }

  /** The entries of `d` whose items have not expired at `now`. */
  ghost function Unexpired<K, V>(d: map<K, DLFUItem<K, V>>, now: int): (r: map<K, DLFUItem<K, V>>)
    reads d.Values`expiresAt
    ensures r.Keys <= d.Keys && forall k :: k in d ==> (k in r <==> !d[k].Expired(now))
    ensures forall k :: k in r ==> r[k] == d[k]
  {
    map k | k in d && !d[k].Expired(now) :: d[k]
  }

  /** Taking out keys whose items had expired leaves the same unexpired entries. */
  lemma UnexpiredWithout<K, V>(d: map<K, DLFUItem<K, V>>, gone: set<K>, now: int)
    requires forall k :: k in gone && k in d ==> d[k].Expired(now)
    ensures Unexpired(d - gone, now) == Unexpired(d, now)
  {
  }

  /** Dropping the expired entries from a map and its items keeps the two in agreement. */
  lemma LiveAgree<K, V>(d: map<K, DLFUItem<K, V>>, s: seq<DLFUItem<K, V>>, now: int)
    requires Stored(d, ItemSet(s)) && Owned(d, ItemSet(s))
    ensures Stored(Unexpired(d, now), ItemSet(LiveItems(s, now)))
    ensures Owned(Unexpired(d, now), ItemSet(LiveItems(s, now)))
  {
  }

  /** The items of `s` that have expired at `now`. */
  ghost function Dead<K, V>(s: seq<DLFUItem<K, V>>, now: int): set<DLFUItem<K, V>>
    reads ItemSet(s)`expiresAt
  {
    set x | x in ItemSet(s) && x.Expired(now)
  }

  /** Deleting the key of one more `dead` item keeps `PopExpired`'s account of the map. */
  lemma ExpelStep<K, V>(d0: map<K, DLFUItem<K, V>>, d: map<K, DLFUItem<K, V>>, d': map<K, DLFUItem<K, V>>,
                        gone: set<K>, top: DLFUItem<K, V>, dead: set<DLFUItem<K, V>>)
    requires gone <= d0.Keys && d == d0 - gone && |d| <= |d0| && forall k :: k in gone ==> d0[k] in dead
    requires top.key in d && d[top.key] == top && top in dead && d' == d - {top.key} && |d'| == |d| - 1
    ensures gone + {top.key} <= d0.Keys && d' == d0 - (gone + {top.key}) && |d'| <= |d0|
    ensures forall k :: k in gone + {top.key} ==> d0[k] in dead
  {
  }

  /** After a push of `x`, the expired items are those that had expired before, and perhaps `x`. */
  lemma DeadAfterPush<K, V>(s0: seq<DLFUItem<K, V>>, s1: seq<DLFUItem<K, V>>, x: DLFUItem<K, V>, now: int)
    requires ItemSet(s1) == ItemSet(s0) + {x}
    ensures forall y :: y in Dead(s1, now) ==> if y == x then x.Expired(now) else y in Dead(s0, now)
  {
  }

  /**
   * The invariant of `removeExpiredItems`'s rebuild loop over the slice `s`,
   * whose items are those of the map `d0`, after `i` items: `kept` holds the
   * ones outside `dead` in order, and `d` is `d0` less the keys of those in
   * `dead`.
   */
  ghost predicate Swept<K, V>(s: seq<DLFUItem<K, V>>, i: int, kept: seq<DLFUItem<K, V>>,
                              d0: map<K, DLFUItem<K, V>>, d: map<K, DLFUItem<K, V>>, dead: set<DLFUItem<K, V>>)
  {
    && 0 <= i <= |s| == |d0| && Cache.Distinct(s)
    && Stored(d0, ItemSet(s)) && Owned(d0, ItemSet(s))
    && kept == Survivors(s[..i], dead)
    && d.Keys <= d0.Keys && (forall k :: k in d ==> d[k] == d0[k])
    && (forall k :: k in d0 ==> (k in d <==> !(d0[k] in s[..i] && d0[k] in dead)))
    && |d| - |kept| == |d0| - i
  }

  /** A slice whose items know their positions holds no item twice. */
  lemma SweepStarts<K, V>(s: seq<DLFUItem<K, V>>, d: map<K, DLFUItem<K, V>>, dead: set<DLFUItem<K, V>>)
    requires forall p :: 0 <= p < |s| ==> s[p].index == p
    requires |s| == |d| && Stored(d, ItemSet(s)) && Owned(d, ItemSet(s))
    ensures Swept(s, 0, [], d, d, dead)
  {
    assert s[..0] == [];
  }

  /** One item more: a live one joins `kept`, a dead one takes its key out of the map. */
  lemma SweepStep<K, V>(s: seq<DLFUItem<K, V>>, i: int, kept: seq<DLFUItem<K, V>>,
                        d0: map<K, DLFUItem<K, V>>, d: map<K, DLFUItem<K, V>>, dead: set<DLFUItem<K, V>>)
    requires Swept(s, i, kept, d0, d, dead) && i < |s|
    ensures s[i] !in kept
    ensures s[i] !in dead ==> Swept(s, i + 1, kept + [s[i]], d0, d, dead)
    ensures s[i] in dead ==> Swept(s, i + 1, kept, d0, d - {s[i].key}, dead)
  {
    var x := s[i];
    SweepNext(s, i, kept, d0, d, dead);
    if x in dead {
      assert x.key in d;
      assert |d - {x.key}| == |d| - 1;
    }
  }

  /** The item at `i` is not among the first `i`, and it is the item of its own key. */
  lemma SweepNext<K, V>(s: seq<DLFUItem<K, V>>, i: int, kept: seq<DLFUItem<K, V>>,
                        d0: map<K, DLFUItem<K, V>>, d: map<K, DLFUItem<K, V>>, dead: set<DLFUItem<K, V>>)
    requires Swept(s, i, kept, d0, d, dead) && i < |s|
    ensures s[i] !in s[..i] && s[i] !in kept && s[i].key in d0 && d0[s[i].key] == s[i]
    ensures s[..i + 1] == s[..i] + [s[i]] && s[..i + 1][..i] == s[..i]
    ensures forall k :: k in d0 && k != s[i].key ==> (d0[k] in s[..i + 1] <==> d0[k] in s[..i])
  {
    var x := s[i];
    assert s[..i + 1] == s[..i] + [x];
    assert x in ItemSet(s);
    assert x !in s[..i] by {
      forall j | 0 <= j < i
        ensures s[..i][j] != x
      {
        assert s[..i][j] == s[j];
      }
    }
    forall k | k in d0 && k != x.key
      ensures d0[k] in s[..i + 1] <==> d0[k] in s[..i]
    {
      assert d0[k].key == k;
    }
  }

  /** After the whole slice, `kept` is its live items and the map keeps exactly the unexpired entries. */
  lemma SweepEnds<K, V>(s: seq<DLFUItem<K, V>>, kept: seq<DLFUItem<K, V>>,
                        d0: map<K, DLFUItem<K, V>>, d: map<K, DLFUItem<K, V>>, now: int)
    requires Swept(s, |s|, kept, d0, d, Dead(s, now))
    ensures kept == LiveItems(s, now) && d == Unexpired(d0, now) && |d| == |kept|
  {
    assert s[..|s|] == s;
    forall k | k in d0
      ensures k in d <==> !d0[k].Expired(now)
    {
      assert d0[k] in ItemSet(s);
    }
  }

  /** The elements outside `dead` of a slice that holds nothing twice hold nothing twice either. */
  lemma {:induction false} SurvivorsDistinct<T>(s: seq<T>, dead: set<T>)
    requires Cache.Distinct(s)
    ensures Cache.Distinct(Survivors(s, dead))
  {
    if s != [] {
      var t, last := s[..|s| - 1], s[|s| - 1];
      assert Cache.Distinct(t) by {
        forall i, j | 0 <= i < j < |t|
          ensures t[i] != t[j]
        {
          assert t[i] == s[i] && t[j] == s[j];
        }
      }
      SurvivorsDistinct(t, dead);
      if last !in dead {
        var r := Survivors(t, dead);
        assert last !in t by {
          forall j | 0 <= j < |t|
            ensures t[j] != last
          {
            assert t[j] == s[j];
          }
        }
        var rr := r + [last];
        forall i, j | 0 <= i < j < |rr|
          ensures rr[i] != rr[j]
        {
          if j == |r| {
            assert rr[i] in r;
          } else {
            assert rr[i] == r[i] && rr[j] == r[j];
          }
        }
      }
    }
  }

  /** Records in each item of `kept` its position there. */
  method Renumber<K, V>(kept: seq<DLFUItem<K, V>>)
    requires Cache.Distinct(kept)
    modifies ItemSet(kept)`index
    ensures forall p :: 0 <= p < |kept| ==> kept[p].index == p
  {
    var j := 0;
    while j < |kept|
      invariant 0 <= j <= |kept|
      invariant forall p :: 0 <= p < j ==> kept[p].index == p
    {
      assert kept[j] in ItemSet(kept);
      kept[j].index := j;
      j := j + 1;
    }
  }

  class DLFUCache<K(==), V> {
    const capacity: int
    const gamma: real
    var incr: real
    const decay: real
    var data: map<K, DLFUItem<K, V>>
    const heap: DLFUMinHeap<K, V>

    /** The heap is indexed and ordered and holds exactly the stored items, each under its own key. */
    ghost predicate Valid()
      reads this`data, heap`items, ItemSet(heap.items)`priority, ItemSet(heap.items)`index
    {
      && capacity > 0
      && heap.Indexed()
      && heap.Ordered()
      && Stored(data, ItemSet(heap.items))
      && Owned(data, ItemSet(heap.items))
      && |heap.items| == |data|
    }

    /** The key-value view of the cache, expired entries included. */
    function Contents(): (m: map<K, V>)
      reads this`data, data.Values`value
      ensures m.Keys == data.Keys
      ensures forall k :: k in m ==> m[k] == data[k].value
    {
      ValueMap(data)
    }

    /** The entries `Get` can still return at `now`. */
    ghost function LiveContents(now: int): (m: map<K, V>)
      reads this`data, data.Values`value, data.Values`expiresAt
    {
      map k | k in data && !data[k].Expired(now) :: data[k].value
    }

    /** `NewDLFUCache`: Go panics unless `0 <= gamma <= 1`. */
    constructor (capacity: int, gamma: real)
      requires 0.0 <= gamma <= 1.0
      requires capacity > 0 && gamma > 0.0
      ensures this.capacity == capacity && this.gamma == gamma
      ensures incr == InitialIncr(gamma) && decay == Decay(capacity, gamma)
      ensures data == map[] && fresh(heap) && heap.items == [] && Valid()
    {
      this.capacity := capacity;
      this.gamma := gamma;
      data := map[];
      heap := new DLFUMinHeap();
      decay := Decay(capacity, gamma);
      incr := InitialIncr(gamma);
      new;
      heap.HeapInit();
    }

    /** Counts expired entries too. */
    function Size(): (n: nat)
      reads this`data
      ensures n == |Contents()|
    {
      |data|
    }

    /** Counts expired entries too, and touches no priority. */
    function Contains(key: K): (b: bool)
      reads this`data
      ensures b <==> key in Contents()
    {
      key in data
    }

    /**
     * A hit (a present key that has not expired) adds `incr` to the item's
     * priority and re-fixes the heap at the item's position; hit or miss,
     * `incr` is then multiplied by `decay`. An expired entry is left in place.
     */
    method Get(key: K, now: int) returns (r: Option<V>)
      requires Valid()
      modifies this`incr, heap`items, ItemSet(heap.items)`priority, ItemSet(heap.items)`index
      ensures Valid() && ItemSet(heap.items) == old(ItemSet(heap.items))
      ensures incr == old(incr) * decay
      ensures LiveContents(now) == old(LiveContents(now))
      ensures r.Some? <==> key in LiveContents(now)
      ensures r.Some? ==> r.value == LiveContents(now)[key]
      ensures r.None? ==> heap.items == old(heap.items)
      ensures r.Some? ==>
        && data[key].priority == old(data[key].priority) + old(incr)
        && heap.Slots() == Fix(old(heap.Slots())[old(data[key].index) := Slot(data[key], data[key].priority)], old(data[key].index))
      ensures forall y :: y in old(heap.items) && (r.Some? ==> y != data[key]) ==> y.priority == old(y.priority)
    {
      r := Lookup(key, now);
      Decline(now);
    }

    /** `Get` up to `c.incr *= c.decay`. */
    method Lookup(key: K, now: int) returns (r: Option<V>)
      requires Valid()
      modifies heap`items, ItemSet(heap.items)`priority, ItemSet(heap.items)`index
      ensures Valid() && ItemSet(heap.items) == old(ItemSet(heap.items))
      ensures LiveContents(now) == old(LiveContents(now))
      ensures r.Some? <==> key in LiveContents(now)
      ensures r.Some? ==> r.value == LiveContents(now)[key]
      ensures r.None? ==> heap.items == old(heap.items)
      ensures r.Some? ==>
        && data[key].priority == old(data[key].priority) + old(incr)
        && heap.Slots() == Fix(old(heap.Slots())[old(data[key].index) := Slot(data[key], data[key].priority)], old(data[key].index))
      ensures forall y :: y in old(heap.items) && (r.Some? ==> y != data[key]) ==> y.priority == old(y.priority)
    {
      if key in data && !data[key].Expired(now) {
        var item := data[key];
        Bump(item);
        r := Some(item.value);
      } else {
        r := None;
      }
    }

    /** `item.priority += c.incr; heap.Fix(c.heap, item.index)` for a stored item. */
    method Bump(item: DLFUItem<K, V>)
      requires Valid() && item.key in data && data[item.key] == item
      modifies heap`items, ItemSet(heap.items)`priority, ItemSet(heap.items)`index
      ensures Valid() && ItemSet(heap.items) == old(ItemSet(heap.items))
      ensures item.priority == old(item.priority) + incr
      ensures heap.Slots() == Fix(old(heap.Slots())[old(item.index) := Slot(item, item.priority)], old(item.index))
      ensures forall y :: y in old(heap.items) && y != item ==> y.priority == old(y.priority)
    {
      ghost var s := heap.Slots();
      item.priority := item.priority + incr;
      ghost var x := Slot(item, item.priority);
      assert heap.Slots() == s[item.index := x];
      FixKeepsHeap(s, item.index, x);
      heap.HeapFix(item.index);
    }

    /** `c.incr *= c.decay`; `now` only names the live entries, which stay as they are. */
    method Decline(ghost now: int)
      modifies this`incr
      ensures incr == old(incr) * decay
      ensures Valid() == old(Valid()) && heap.Slots() == old(heap.Slots())
      ensures LiveContents(now) == old(LiveContents(now))
    {
      incr := incr * decay;
    }

    /** Each key is looked up with `Get`, so each one multiplies `incr` by `decay`. */
    method GetMany(keys: seq<K>, now: int) returns (values: map<K, V>, missing: seq<K>)
      requires Valid()
      modifies this`incr, heap`items, ItemSet(heap.items)`priority, ItemSet(heap.items)`index
      ensures Valid() && ItemSet(heap.items) == old(ItemSet(heap.items))
      ensures values == Cache.Found(keys, LiveContents(now))
      ensures missing == Cache.Absent(keys, LiveContents(now).Keys)
      ensures incr == Decayed(old(incr), decay, |keys|)
      ensures forall y :: y in old(ItemSet(heap.items)) ==>
        y.priority == old(y.priority) + if y.Expired(now) then 0.0 else Gain(keys, |keys|, y.key, old(incr), decay)
    {
      values := map[];
      missing := [];
      ghost var m, items0, incr0 := LiveContents(now), ItemSet(heap.items), incr;
      ghost var p0 := map y | y in items0 :: y.priority;
      for i := 0 to |keys|
        invariant Scanned(keys, i, now, m, values, missing, items0, incr0, p0)
      {
        values, missing := GetNext(keys, i, now, m, values, missing, items0, incr0, p0);
      }
      assert keys[..|keys|] == keys;
    }

    /**
     * `GetMany`'s loop invariant: the first `i` keys are filed, the live entries
     * are still `m`, `incr` has decayed once per key from `incr0`, and each
     * live item's priority has grown from `p0` by its `Gain`.
     */
    ghost predicate Scanned(keys: seq<K>, i: nat, now: int, m: map<K, V>, values: map<K, V>, missing: seq<K>,
                            items0: set<DLFUItem<K, V>>, incr0: real, p0: map<DLFUItem<K, V>, real>)
      reads this`incr, this`data, data.Values`value, data.Values`expiresAt, heap`items, ItemSet(heap.items)`priority, ItemSet(heap.items)`index
      reads ItemSet(heap.items)`expiresAt
    {
      && i <= |keys| && incr == Decayed(incr0, decay, i)
      && Valid() && ItemSet(heap.items) == items0 && LiveContents(now) == m
      && values == Cache.Found(keys[..i], m) && missing == Cache.Absent(keys[..i], m.Keys)
      && p0.Keys == items0 && Gained(keys, i, now, incr0, p0)
    }

    /** Each live item's priority has grown from `p0` by its `Gain` over the first `i` keys; an expired one's has not moved. */
    ghost predicate Gained(keys: seq<K>, i: nat, now: int, incr0: real, p0: map<DLFUItem<K, V>, real>)
      requires i <= |keys|
      reads p0.Keys`priority, p0.Keys`expiresAt
    {
      forall y :: y in p0 ==> y.priority == p0[y] + if y.Expired(now) then 0.0 else Gain(keys, i, y.key, incr0, decay)
    }

    /** `Get` of the `i`th key: the live item of that key, if any, gains the increment in effect. */
    method ReadNext(keys: seq<K>, i: nat, now: int, ghost incr0: real, ghost p0: map<DLFUItem<K, V>, real>) returns (r: Option<V>)
      requires i < |keys| && Valid() && incr == Decayed(incr0, decay, i)
      requires p0.Keys == ItemSet(heap.items) && Gained(keys, i, now, incr0, p0)
      modifies this`incr, heap`items, ItemSet(heap.items)`priority, ItemSet(heap.items)`index
      ensures Valid() && ItemSet(heap.items) == old(ItemSet(heap.items)) && LiveContents(now) == old(LiveContents(now))
      ensures r.Some? <==> keys[i] in LiveContents(now)
      ensures r.Some? ==> r.value == LiveContents(now)[keys[i]]
      ensures incr == Decayed(incr0, decay, i + 1)
      ensures Gained(keys, i + 1, now, incr0, p0)
    {
      ghost var before := incr;
      r := Get(keys[i], now);
      DecayStep(incr0, decay, i, before, incr);
      forall y | y in p0
        ensures y.priority == p0[y] + if y.Expired(now) then 0.0 else Gain(keys, i + 1, y.key, incr0, decay)
      {
        if y.key == keys[i] && !y.Expired(now) {
          assert y == data[keys[i]] && r.Some?;
        }
      }
    }

    /** One round of `GetMany`'s loop: `Get` the `i`th key and file it as found or missing. */
    method GetNext(keys: seq<K>, i: nat, now: int, ghost m: map<K, V>, values: map<K, V>, missing: seq<K>,
                   ghost items0: set<DLFUItem<K, V>>, ghost incr0: real, ghost p0: map<DLFUItem<K, V>, real>)
      returns (values': map<K, V>, missing': seq<K>)
      requires i < |keys| && Scanned(keys, i, now, m, values, missing, items0, incr0, p0)
      modifies this`incr, heap`items, ItemSet(heap.items)`priority, ItemSet(heap.items)`index
      ensures Scanned(keys, i + 1, now, m, values', missing', items0, incr0, p0)
    {
      Cache.FoundSnoc(keys, i, m);
      Cache.AbsentSnoc(keys, i, m.Keys);
      var r := ReadNext(keys, i, now, incr0, p0);
      if r.Some? {
        values' := values[keys[i] := r.value];
        missing' := missing;
      } else {
        values' := values;
        missing' := missing + [keys[i]];
      }
    }

    /**
     * A present key is updated in place (value, expiry, priority reset to
     * `incr`) and its item re-fixed in the heap. A new key gets a new item with
     * priority `incr`; then expired roots are popped, and if the map is still
     * over capacity the root is evicted.
     */
    method Set(key: K, value: V, expiry: int, now: int)
      returns (ghost item: DLFUItem<K, V>, ghost gone: set<K>, ghost evicted: Option<DLFUItem<K, V>>)
      requires Valid()
      modifies this`data, heap`items, ItemSet(heap.items)`value, ItemSet(heap.items)`expiresAt
      modifies ItemSet(heap.items)`priority, ItemSet(heap.items)`index
      ensures Valid()
      ensures item.key == key && item.value == value && item.expiresAt == now + expiry && item.priority == incr
      ensures forall y :: y in old(ItemSet(heap.items)) && y != item ==>
        y.value == old(y.value) && y.expiresAt == old(y.expiresAt) && y.priority == old(y.priority)
      ensures forall k :: k in data ==> k in old(data)[key := item] && data[k] == old(data)[key := item][k]
      ensures key in old(data) ==>
        && item == old(data[key]) && data == old(data) && gone == {} && evicted.None?
        && heap.Slots() == Fix(old(heap.Slots())[old(item.index) := Slot(item, incr)], old(item.index))
      ensures key !in old(data) ==>
        && fresh(item)
        && gone <= old(data).Keys + {key}
        && (forall k :: k in gone ==> if k == key then item.Expired(now) else old(data[k]) in old(Dead(heap.items, now)))
        && (evicted.None? ==> heap.items == [] || !heap.items[0].Expired(now))
        && (evicted.None? ==> data == old(data)[key := item] - gone)
        && (evicted.Some? ==> Evicted(old(data)[key := item] - gone, evicted.value))
        && (gone == {} && evicted.None? ==> heap.Slots() == Pushed(old(heap.Slots()), Slot(item, incr)))
        && (gone == {} && evicted.Some? ==> heap.Slots() == Popped(Pushed(old(heap.Slots()), Slot(item, incr))).0)
      ensures old(|data|) <= capacity ==> |data| <= capacity
      ensures ItemSet(heap.items) <= old(ItemSet(heap.items)) + {item}
    {
      if key in data {
        var it := data[key];
        Update(it, value, now + expiry);
        item := it;
        gone, evicted := {}, None;
      } else {
        var it;
        ghost var d1, s1, dead1;
        it, gone, evicted, d1, s1, dead1 := AddNew(key, value, now + expiry, now);
        item := it;
      }
    }

    /** `e`, the least item left, was evicted from `d`: its key is gone and the map no longer holds too many. */
    ghost predicate Evicted(d: map<K, DLFUItem<K, V>>, e: DLFUItem<K, V>)
      reads this`data, heap`items, ItemSet(heap.items)`priority, ItemSet(heap.items)`index, e`priority
    {
      && |d| > capacity && e.key in d && d[e.key] == e
      && data == d - {e.key}
      && e !in heap.items
      && forall y :: y in heap.items ==> e.priority <= y.priority
    }

    /** The update branch of `Set`: new value and expiry, priority reset to `incr`, then `heap.Fix`. */
    method Update(item: DLFUItem<K, V>, value: V, expiresAt: int)
      requires Valid() && item.key in data && data[item.key] == item
      modifies item`value, item`expiresAt, item`priority, heap`items, ItemSet(heap.items)`index
      ensures Valid() && ItemSet(heap.items) == old(ItemSet(heap.items))
      ensures item.value == value && item.expiresAt == expiresAt && item.priority == incr
      ensures forall y :: y in old(ItemSet(heap.items)) && y != item ==>
        y.value == old(y.value) && y.expiresAt == old(y.expiresAt) && y.priority == old(y.priority)
      ensures heap.Slots() == Fix(old(heap.Slots())[old(item.index) := Slot(item, incr)], old(item.index))
    {
      ghost var s, i := heap.Slots(), item.index;
      item.value := value;
      item.expiresAt := expiresAt;
      item.priority := incr;
      ghost var x := Slot(item, incr);
      assert heap.Slots() == s[i := x];
      FixKeepsHeap(s, i, x);
      heap.HeapFix(item.index);
    }

    /**
     * The insertion branch of `Set`: push a new item, pop expired roots, evict
     * if over capacity. `d1`, `s1` and `dead1` are the map, the heap and the
     * expired items right after the push.
     */
    method AddNew(key: K, value: V, expiresAt: int, now: int)
      returns (item: DLFUItem<K, V>, ghost gone: set<K>, ghost evicted: Option<DLFUItem<K, V>>,
               ghost d1: map<K, DLFUItem<K, V>>, ghost s1: seq<Slot<DLFUItem<K, V>>>, ghost dead1: set<DLFUItem<K, V>>)
      requires Valid() && key !in data
      modifies this`data, heap`items, ItemSet(heap.items)`index
      ensures item.key == key && item.value == value && item.expiresAt == expiresAt && item.priority == incr
      ensures d1 == old(data)[key := item] && s1 == Pushed(old(heap.Slots()), Slot(item, incr))
      ensures forall y :: y in dead1 ==> if y == item then expiresAt < now else y in old(Dead(heap.items, now))
      ensures Valid() && gone <= d1.Keys && forall k :: k in gone ==> d1[k] in dead1
      ensures evicted.None? ==> (heap.items == [] || !heap.items[0].Expired(now)) && data == d1 - gone
      ensures evicted.Some? ==> Evicted(d1 - gone, evicted.value)
      ensures gone == {} && evicted.None? ==> heap.Slots() == s1
      ensures gone == {} && evicted.Some? ==> heap.Slots() == Popped(s1).0
      ensures old(|data|) <= capacity ==> |data| <= capacity
      ensures fresh(item) && ItemSet(heap.items) <= old(ItemSet(heap.items)) + {item}
      ensures forall k :: k in data ==> k in old(data)[key := item] && data[k] == old(data)[key := item][k]
      ensures forall y :: y in old(ItemSet(heap.items)) && y != item ==>
        y.value == old(y.value) && y.expiresAt == old(y.expiresAt) && y.priority == old(y.priority)
    {
      ghost var items0, dead0 := heap.items, Dead(heap.items, now);
      item := Insert(key, value, expiresAt);
      assert Dead(items0, now) == dead0;
      d1, s1, dead1 := data, heap.Slots(), Dead(heap.items, now);
      DeadAfterPush(items0, heap.items, item, now);
      assert forall y :: y in dead1 ==> if y == item then expiresAt < now else y in dead0;
      gone, evicted := Settle(now, d1, s1, dead1);
    }

    /**
     * `Set`'s tail after a push: pop the expired roots, then evict the root if
     * still over capacity. `d1`, `s1` and `dead1` name the map, the heap and
     * the expired items it starts from.
     */
    method Settle(now: int, ghost d1: map<K, DLFUItem<K, V>>, ghost s1: seq<Slot<DLFUItem<K, V>>>,
                  ghost dead1: set<DLFUItem<K, V>>) returns (ghost gone: set<K>, ghost evicted: Option<DLFUItem<K, V>>)
      requires Valid() && data == d1 && heap.Slots() == s1 && Dead(heap.items, now) == dead1
      modifies this`data, heap`items, ItemSet(heap.items)`index
      ensures Valid() && gone <= d1.Keys && forall k :: k in gone ==> d1[k] in dead1
      ensures evicted.None? ==> (heap.items == [] || !heap.items[0].Expired(now)) && data == d1 - gone
      ensures evicted.Some? ==> Evicted(d1 - gone, evicted.value)
      ensures gone == {} && evicted.None? ==> heap.Slots() == s1
      ensures gone == {} && evicted.Some? ==> heap.Slots() == Popped(s1).0
      ensures |d1| <= capacity + 1 ==> |data| <= capacity
      ensures ItemSet(heap.items) <= old(ItemSet(heap.items))
      ensures forall k :: k in data ==> k in d1 && data[k] == d1[k]
    {
      gone := PopExpired(now);
      ghost var s2 := heap.Slots();
      assert gone == {} ==> s2 == s1;
      evicted := Trim();
      assert evicted.None? ==> heap.Slots() == s2;
      assert evicted.Some? ==> heap.Slots() == Popped(s2).0;
    }

    /** `item := &DLFUItem{key, value, priority: c.incr, expiresAt}; c.data[key] = item; heap.Push(c.heap, item)`. */
    method Insert(key: K, value: V, expiresAt: int) returns (it: DLFUItem<K, V>)
      requires Valid() && key !in data
      modifies this`data, heap`items, ItemSet(heap.items)`index
      ensures fresh(it) && it.key == key && it.value == value && it.expiresAt == expiresAt && it.priority == incr
      ensures Valid() && data == old(data)[key := it] && |data| == old(|data|) + 1
      ensures heap.Slots() == Pushed(old(heap.Slots()), Slot(it, incr))
      ensures ItemSet(heap.items) == old(ItemSet(heap.items)) + {it}
    {
      it := new DLFUItem(key, value, incr, expiresAt);
      StoredAfterPush(data, ItemSet(heap.items), it);
      OwnedAfterPush(data, ItemSet(heap.items), it);
      Store(it);
      heap.HeapPush(it);
    }

    /**
     * `Set`'s loop: while the root has expired, pop it and delete its key. The
     * heap ends as `PoppedWhile` over the items that had expired at `now`.
     */
    method PopExpired(now: int) returns (ghost gone: set<K>)
      requires Valid()
      modifies this`data, heap`items, ItemSet(heap.items)`index
      ensures Valid() && ItemSet(heap.items) <= old(ItemSet(heap.items))
      ensures heap.Slots() == PoppedWhile(old(heap.Slots()), old(Dead(heap.items, now)))
      ensures gone <= old(data).Keys && data == old(data) - gone && |data| <= old(|data|)
      ensures forall k :: k in gone ==> old(data[k]) in old(Dead(heap.items, now))
      ensures forall k :: k in gone ==> k in old(data) && old(data)[k].Expired(now)
      ensures Dead(old(heap.items), now) == old(Dead(heap.items, now))
      ensures heap.items == [] || !heap.items[0].Expired(now)
      ensures gone == {} <==> heap.items == old(heap.items)
      ensures gone == {} ==> heap.Slots() == old(heap.Slots())
      ensures gone == {} ==> forall x :: x in old(heap.items) ==> x.index == old(x.index)
      ensures gone == {} <==> old(RootLive(now))
    {
      gone := {};
      ghost var d0, s0, dead, slots0 := data, heap.items, Dead(heap.items, now), heap.Slots();
      while heap.Len() > 0 && heap.items[0].Expired(now)
        invariant Expelling(d0, s0, dead, slots0, gone)
        decreases |heap.items|
      {
        assert Dead(s0, now) == dead && heap.items[0] in ItemSet(s0);
        gone := PopNext(d0, s0, dead, slots0, gone);
      }
      assert Dead(s0, now) == dead;
    }

    /** One round of `PopExpired`'s loop: the root, one of the `dead`, leaves the heap and its key the map. */
    method PopNext(ghost d0: map<K, DLFUItem<K, V>>, ghost s0: seq<DLFUItem<K, V>>, ghost dead: set<DLFUItem<K, V>>,
                   ghost slots0: seq<Slot<DLFUItem<K, V>>>, ghost gone: set<K>) returns (ghost gone': set<K>)
      requires Expelling(d0, s0, dead, slots0, gone) && |heap.items| > 0 && heap.items[0] in dead
      modifies this`data, heap`items, ItemSet(heap.items)`index
      ensures Expelling(d0, s0, dead, slots0, gone') && |heap.items| < old(|heap.items|)
    {
      ghost var sl, d := heap.Slots(), data;
      var top := EvictRoot();
      gone' := gone + {top.key};
      ExpelStep(d0, d, data, gone, top, dead);
      PoppedWhileStep(sl, dead);
    }

    /**
     * `PopExpired`'s loop invariant: the keys in `gone` were taken from `d0`
     * and belonged to `dead` items, and the heap, popped on while its root is
     * dead, ends where the heap it started from, `slots0`, would.
     */
    ghost predicate Expelling(d0: map<K, DLFUItem<K, V>>, s0: seq<DLFUItem<K, V>>, dead: set<DLFUItem<K, V>>,
                              slots0: seq<Slot<DLFUItem<K, V>>>, gone: set<K>)
      reads this`data, heap`items, ItemSet(heap.items)`priority, ItemSet(heap.items)`index
    {
      && Valid() && ItemSet(heap.items) <= ItemSet(s0)
      && gone <= d0.Keys && data == d0 - gone && |data| <= |d0|
      && (forall k :: k in gone ==> d0[k] in dead)
      && PoppedWhile(heap.Slots(), dead) == PoppedWhile(slots0, dead)
      && (gone == {} ==> heap.items == s0)
      && (gone != {} ==> |heap.items| < |s0|)
    }

    /** The heap is empty or its root has not expired at `now`: `PopExpired` pops nothing. */
    ghost predicate RootLive(now: int)
      reads heap`items, ItemSet(heap.items)`expiresAt
    {
      heap.items == [] || !heap.items[0].Expired(now)
    }

    /** `if len(c.data) > c.capacity`: pops the root and deletes its key. */
    method Trim() returns (ghost evicted: Option<DLFUItem<K, V>>)
      requires Valid()
      modifies this`data, heap`items, ItemSet(heap.items)`index
      ensures Valid()
      ensures evicted.None? ==> |old(data)| <= capacity && data == old(data) && heap.items == old(heap.items)
      ensures evicted.None? ==> heap.Slots() == old(heap.Slots())
      ensures ItemSet(heap.items) <= old(ItemSet(heap.items))
      ensures evicted.Some? ==>
        && Evicted(old(data), evicted.value)
        && |old(heap.items)| > 0 && evicted.value == old(heap.items[0])
        && heap.Slots() == Popped(old(heap.Slots())).0
    {
      if |data| > capacity {
        var e := EvictRoot();
        evicted := Some(e);
      } else {
        evicted := None;
      }
    }

    /** `heap.Pop(c.heap)` and `delete(c.data, top.key)`: the root leaves the heap and the map. */
    method EvictRoot() returns (e: DLFUItem<K, V>)
      requires Valid() && |heap.items| > 0
      modifies this`data, heap`items, ItemSet(heap.items)`index
      ensures Valid() && e == old(heap.items[0]) && e.key in old(data) && old(data[e.key]) == e
      ensures data == old(data) - {e.key} && |data| == old(|data|) - 1
      ensures heap.Slots() == Popped(old(heap.Slots())).0
      ensures ItemSet(heap.items) + {e} == old(ItemSet(heap.items)) && e !in heap.items
      ensures forall y :: y in heap.items ==> e.priority <= y.priority
    {
      PopTakesMinimum(heap.Slots());
      e := heap.HeapPop();
      OwnedAfterEvict(data, ItemSet(heap.items), e);
      StoredAfterEvict(data, ItemSet(heap.items), e);
      Forget(e.key);
    }

    /** Go visits `items` in an unspecified order; any order is allowed here, and one `now` serves them all. */
    method SetMany(items: map<K, V>, expiry: int, now: int)
      requires Valid()
      modifies this`data, heap`items, ItemSet(heap.items)`value, ItemSet(heap.items)`expiresAt
      modifies ItemSet(heap.items)`priority, ItemSet(heap.items)`index
      ensures Valid()
      ensures forall k :: k in data ==>
        if k in items then data[k].value == items[k] && data[k].expiresAt == now + expiry
        else k in old(data) && data[k].value == old(data[k].value) && data[k].expiresAt == old(data[k].expiresAt)
      ensures old(|data|) <= capacity ==> |data| <= capacity
    {
      var rest := items.Keys;
      ghost var v0 := map k | k in data :: data[k].value;
      ghost var e0 := map k | k in data :: data[k].expiresAt;
      while rest != {}
        invariant Batched(items, rest, now + expiry, v0, e0, old(|data|) <= capacity)
        invariant forall x :: x in ItemSet(heap.items) ==> x in old(ItemSet(heap.items)) || fresh(x)
        decreases rest
      {
        var key :| key in rest;
        SetNext(items, rest, key, expiry, now, v0, e0, old(|data|) <= capacity);
        rest := rest - {key};
      }
    }

    /**
     * `SetMany`'s loop invariant: each key of `items` outside `rest` that is
     * still stored holds its new value and expiry, every other stored key
     * holds the value and expiry `v0` and `e0` recorded, and the map fits the
     * capacity if it did at the start (`bounded`).
     */
    ghost predicate Batched(items: map<K, V>, rest: set<K>, expiresAt: int, v0: map<K, V>, e0: map<K, int>, bounded: bool)
      reads this`data, heap`items, ItemSet(heap.items)`priority, ItemSet(heap.items)`index
      reads data.Values`value, data.Values`expiresAt
    {
      && Valid() && rest <= items.Keys
      && (forall k :: k in data ==>
            if k in items && k !in rest then data[k].value == items[k] && data[k].expiresAt == expiresAt
            else k in v0 && k in e0 && data[k].value == v0[k] && data[k].expiresAt == e0[k])
      && (bounded ==> |data| <= capacity)
    }

    /** One round of `SetMany`'s loop: `Set(key, items[key], expiry)`. */
    method SetNext(items: map<K, V>, rest: set<K>, key: K, expiry: int, now: int,
                   ghost v0: map<K, V>, ghost e0: map<K, int>, ghost bounded: bool)
      requires Batched(items, rest, now + expiry, v0, e0, bounded) && key in rest
      modifies this`data, heap`items, ItemSet(heap.items)`value, ItemSet(heap.items)`expiresAt
      modifies ItemSet(heap.items)`priority, ItemSet(heap.items)`index
      ensures Batched(items, rest - {key}, now + expiry, v0, e0, bounded)
      ensures forall x :: x in ItemSet(heap.items) ==> x in old(ItemSet(heap.items)) || fresh(x)
    {
      ghost var d0, is0 := data, ItemSet(heap.items);
      ghost var item, _, _ := Set(key, items[key], expiry, now);
      assert forall k :: k in data && k != key ==> data[k] == d0[k] && d0[k] in is0 && d0[k] != item;
    }

    /** `heap.Remove(c.heap, item.index)` and the key's deletion; a missing key is a no-op. */
    method Delete(key: K)
      requires Valid()
      modifies this`data, heap`items, ItemSet(heap.items)`index
      ensures Valid() && data == old(data) - {key}
      ensures key !in old(data) ==> heap.items == old(heap.items)
      ensures key in old(data) ==>
        && ItemSet(heap.items) + {old(data[key])} == old(ItemSet(heap.items))
        && heap.Slots() == Removed(old(heap.Slots()), old(data[key].index)).0
    {
      if key in data {
        Unlink(data[key]);
      }
    }

    /** Takes a stored item out of the heap at its recorded position and deletes its key. */
    method Unlink(item: DLFUItem<K, V>)
      requires Valid() && item.key in data && data[item.key] == item
      modifies this`data, heap`items, ItemSet(heap.items)`index
      ensures Valid() && data == old(data) - {item.key}
      ensures ItemSet(heap.items) + {item} == old(ItemSet(heap.items)) && item !in heap.items
      ensures heap.Slots() == Removed(old(heap.Slots()), old(item.index)).0
    {
      var p :| 0 <= p < |heap.items| && heap.items[p] == item;
      var x := heap.HeapRemove(item.index);
      StoredAfterEvict(data, ItemSet(heap.items), x);
      OwnedAfterEvict(data, ItemSet(heap.items), x);
      Forget(item.key);
    }

    /** `c.data[it.key] = it`: the heap is not touched. */
    method Store(it: DLFUItem<K, V>)
      modifies this`data
      ensures data == old(data)[it.key := it]
      ensures heap.Ordered() == old(heap.Ordered()) && heap.Indexed() == old(heap.Indexed())
      ensures heap.Slots() == old(heap.Slots())
    {
      data := data[it.key := it];
    }

    /** `delete(c.data, key)`: the heap is not touched. */
    method Forget(key: K)
      modifies this`data
      ensures data == old(data) - {key}
      ensures heap.Ordered() == old(heap.Ordered()) && heap.Indexed() == old(heap.Indexed())
      ensures heap.Slots() == old(heap.Slots())
    {
      data := data - {key};
    }

    /** Empties the map and the heap; `incr` keeps its decayed value. */
    method Clear()
      requires Valid()
      modifies this`data, heap`items
      ensures Valid() && Contents() == map[] && heap.items == [] && incr == old(incr)
    {
      data := map[];
      heap.Reset();
      heap.HeapInit();
    }

    /**
     * The corrected `removeExpiredItems` (`RemoveExpiredAsWritten` is the
     * function as Go writes it), with the rebuilt slice's positions recorded
     * (`item.index = len(*newHeap)` before the append): every expired entry
     * leaves the map and the heap, and the cache stays valid.
     */
    method RemoveExpiredItems(now: int)
      requires Valid()
      modifies this`data, heap`items, ItemSet(heap.items)`index
      ensures Valid() && data == Unexpired(old(data), now)
    {
      var kept := Purge(now);
      heap.Reload(kept);
    }

    /**
     * `removeExpiredItems` up to `heap.Init`, corrected: the pop loop, the
     * rebuild loop, and each kept item's `index` set to its position in the
     * new slice. The correction sets it inside the rebuild loop; `Renumber`
     * sets it in a pass of its own after that loop, which ends in the same
     * state.
     */
    method Purge(now: int) returns (kept: seq<DLFUItem<K, V>>)
      requires Valid()
      modifies this`data, heap`items, ItemSet(heap.items)`index
      ensures data == Unexpired(old(data), now) && |kept| == |data| && capacity > 0
      ensures Stored(data, ItemSet(kept)) && Owned(data, ItemSet(kept))
      ensures forall p :: 0 <= p < |kept| ==> kept[p].index == p
    {
      kept := Collect(now);
      Renumber(kept);
    }

    /**
     * `removeExpiredItems` as written (nothing in the package calls it): the
     * expired roots are popped, the live items are copied in slice order to a
     * new slice and the keys of the expired ones deleted, and `heap.Init`
     * orders the new slice. No `index` of the new slice is set, so when no
     * root was popped and the copy is already ordered, each item keeps the
     * position it had in the old slice.
     */
    method RemoveExpiredAsWritten(now: int) returns (ghost kept: seq<DLFUItem<K, V>>, ghost ordered: bool)
      requires Valid()
      modifies this`data, heap`items, ItemSet(heap.items)`index
      ensures data == Unexpired(old(data), now)
      ensures Stored(data, ItemSet(heap.items)) && Owned(data, ItemSet(heap.items)) && |heap.items| == |data|
      ensures heap.Ordered() && ItemSet(heap.items) == ItemSet(kept)
      ensures old(RootLive(now)) ==> kept == Survivors(old(heap.items), old(Dead(heap.items, now)))
      ensures ordered == IsHeap(View(kept))
      ensures old(RootLive(now)) && ordered ==> heap.items == kept && forall x :: x in kept ==> x.index == old(x.index)
    {
      var k := Collect(now);
      kept, ordered := k, IsHeap(View(k));
      heap.Reload(k);
    }

    /**
     * `removeExpiredItems` as written, up to `heap.Init`: the pop loop, then
     * the rebuild loop. `kept` holds no item twice, and when no root was
     * popped it is the old slice without its expired items, whose positions
     * are left as they were.
     */
    method Collect(now: int) returns (kept: seq<DLFUItem<K, V>>)
      requires Valid()
      modifies this`data, heap`items, ItemSet(heap.items)`index
      ensures data == Unexpired(old(data), now) && |kept| == |data|
      ensures Stored(data, ItemSet(kept)) && Owned(data, ItemSet(kept)) && Cache.Distinct(kept)
      ensures ItemSet(kept) <= old(ItemSet(heap.items))
      ensures old(RootLive(now)) ==> kept == Survivors(old(heap.items), old(Dead(heap.items, now)))
      ensures old(RootLive(now)) ==> forall x :: x in old(heap.items) ==> x.index == old(x.index)
    {
      ghost var d0 := data;
      ghost var popped := PopExpired(now);
      ghost var s1, d1 := heap.items, data;
      kept := Sweep(now);
      LiveAgree(d1, s1, now);
      UnexpiredWithout(d0, popped, now);
      SurvivorsDistinct(s1, Dead(s1, now));
    }

    /**
     * The rebuild loop of `removeExpiredItems`: each live item of the slice is
     * appended to `kept` in slice order, and each expired item's key is
     * deleted from the map.
     */
    method Sweep(now: int) returns (kept: seq<DLFUItem<K, V>>)
      requires Valid()
      modifies this`data
      ensures kept == LiveItems(heap.items, now)
      ensures data == Unexpired(old(data), now) && |data| == |kept|
    {
      ghost var d0, dead := data, Dead(heap.items, now);
      SweepStarts(heap.items, data, dead);
      kept := [];
      var i := 0;
      while i < |heap.items|
        invariant Swept(heap.items, i, kept, d0, data, dead)
        decreases |heap.items| - i
      {
        SweepStep(heap.items, i, kept, d0, data, dead);
        assert heap.items[i] in ItemSet(heap.items);
        kept := SweepOne(i, kept, dead, now);
        i := i + 1;
      }
      SweepEnds(heap.items, kept, d0, data, now);
    }

    /** One round of `Sweep`: the item at `i` is appended, or its key deleted. */
    method SweepOne(i: int, kept: seq<DLFUItem<K, V>>, ghost dead: set<DLFUItem<K, V>>, now: int)
      returns (kept': seq<DLFUItem<K, V>>)
      requires 0 <= i < |heap.items| && (heap.items[i] in dead <==> heap.items[i].Expired(now))
      modifies this`data
      ensures heap.items[i] in dead ==> kept' == kept && data == old(data) - {heap.items[i].key}
      ensures heap.items[i] !in dead ==> kept' == kept + [heap.items[i]] && data == old(data)
    {
      var item := heap.items[i];
      if !item.Expired(now) {
        kept' := kept + [item];
      } else {
        kept' := kept;
        data := data - {item.key};
      }
    }

    /** The heap holds exactly the stored items. */
    lemma HeldItems()
      requires Valid()
      ensures ItemSet(heap.items) == data.Values
    {
      forall x | x in ItemSet(heap.items) ensures x in data.Values {
        assert data[x.key] == x;
      }
    }

    /** Go lists the keys in map iteration order, which is unspecified; expired keys are listed too. */
    method Keys() returns (keys: seq<K>)
      ensures |keys| == Size() && Cache.Distinct(keys)
      ensures forall k :: k in keys <==> k in Contents()
    {
      keys := Cache.ListKeys(data);
    }

    /** Go lists the values in map iteration order, which is unspecified; expired values are listed too. */
    method Values() returns (values: seq<V>)
      ensures |values| == Size()
      ensures multiset(values) == Cache.Bag(Contents())
    {
      values := Cache.ListValues(Contents());
    }
  }

  // ---------------------------------------------------------------------------
  // The stale index left by `removeExpiredItems`, on a cache with room for
  // three keys and gamma 0.5: every new item gets priority `incr`, so all
  // three items below have equal priority and the heap keeps them in order.
  // ---------------------------------------------------------------------------

  /** A `Set` of a new key into a cache with room to spare and nothing expired: nothing is popped. */
  method SetNew<V>(c: DLFUCache<int, V>, key: int, v: V, expiry: int, now: int) returns (ghost item: DLFUItem<int, V>)
    requires c.Valid() && key !in c.data && |c.data| < c.capacity && 0 <= expiry
    requires forall y :: y in c.heap.items ==> !y.Expired(now)
    modifies c`data, c.heap`items, ItemSet(c.heap.items)`value, ItemSet(c.heap.items)`expiresAt
    modifies ItemSet(c.heap.items)`priority, ItemSet(c.heap.items)`index
    ensures c.Valid() && fresh(item) && c.data == old(c.data)[key := item]
    ensures item.key == key && item.value == v && item.expiresAt == now + expiry && item.priority == c.incr
    ensures c.heap.Slots() == Pushed(old(c.heap.Slots()), Slot(item, c.incr))
    ensures forall y :: y in old(ItemSet(c.heap.items)) && y != item ==>
      y.value == old(y.value) && y.expiresAt == old(y.expiresAt) && y.priority == old(y.priority)
  {
    assert Dead(c.heap.items, now) == {};
    ghost var d0 := c.data;
    ghost var gone, e;
    item, gone, e := c.Set(key, v, expiry, now);
    assert gone == {};
    assert |d0[key := item] - gone| == |d0| + 1 && e.None?;
  }

  /** A new cache, after a `Set` at time 0 of key 0 expiring at 10. */
  method OneKey<V>(v1: V) returns (c: DLFUCache<int, V>, ghost a: DLFUItem<int, V>)
    ensures fresh(c) && fresh(c.heap) && fresh(a) && c.capacity == 3 && c.Valid()
    ensures c.data == map[0 := a] && c.heap.items == [a]
    ensures a.key == 0 && a.value == v1 && a.expiresAt == 10 && a.priority == c.incr
  {
    c := new DLFUCache(3, 0.5);
    a := SetNew(c, 0, v1, 10, 0);
    assert c.heap.items[0] == c.heap.Slots()[0].elem;
  }

  /** `OneKey`, then a `Set` at time 0 of key 1 expiring at 1. */
  method TwoKeys<V>(v1: V, v2: V) returns (c: DLFUCache<int, V>, ghost a: DLFUItem<int, V>, ghost b: DLFUItem<int, V>)
    ensures fresh(c) && fresh(c.heap) && fresh(a) && fresh(b) && c.capacity == 3 && c.Valid()
    ensures c.data == map[0 := a, 1 := b] && c.heap.items == [a, b]
    ensures a.key == 0 && a.value == v1 && a.expiresAt == 10 && a.priority == c.incr
    ensures b.key == 1 && b.expiresAt == 1 && b.priority == c.incr
  {
    c, a := OneKey(v1);
    b := SetNew(c, 1, v2, 1, 0);
    PushBehind(Slot(a, c.incr), Slot(b, c.incr));
    assert c.heap.items[0] == c.heap.Slots()[0].elem && c.heap.items[1] == c.heap.Slots()[1].elem;
  }

  /** `TwoKeys`, then a `Set` at time 0 of key 2 expiring at 10: the items sit at positions 0, 1 and 2. */
  method ThreeKeys<V>(v1: V, v2: V, v3: V)
    returns (c: DLFUCache<int, V>, ghost a: DLFUItem<int, V>, ghost b: DLFUItem<int, V>, ghost x: DLFUItem<int, V>)
    ensures fresh(c) && fresh(c.heap) && fresh(a) && fresh(b) && fresh(x) && c.capacity == 3 && c.Valid()
    ensures c.data == map[0 := a, 1 := b, 2 := x] && c.heap.items == [a, b, x]
    ensures a.value == v1 && a.expiresAt == 10 && b.expiresAt == 1 && x.value == v3 && x.expiresAt == 10
    ensures a.priority == b.priority == x.priority
  {
    c, a, b := TwoKeys(v1, v2);
    assert ItemSet(c.heap.items) == {a, b};
    x := SetThird(c, a, b, v3);
  }

  /** The last step of `ThreeKeys`. */
  method SetThird<V>(c: DLFUCache<int, V>, ghost a: DLFUItem<int, V>, ghost b: DLFUItem<int, V>, v3: V) returns (ghost x: DLFUItem<int, V>)
    requires c.capacity == 3 && c.Valid() && c.data == map[0 := a, 1 := b] && c.heap.items == [a, b]
    requires a.expiresAt == 10 && b.expiresAt == 1 && a.priority == b.priority == c.incr
    modifies c`data, c.heap`items, ItemSet(c.heap.items)`value, ItemSet(c.heap.items)`expiresAt
    modifies ItemSet(c.heap.items)`priority, ItemSet(c.heap.items)`index
    ensures c.Valid() && fresh(x) && c.data == map[0 := a, 1 := b, 2 := x] && c.heap.items == [a, b, x]
    ensures a.value == old(a.value) && a.expiresAt == 10 && b.expiresAt == 1 && x.value == v3 && x.expiresAt == 10
    ensures a.priority == b.priority == x.priority
  {
    assert c.heap.Slots() == [Slot(a, c.incr), Slot(b, c.incr)];
    x := SetNew(c, 2, v3, 10, 0);
    PopOfThreeEqual(Slot(a, c.incr), Slot(b, c.incr), Slot(x, c.incr));
    ThreeSlots(c.heap.items, a, b, x, c.incr);
  }

  /** What `removeExpiredItems` sees at time 5 after `ThreeKeys`: the root is live and only key 1 has expired. */
  lemma AtFive<V>(c: DLFUCache<int, V>, a: DLFUItem<int, V>, b: DLFUItem<int, V>, x: DLFUItem<int, V>)
    requires c.data == map[0 := a, 1 := b, 2 := x] && c.heap.items == [a, b, x]
    requires a.expiresAt == 10 && b.expiresAt == 1 && x.expiresAt == 10
    ensures c.RootLive(5) && Dead(c.heap.items, 5) == {b} && Survivors(c.heap.items, {b}) == [a, x]
  {
    assert a != b && x != b && Dead([a, b, x], 5) == {b};
    assert [a, b, x][..2] == [a, b] && [a, b][..1] == [a] && [a][..0] == [];
    assert Survivors([a], {b}) == [a];
    assert Survivors([a, b], {b}) == [a];
  }

  /** At time 5 only the item of key 1 has expired. */
  lemma ExpiredAtFive<V>(a: DLFUItem<int, V>, b: DLFUItem<int, V>, x: DLFUItem<int, V>)
    requires a.expiresAt == 10 && b.expiresAt == 1 && x.expiresAt == 10
    ensures Unexpired(map[0 := a, 1 := b, 2 := x], 5) == map[0 := a, 2 := x]
  {
  }

  /** Two items of equal priority are in heap order either way round. */
  lemma TiedPair<K, V>(a: DLFUItem<K, V>, x: DLFUItem<K, V>)
    requires a.priority == x.priority
    ensures IsHeap(View([a, x]))
  {
    assert View([a, x])[0].prio <= View([a, x])[1].prio;
  }

  /**
   * `removeExpiredItems` as written, at time 5 after `ThreeKeys`: the item of
   * key 2 is kept at position 1 of the new slice but still records position
   * 2, past the end of a heap of two; Go's next `Get(2)` calls
   * `heap.Fix(h, 2)`, which reads past the end of the slice.
   */
  method StaleIndexAsWritten<V>(v1: V, v2: V, v3: V) returns (c: DLFUCache<int, V>)
    ensures c.Contents() == map[0 := v1, 2 := v3]
    ensures 2 in c.data && c.data[2].index == 2 && |c.heap.items| == 2 && !c.heap.Indexed()
  {
    ghost var a, b, x;
    c, a, b, x := ThreeKeys(v1, v2, v3);
    ExpireAsWritten(c, a, b, x);
  }

  /** The last step of `StaleIndexAsWritten`. */
  method ExpireAsWritten<V>(c: DLFUCache<int, V>, ghost a: DLFUItem<int, V>, ghost b: DLFUItem<int, V>, ghost x: DLFUItem<int, V>)
    requires c.Valid() && c.data == map[0 := a, 1 := b, 2 := x] && c.heap.items == [a, b, x]
    requires a.expiresAt == 10 && b.expiresAt == 1 && x.expiresAt == 10 && a.priority == b.priority == x.priority
    modifies c`data, c.heap`items, {a, b, x}`index
    ensures c.data == map[0 := a, 2 := x] && c.Contents() == map[0 := a.value, 2 := x.value]
    ensures x.index == 2 && c.heap.items == [a, x] && !c.heap.Indexed()
  {
    AtFive(c, a, b, x);
    assert x.index == 2;
    assert ItemSet(c.heap.items) == {a, b, x};
    ghost var kept, ordered := c.RemoveExpiredAsWritten(5);
    ExpiredAtFive(a, b, x);
    TiedPair(a, x);
    assert c.heap.items[1] == x;
  }

  /** The corrected `removeExpiredItems` in the same scenario: the cache stays valid and `Get(2)` returns the value. */
  method StaleIndexFixed<V>(v1: V, v2: V, v3: V) returns (c: DLFUCache<int, V>, r: Option<V>)
    ensures c.Valid() && c.Size() == 2 && r == Some(v3)
  {
    ghost var a, b, x;
    c, a, b, x := ThreeKeys(v1, v2, v3);
    r := ExpireFixed(c, a, b, x);
  }

  /** The last step of `StaleIndexFixed`. */
  method ExpireFixed<V>(c: DLFUCache<int, V>, ghost a: DLFUItem<int, V>, ghost b: DLFUItem<int, V>, ghost x: DLFUItem<int, V>)
    returns (r: Option<V>)
    requires c.Valid() && c.data == map[0 := a, 1 := b, 2 := x] && c.heap.items == [a, b, x]
    requires a.expiresAt == 10 && b.expiresAt == 1 && x.expiresAt == 10 && a.priority == b.priority == x.priority
    modifies c`data, c`incr, c.heap`items, {a, b, x}`index, {a, b, x}`priority
    ensures c.Valid() && c.data == map[0 := a, 2 := x] && r == Some(x.value)
  {
    assert ItemSet(c.heap.items) == {a, b, x};
    c.RemoveExpiredItems(5);
    ExpiredAtFive(a, b, x);
    assert ItemSet(c.heap.items) <= {a, b, x};
    r := c.Get(2, 5);
  }

  /** The items behind three slots of equal priority. */
  lemma ThreeSlots<K, V>(s: seq<DLFUItem<K, V>>, a: DLFUItem<K, V>, b: DLFUItem<K, V>, x: DLFUItem<K, V>, p: real)
    requires View(s) == [Slot(a, p), Slot(b, p), Slot(x, p)]
    ensures s == [a, b, x]
  {
    assert s[0] == View(s)[0].elem && s[1] == View(s)[1].elem && s[2] == View(s)[2].elem;
  }

  // ---------------------------------------------------------------------------
  // The eviction scenarios of the Go tests, on a cache with room for two keys
  // and gamma 0.5: `incr` starts at 2 and `decay` is 2, every key is set at
  // time 0 with 60 to live, so nothing expires.
  // ---------------------------------------------------------------------------

  /** A new cache with room for two and gamma 0.5, after a `Set` at time 0 of keys 0 and 1. */
  method TwoLiveKeys<V>(v1: V, v2: V) returns (c: DLFUCache<int, V>, ghost a: DLFUItem<int, V>, ghost b: DLFUItem<int, V>)
    ensures fresh(c) && fresh(c.heap) && fresh(a) && fresh(b) && c.capacity == 2 && c.Valid()
    ensures c.data == map[0 := a, 1 := b] && ItemSet(c.heap.items) == {a, b} && c.incr == 2.0 && c.decay == 2.0
    ensures a.value == v1 && a.expiresAt == 60 && a.priority == 2.0
    ensures b.value == v2 && b.expiresAt == 60 && b.priority == 2.0
  {
    c := new DLFUCache(2, 0.5);
    a := SetNew(c, 0, v1, 60, 0);
    c.HeldItems();
    b := SetNew(c, 1, v2, 60, 0);
    c.HeldItems();
    assert c.data.Values == {a, b};
  }

  /**
   * A `Set` of a new key into a full cache where nothing has expired: the new
   * item is stored and one item whose priority is the least of all is evicted.
   */
  method SetIntoFull<V>(c: DLFUCache<int, V>, key: int, v: V, expiry: int, now: int)
    returns (ghost item: DLFUItem<int, V>, ghost e: DLFUItem<int, V>)
    requires c.Valid() && key !in c.data && |c.data| == c.capacity && 0 <= expiry
    requires forall y :: y in c.heap.items ==> !y.Expired(now)
    modifies c`data, c.heap`items, ItemSet(c.heap.items)`value, ItemSet(c.heap.items)`expiresAt
    modifies ItemSet(c.heap.items)`priority, ItemSet(c.heap.items)`index
    ensures c.Valid() && fresh(item) && item.key == key && item.value == v && item.priority == c.incr
    ensures c.Evicted(old(c.data)[key := item], e)
    ensures forall y :: y in old(ItemSet(c.heap.items)) && y != item ==>
      y.value == old(y.value) && y.expiresAt == old(y.expiresAt) && y.priority == old(y.priority)
  {
    assert Dead(c.heap.items, now) == {};
    ghost var d0 := c.data;
    ghost var gone, evicted;
    item, gone, evicted := c.Set(key, v, expiry, now);
    assert gone == {};
    NothingRemoved(d0[key := item], gone);
    e := evicted.value;
  }

  /** Removing no key leaves a map as it is. */
  lemma NothingRemoved<K, X>(d: map<K, X>, gone: set<K>)
    requires gone == {}
    ensures d - gone == d
  {
  }

  /** `TestEviction`: a third key set into a cache with room for two leaves two entries. */
  method Eviction<V>(v1: V, v2: V, v3: V) returns (c: DLFUCache<int, V>)
    ensures c.Valid() && c.Size() == 2
  {
    ghost var a, b;
    c, a, b := TwoLiveKeys(v1, v2);
    assert forall y :: y in c.heap.items ==> y in ItemSet(c.heap.items);
    ghost var x, e := SetIntoFull(c, 2, v3, 60, 0);
    assert map[0 := a, 1 := b][2 := x] == map[0 := a, 1 := b, 2 := x];
    assert |map[0 := a, 1 := b, 2 := x] - {e.key}| == 2;
  }

  /**
   * `TestFrequencyAffectsPriority`: key 0 is read twice before key 2 is set
   * into the full cache, so key 1, never read, is the one evicted.
   */
  method FrequencyAffectsPriority<V>(v1: V, v2: V, v3: V) returns (r0: Option<V>, r1: Option<V>)
    ensures r0 == Some(v1) && r1 == None
  {
    var c;
    ghost var a, b;
    c, a, b := TwoLiveKeys(v1, v2);
    ReadTwice(c, a, b);
    ghost var x := SetThirdEvicts(c, a, b, v3);
    r0, r1 := ReadBoth(c, a, x);
  }

  /** The `Set` of key 2 after `ReadTwice`: key 1, with the least priority, is evicted. */
  method SetThirdEvicts<V>(c: DLFUCache<int, V>, ghost a: DLFUItem<int, V>, ghost b: DLFUItem<int, V>, v3: V)
    returns (ghost x: DLFUItem<int, V>)
    requires c.Valid() && c.capacity == 2 && c.data == map[0 := a, 1 := b] && ItemSet(c.heap.items) == {a, b}
    requires c.incr == 8.0 && a.priority == 8.0 && b.priority == 2.0 && a.expiresAt == 60
    requires forall y :: y in c.heap.items ==> !y.Expired(0)
    modifies c`data, c.heap`items, {a, b}`value, {a, b}`expiresAt, {a, b}`priority, {a, b}`index
    ensures c.Valid() && c.data == map[0 := a, 2 := x] && a.value == old(a.value) && a.expiresAt == 60
    ensures fresh(x) && ItemSet(c.heap.items) == {a, x}
  {
    assert a in ItemSet(c.heap.items);
    ghost var e;
    x, e := SetIntoFull(c, 2, v3, 60, 0);
    UnreadEvicted(c, a, b, x, e);
    c.HeldItems();
    assert c.data[0] == a && c.data[2] == x;
    assert c.data.Values == {a, x};
  }

  /** Two reads of key 0 at time 0, after `TwoLiveKeys`. */
  method ReadTwice<V>(c: DLFUCache<int, V>, ghost a: DLFUItem<int, V>, ghost b: DLFUItem<int, V>)
    requires c.Valid() && c.data == map[0 := a, 1 := b] && ItemSet(c.heap.items) == {a, b}
    requires c.incr == 2.0 && c.decay == 2.0 && a.priority == 2.0 && b.priority == 2.0
    requires a.expiresAt == 60 && b.expiresAt == 60
    modifies c`incr, c.heap`items, {a, b}`priority, {a, b}`index
    ensures c.Valid() && c.data == map[0 := a, 1 := b] && ItemSet(c.heap.items) == {a, b} && c.incr == 8.0
    ensures a.value == old(a.value) && a.priority == 8.0 && b.priority == 2.0
    ensures forall y :: y in c.heap.items ==> !y.Expired(0)
  {
    ReadFirst(c, a, b, 2.0);
    ReadFirst(c, a, b, 4.0);
    assert forall y :: y in c.heap.items ==> y in ItemSet(c.heap.items);
  }

  /** Of the items with priorities 8, 2 and 8, the one with priority 2 is the least. */
  lemma UnreadEvicted<V>(c: DLFUCache<int, V>, a: DLFUItem<int, V>, b: DLFUItem<int, V>, x: DLFUItem<int, V>, e: DLFUItem<int, V>)
    requires c.Valid() && c.Evicted(map[0 := a, 1 := b][2 := x], e)
    requires a.priority == 8.0 && b.priority == 2.0 && x.priority == 8.0
    ensures c.data == map[0 := a, 2 := x]
  {
    c.HeldItems();
    var d := map[0 := a, 1 := b][2 := x];
    assert forall k :: k in c.data ==> e.priority <= c.data[k].priority;
    assert (1 in c.data) == (e.key != 1);
    assert e.key == 1;
    assert d - {1} == map[0 := a, 2 := x];
  }

  /** The last two reads of the test: key 0 is found, key 1 is not. */
  method ReadBoth<V>(c: DLFUCache<int, V>, ghost a: DLFUItem<int, V>, ghost x: DLFUItem<int, V>) returns (r0: Option<V>, r1: Option<V>)
    requires c.Valid() && c.data == map[0 := a, 2 := x] && ItemSet(c.heap.items) == {a, x} && a.expiresAt == 60
    modifies c`incr, c.heap`items, {a, x}`priority, {a, x}`index
    ensures r0 == Some(old(a.value)) && r1 == None
  {
    assert 0 in c.LiveContents(0);
    r0 := c.Get(0, 0);
    r1 := c.Get(1, 0);
  }

  /** A read of key 0 at time 0 adds `incr` to its priority, then doubles `incr`; key 1 is not touched. */
  method ReadFirst<V>(c: DLFUCache<int, V>, ghost a: DLFUItem<int, V>, ghost b: DLFUItem<int, V>, ghost p: real)
    requires c.Valid() && c.data == map[0 := a, 1 := b] && ItemSet(c.heap.items) == {a, b}
    requires c.decay == 2.0 && c.incr == p && a.priority == p && a.expiresAt == 60
    modifies c`incr, c.heap`items, {a, b}`priority, {a, b}`index
    ensures c.Valid() && c.data == map[0 := a, 1 := b] && ItemSet(c.heap.items) == {a, b}
    ensures c.incr == 2.0 * p && a.priority == 2.0 * p && b.priority == old(b.priority)
    ensures a.value == old(a.value) && a.expiresAt == 60 && b.expiresAt == old(b.expiresAt)
  {
    assert 0 in c.LiveContents(0) && a.key == 0 && c.data[1] == b && b.key == 1;
    assert b in c.heap.items;
    var r := c.Get(0, 0);
    assert r.Some? && c.data[0] == a;
  }
}
