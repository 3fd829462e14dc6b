/**
 * `LFUCache`: a map from keys to heap items plus an eviction heap ordered by
 * hit count. `Set` always makes a fresh item with count 1 and pushes it;
 * `Get` bumps the count of a stored item and re-fixes the heap; once the map
 * holds more than `capacity` keys, `Set` pops the heap root and deletes that
 * item's key.
 *
 * `Valid` is what every operation keeps: each stored item is in the heap
 * under its own key, and the heap is ordered and indexed. `OneToOne` (the
 * heap holds exactly the stored items) is kept by every operation except a
 * `Set` of a key that is already present: that `Set` leaves the old item in
 * the heap as an orphan.
 */
module LfuCache {
  import opened Wrappers
  import opened ContainerHeap
  import opened CacheHeap
  import Cache

  class LFUCache<K(==), V> {
    const capacity: int
    var data: map<K, Item<K, V>>
    const heap: CacheMinHeap<K, V>

    /** Every stored item sits in the heap under its own key; the heap is indexed and ordered. */
    ghost predicate Valid()
      reads this`data, heap`items, ItemSet(heap.items)
    {
      && heap.Indexed()
      && heap.Ordered()
      && Stored(data, ItemSet(heap.items))
    }

    /** No orphans: every heap item is the stored item of its key. */
    ghost predicate OneToOne()
      reads this`data, heap`items
    {
      && |heap.items| == |data|
      && Owned(data, ItemSet(heap.items))
    }

    /** The key-value view of the cache. */
    function Contents(): (m: map<K, V>)
      reads this`data
      ensures m.Keys == data.Keys
      ensures forall k :: k in m ==> m[k] == data[k].value
    {
      ValueMap(data)
    }

    constructor (capacity: int)
      ensures this.capacity == capacity && data == map[] && fresh(heap) && heap.items == []
      ensures Valid() && OneToOne()
    {
      this.capacity := capacity;
      data := map[];
      heap := new CacheMinHeap();
    }

    function Size(): (n: nat)
      reads this`data
      ensures n == |Contents()|
    {
      |data|
    }

    /** Looks the key up without touching any count. */
    function Contains(key: K): (b: bool)
      reads this`data
      ensures b <==> key in Contents()
    {
      key in data
    }

    method Get(key: K) returns (r: Option<V>)
      requires Valid()
      modifies heap`items, ItemSet(heap.items)
      ensures Valid() && ItemSet(heap.items) == old(ItemSet(heap.items))
      ensures r.Some? <==> key in data
      ensures key !in data ==> heap.items == old(heap.items)
      ensures key in data ==>
        && r.value == data[key].value
        && data[key].priority == old(data[key].priority) + 1
        && heap.Slots() == Fix(old(heap.Slots())[old(data[key].index) := Slot(data[key], data[key].priority as real)], old(data[key].index))
      ensures forall y :: y in old(heap.items) && (key in data ==> y != data[key]) ==> y.priority == old(y.priority)
      ensures old(OneToOne()) ==> OneToOne()
    {
      if key !in data {
        return None;
      }
      var item := data[key];
      ghost var s := heap.Slots();
      item.priority := item.priority + 1;
      ghost var x := Slot(item, item.priority as real);
      assert heap.Slots() == s[item.index := x];
      FixKeepsHeap(s, item.index, x);
      heap.HeapFix(item.index);
      r := Some(item.value);
    }

    method GetMany(keys: seq<K>) returns (values: map<K, V>, missing: seq<K>)
      requires Valid()
      modifies heap`items, ItemSet(heap.items)
      ensures Valid() && ItemSet(heap.items) == old(ItemSet(heap.items))
      ensures values == Cache.Found(keys, Contents())
      ensures missing == Cache.Absent(keys, data.Keys)
      ensures forall y :: y in old(ItemSet(heap.items)) ==>
        y.priority == old(y.priority) + if y.key in data && data[y.key] == y then multiset(keys)[y.key] else 0
      ensures old(OneToOne()) ==> OneToOne()
    {
      values := map[];
      missing := [];
      ghost var m, items0, oto := Contents(), ItemSet(heap.items), OneToOne();
      ghost var p0 := map y | y in items0 :: y.priority;
      for i := 0 to |keys|
        invariant Scanned(keys, i, m, values, missing, items0, p0, oto)
      {
        values, missing := GetNext(keys, i, m, values, missing, items0, p0, oto);
      }
      assert keys[..|keys|] == keys;
    }

    /**
     * `GetMany`'s loop invariant: the first `i` keys are filed, the entries
     * are still `m`, and each heap item's count has grown from `p0` by the
     * reads of its key among them.
     */
    ghost predicate Scanned(keys: seq<K>, i: nat, m: map<K, V>, values: map<K, V>, missing: seq<K>,
                            items0: set<Item<K, V>>, p0: map<Item<K, V>, int>, oto: bool)
      reads this`data, heap`items, ItemSet(heap.items)
    {
      && i <= |keys| && Valid() && ItemSet(heap.items) == items0 && p0.Keys == items0 && Contents() == m
      && values == Cache.Found(keys[..i], m) && missing == Cache.Absent(keys[..i], data.Keys)
      && (forall y :: y in p0 ==> y.priority == p0[y] + if y.key in data && data[y.key] == y then multiset(keys[..i])[y.key] else 0)
      && (oto ==> OneToOne())
    }

    /** One round of `GetMany`'s loop: `Get` the `i`th key, which counts one more read of it, and file it. */
    method GetNext(keys: seq<K>, i: nat, ghost m: map<K, V>, values: map<K, V>, missing: seq<K>,
                   ghost items0: set<Item<K, V>>, ghost p0: map<Item<K, V>, int>, ghost oto: bool)
      returns (values': map<K, V>, missing': seq<K>)
      requires i < |keys| && Scanned(keys, i, m, values, missing, items0, p0, oto)
      modifies heap`items, ItemSet(heap.items)
      ensures Scanned(keys, i + 1, m, values', missing', items0, p0, oto)
    {
      assert keys[..i + 1] == keys[..i] + [keys[i]];
      assert keys[..i + 1][..i] == keys[..i];
      Cache.FoundSnoc(keys, i, m);
      Cache.AbsentSnoc(keys, i, data.Keys);
      var r := Get(keys[i]);
      if r.Some? {
        values' := values[keys[i] := r.value];
        missing' := missing;
      } else {
        values' := values;
        missing' := missing + [keys[i]];
      }
    }

    /**
     * `Set` as written: stores a fresh item with count 1 (the new `item`) and
     * pushes it; when the map then exceeds `capacity`, pops the root (`evicted`)
     * and deletes its key. The item a present key held before stays in the heap.
     */
    method SetAsWritten(key: K, value: V) returns (ghost item: Item<K, V>, ghost evicted: Option<Item<K, V>>)
      requires Valid()
      modifies this`data, heap`items, ItemSet(heap.items)`index
      ensures Valid()
      ensures fresh(item) && item.key == key && item.value == value && item.priority == 1
      ensures ItemSet(heap.items) <= old(ItemSet(heap.items)) + {item}
      ensures evicted.None? ==>
        && |old(data)[key := item]| <= capacity
        && data == old(data)[key := item]
        && heap.Slots() == Pushed(old(heap.Slots()), Slot(item, 1.0))
      ensures evicted.Some? ==>
        && |old(data)[key := item]| > capacity
        && data == old(data)[key := item] - {evicted.value.key}
        && evicted.value == Popped(Pushed(old(heap.Slots()), Slot(item, 1.0))).1.elem
        && heap.Slots() == Popped(Pushed(old(heap.Slots()), Slot(item, 1.0))).0
        && evicted.value.index == -1 && evicted.value !in heap.items
        && forall y :: y in heap.items ==> evicted.value.priority <= y.priority
      ensures key in old(data) && evicted.None? ==> old(data[key]) in heap.items && old(data[key]) !in data.Values
      ensures key !in old(data) && old(OneToOne()) ==> OneToOne()
      ensures old(OneToOne()) && old(|data|) <= capacity ==> |data| <= capacity
    {
      var it := Insert(key, value);
      item := it;
      ghost var d1, s1 := data, heap.Slots();
      evicted := Trim();
      assert evicted.None? ==> data == d1 && heap.Slots() == s1;
    }

    /** `if len(c.data) > c.capacity`: pops the root and deletes its key. */
    method Trim() returns (ghost evicted: Option<Item<K, V>>)
      requires Valid() && data != map[]
      modifies this`data, heap`items, ItemSet(heap.items)`index
      ensures Valid()
      ensures evicted.None? ==> |old(data)| <= capacity && data == old(data) && heap.items == old(heap.items)
      ensures evicted.Some? ==>
        && |old(data)| > capacity
        && data == old(data) - {evicted.value.key}
        && evicted.value == Popped(old(heap.Slots())).1.elem
        && heap.Slots() == Popped(old(heap.Slots())).0
        && ItemSet(heap.items) + {evicted.value} == old(ItemSet(heap.items))
        && evicted.value.index == -1 && evicted.value !in heap.items
        && forall y :: y in heap.items ==> evicted.value.priority <= y.priority
      ensures old(OneToOne()) ==> OneToOne()
    {
      if |data| > capacity {
        var k :| k in data;
        assert data[k] in ItemSet(heap.items);
        var e := EvictRoot();
        evicted := Some(e);
      } else {
        evicted := None;
      }
    }

    /** `item := &Item{key: key, value: value, priority: 1}`, then `Link(item)`. */
    method Insert(key: K, value: V) returns (it: Item<K, V>)
      requires Valid()
      modifies this`data, heap`items, ItemSet(heap.items)`index
      ensures fresh(it) && it.key == key && it.value == value && it.priority == 1
      ensures Valid() && data == old(data)[key := it]
      ensures heap.Slots() == Pushed(old(heap.Slots()), Slot(it, 1.0))
      ensures ItemSet(heap.items) == old(ItemSet(heap.items)) + {it}
      ensures key in old(data) ==> old(data[key]) in ItemSet(heap.items) && old(data[key]) !in data.Values
      ensures key !in old(data) && old(OneToOne()) ==> OneToOne()
    {
      it := new Item(key, value, 1);
      Link(it);
    }

    /** `c.data[key] = item; heap.Push(c.heap, item)`. */
    method Link(it: Item<K, V>)
      requires Valid() && it !in heap.items
      modifies this`data, heap`items, ItemSet(heap.items)`index, it`index
      ensures Valid() && data == old(data)[it.key := it]
      ensures heap.Slots() == Pushed(old(heap.Slots()), Slot(it, it.priority as real))
      ensures ItemSet(heap.items) == old(ItemSet(heap.items)) + {it}
      ensures it.key in old(data) ==> old(data[it.key]) in ItemSet(heap.items) && old(data[it.key]) !in data.Values
      ensures it.key !in old(data) && old(OneToOne()) ==> OneToOne()
    {
      ghost var one := OneToOne() && it.key !in data;
      StoredAfterPush(data, ItemSet(heap.items), it);
      if one {
        OwnedAfterPush(data, ItemSet(heap.items), it);
      }
      Store(it);
      heap.HeapPush(it);
    }

    /** `heap.Pop(c.heap)` and `delete(c.data, evicted.key)`. */
    method EvictRoot() returns (e: Item<K, V>)
      requires Valid() && |heap.items| > 0
      modifies this`data, heap`items, ItemSet(heap.items)`index
      ensures Valid() && data == old(data) - {e.key}
      ensures heap.Slots() == Popped(old(heap.Slots())).0 && e == Popped(old(heap.Slots())).1.elem
      ensures ItemSet(heap.items) + {e} == old(ItemSet(heap.items)) && e !in heap.items && e.index == -1
      ensures |heap.items| == old(|heap.items|) - 1
      ensures forall y :: y in heap.items ==> e.priority <= y.priority
      ensures old(OneToOne()) ==> OneToOne() && |data| == old(|data|) - 1
    {
      ghost var one := OneToOne();
      e := heap.HeapPop();
      assert heap.Ordered() && heap.Indexed();
      assert forall y :: y in heap.items ==> e.priority <= y.priority;
      StoredAfterEvict(data, ItemSet(heap.items), e);
      if one {
        OwnedAfterEvict(data, ItemSet(heap.items), e);
      }
      Forget(e.key);
    }

    /**
     * The corrected `Set` (`SetAsWritten` is `Set` as Go writes it): the
     * key's old item is taken out of the heap first, so that no orphan is left.
     */
    method Set(key: K, value: V) returns (ghost item: Item<K, V>, ghost evicted: Option<Item<K, V>>)
      requires Valid() && OneToOne()
      modifies this`data, heap`items, ItemSet(heap.items)`index
      ensures Valid() && OneToOne()
      ensures fresh(item) && item.key == key && item.value == value && item.priority == 1
      ensures ItemSet(heap.items) <= old(ItemSet(heap.items)) + {item}
      ensures evicted.None? ==> data == old(data)[key := item]
      ensures evicted.Some? ==>
        && |old(data)[key := item]| > capacity
        && data == old(data)[key := item] - {evicted.value.key}
        && evicted.value !in heap.items
        && forall y :: y in heap.items ==> evicted.value.priority <= y.priority
      ensures old(|data|) <= capacity ==> |data| <= capacity
    {
      ghost var d := data;
      Delete(key);
      item, evicted := SetAsWritten(key, value);
      RemoveThenUpdate(d, key, item);
    }

    /**
     * `SetMany` as written: `SetAsWritten` for each entry, in any order (Go
     * visits a map in an unspecified order). When all the keys fit, none is
     * evicted.
     */
    method SetManyAsWritten(items: map<K, V>)
      requires Valid()
      modifies this`data, heap`items, ItemSet(heap.items)`index
      ensures Valid()
      ensures forall k :: k in data ==>
        if k in items then data[k].value == items[k] else k in old(data) && data[k] == old(data[k])
      ensures |old(data).Keys + items.Keys| <= capacity ==> old(data).Keys <= data.Keys && items.Keys <= data.Keys
    {
      var rest := items.Keys;
      ghost var made: set<Item<K, V>> := {};
      ghost var before := data;
      ghost var fits := |data.Keys + items.Keys| <= capacity;
      while rest != {}
        invariant Valid() && rest <= items.Keys
        invariant ItemSet(heap.items) <= old(ItemSet(heap.items)) + made
        invariant fresh(made)
        invariant SetSoFar(data, before, items, rest)
        invariant fits ==> before.Keys <= data.Keys && forall k :: k in items && k !in rest ==> k in data
        decreases rest
      {
        var key :| key in rest;
        ghost var d := data;
        var item, evicted := SetAsWritten(key, items[key]);
        if fits {
          KeysStep(d, key, item, before.Keys, items.Keys, capacity);
        }
        SetStep(d, data, before, items, rest, item);
        made := made + {item};
        rest := rest - {key};
      }
    }

    /**
     * `SetMany` over the corrected `Set`: as `SetManyAsWritten`, and the
     * heap keeps exactly the stored items.
     */
    method SetMany(items: map<K, V>)
      requires Valid() && OneToOne()
      modifies this`data, heap`items, ItemSet(heap.items)`index
      ensures Valid() && OneToOne()
      ensures forall k :: k in data ==>
        if k in items then data[k].value == items[k] else k in old(data) && data[k] == old(data[k])
      ensures |old(data).Keys + items.Keys| <= capacity ==> old(data).Keys <= data.Keys && items.Keys <= data.Keys
      ensures old(|data|) <= capacity ==> |data| <= capacity
    {
      var rest := items.Keys;
      ghost var made: set<Item<K, V>> := {};
      ghost var before := data;
      ghost var fits := |data.Keys + items.Keys| <= capacity;
      while rest != {}
        invariant Valid() && OneToOne() && rest <= items.Keys
        invariant ItemSet(heap.items) <= old(ItemSet(heap.items)) + made
        invariant fresh(made)
        invariant SetSoFar(data, before, items, rest)
        invariant fits ==> before.Keys <= data.Keys && forall k :: k in items && k !in rest ==> k in data
        invariant old(|data|) <= capacity ==> |data| <= capacity
        decreases rest
      {
        var key :| key in rest;
        ghost var d := data;
        var item, evicted := Set(key, items[key]);
        if fits {
          KeysStep(d, key, item, before.Keys, items.Keys, capacity);
        }
        SetStep(d, data, before, items, rest, item);
        made := made + {item};
        rest := rest - {key};
      }
    }

    /** Takes the key's item out of the heap (`heap.Remove`) and deletes the key; a missing key is a no-op. */
    method Delete(key: K)
      requires Valid()
      modifies this`data, heap`items, ItemSet(heap.items)`index
      ensures Valid() && data == old(data) - {key}
      ensures key !in old(data) ==> heap.items == old(heap.items)
      ensures key in old(data) ==> ItemSet(heap.items) + {old(data[key])} == old(ItemSet(heap.items)) && old(data[key]) !in heap.items
      ensures old(OneToOne()) ==> OneToOne()
    {
      if key in data {
        Unlink(data[key]);
      }
    }

    /** `heap.Remove(c.heap, item.index)` and `delete(c.data, item.key)` for a stored item. */
    method Unlink(item: Item<K, V>)
      requires Valid() && item.key in data && data[item.key] == item
      modifies this`data, heap`items, ItemSet(heap.items)`index
      ensures Valid() && data == old(data) - {item.key}
      ensures ItemSet(heap.items) + {item} == old(ItemSet(heap.items)) && item !in heap.items
      ensures old(OneToOne()) ==> OneToOne()
    {
      ghost var one := OneToOne();
      var p :| 0 <= p < |heap.items| && heap.items[p] == item;
      var x := heap.HeapRemove(item.index);
      StoredAfterEvict(data, ItemSet(heap.items), x);
      if one {
        OwnedAfterEvict(data, ItemSet(heap.items), x);
      }
      Forget(item.key);
    }

    /** `c.data[it.key] = it`: the heap is not touched. */
    method Store(it: Item<K, V>)
      modifies this`data
      ensures data == old(data)[it.key := it]
      ensures heap.Ordered() == old(heap.Ordered()) && heap.Indexed() == old(heap.Indexed())
      ensures heap.Slots() == old(heap.Slots())
    {
      data := data[it.key := it];
    }

    /** `delete(c.data, key)`: the heap is not touched. */
    method Forget(key: K)
      modifies this`data
      ensures data == old(data) - {key}
      ensures heap.Ordered() == old(heap.Ordered()) && heap.Indexed() == old(heap.Indexed())
      ensures heap.Slots() == old(heap.Slots())
    {
      data := data - {key};
    }

    /** Empties the map and the heap. */
    method Clear()
      modifies this`data, heap`items
      ensures Valid() && OneToOne() && Contents() == map[] && heap.items == []
    {
      data := map[];
      heap.Reset();
      heap.HeapInit();
    }

    /** Go lists the keys in map iteration order, which is unspecified. */
    method Keys() returns (keys: seq<K>)
      ensures |keys| == Size() && Cache.Distinct(keys)
      ensures forall k :: k in keys <==> k in Contents()
    {
      keys := Cache.ListKeys(data);
    }

    /** Go lists the values in map iteration order, which is unspecified. */
    method Values() returns (values: seq<V>)
      ensures |values| == Size()
      ensures multiset(values) == Cache.Bag(Contents())
    {
      values := Cache.ListValues(Contents());
    }
  }

  /** A new cache with room for `capacity` keys, after one `Set` of key 0. */
  method OneKey<V>(capacity: int, v1: V) returns (c: LFUCache<int, V>, ghost a: Item<int, V>)
    requires capacity >= 1
    ensures fresh(c) && fresh(c.heap) && fresh(a) && c.capacity == capacity
    ensures c.Valid() && c.OneToOne() && c.data == map[0 := a] && a.key == 0 && a.value == v1
    ensures c.heap.items == [a] && c.heap.Slots() == [Slot(a, 1.0)]
  {
    c := new LFUCache(capacity);
    ghost var e;
    a, e := c.SetAsWritten(0, v1);
    assert |map[0 := a]| == 1 && e.None?;
    assert a in ItemSet(c.heap.items);
  }

  /**
   * `Set` as written, twice on one key: the map holds the second item, and the
   * first stays in the heap although no key leads to it.
   */
  method OrphanAsWritten<V>(v1: V, v2: V) returns (c: LFUCache<int, V>, orphan: Item<int, V>)
    ensures c.Size() == 1 && 0 in c.Contents() && c.Contents()[0] == v2
    ensures orphan in c.heap.items && orphan !in c.data.Values
  {
    ghost var a;
    c, a := OneKey(1, v1);
    orphan := c.data[0];
    ghost var b, e := c.SetAsWritten(0, v2);
    UpdateTwice(map[0 := a], 0, b);
    assert |map[0 := b]| == 1 && e.None?;
  }

  /** The corrected `Set`, twice on one key: one item, in the map and in the heap. */
  method NoOrphan<V>(v1: V, v2: V) returns (c: LFUCache<int, V>)
    ensures c.Size() == 1 && 0 in c.Contents() && c.Contents()[0] == v2
    ensures |c.heap.items| == 1
  {
    ghost var a;
    c, a := OneKey(1, v1);
    ghost var b, e := c.Set(0, v2);
    UpdateTwice(map[0 := a], 0, b);
    assert |map[0 := b]| == 1 && e.None?;
  }

  /** With room for one key, setting a second key evicts the first (the heap's tie-break). */
  method SecondKeyEvictsFirst<V>(v1: V, v2: V) returns (c: LFUCache<int, V>)
    ensures c.Size() == 1 && !c.Contains(0) && 1 in c.Contents() && c.Contents()[1] == v2
  {
    ghost var a;
    c, a := OneKey(1, v1);
    ghost var b, e := c.SetAsWritten(1, v2);
    AddKey(map[0 := a], 1, b);
    PushBehind(Slot(a, 1.0), Slot(b, 1.0));
    PopOfTwo(Slot(a, 1.0), Slot(b, 1.0));
    assert e.value == a;
  }

  /** A new cache with room for two keys, after a `Set` of key 0 and then of key 1. */
  method TwoKeys<V>(v1: V, v2: V) returns (c: LFUCache<int, V>, ghost a: Item<int, V>, ghost b: Item<int, V>)
    ensures fresh(c) && fresh(c.heap) && fresh(a) && fresh(b) && c.capacity == 2
    ensures c.Valid() && c.OneToOne() && c.data == map[0 := a, 1 := b] && a.key == 0 && b.key == 1 && a.value == v1
    ensures c.heap.items == [a, b] && c.heap.Slots() == [Slot(a, 1.0), Slot(b, 1.0)]
  {
    c, a := OneKey(2, v1);
    ghost var e;
    b, e := c.SetAsWritten(1, v2);
    AddKey(map[0 := a], 1, b);
    PushBehind(Slot(a, 1.0), Slot(b, 1.0));
    assert c.heap.items[0] == a && c.heap.items[1] == b;
  }

  /** `TwoKeys`, then a `Get` of key 0: its count becomes 2 and the heap is fixed at the root. */
  method TwoKeysRead<V>(v1: V, v2: V) returns (c: LFUCache<int, V>, r: Option<V>, ghost a: Item<int, V>, ghost b: Item<int, V>)
    ensures fresh(c) && fresh(c.heap) && fresh(a) && fresh(b) && c.capacity == 2
    ensures c.Valid() && c.OneToOne() && c.data == map[0 := a, 1 := b] && r == Some(v1)
    ensures c.heap.Slots() == Fix([Slot(a, 2.0), Slot(b, 1.0)], 0)
  {
    c, a, b := TwoKeys(v1, v2);
    assert a.index == 0;
    r := c.Get(0);
    assert [Slot(a, 1.0), Slot(b, 1.0)][0 := Slot(a, 2.0)] == [Slot(a, 2.0), Slot(b, 1.0)];
  }

  /** The last step of `ReadKeyKept`: a `Set` of key 2 evicts key 1, whose count is lower. */
  method SetThird<V>(c: LFUCache<int, V>, ghost a: Item<int, V>, ghost b: Item<int, V>, v3: V)
    requires c.Valid() && c.capacity == 2 && c.data == map[0 := a, 1 := b] && b.key == 1
    requires c.heap.Slots() == Fix([Slot(a, 2.0), Slot(b, 1.0)], 0)
    modifies c`data, c.heap`items, ItemSet(c.heap.items)`index
    ensures c.data.Keys == {0, 2}
  {
    ghost var x, e := c.SetAsWritten(2, v3);
    AddKey(map[0 := a, 1 := b], 2, x);
    ReadKeyOutlivesUnread(a, b, x, 1.0, 2.0, 1.0);
    assert e.value == b;
  }

  /** The cache test: with room for two keys, Set A, Set B, Get A, Set C evicts B. */
  method ReadKeyKept<V>(v1: V, v2: V, v3: V) returns (c: LFUCache<int, V>, r: Option<V>)
    ensures r == Some(v1) && c.Contains(0) && !c.Contains(1) && c.Contains(2)
  {
    ghost var a, b;
    c, r, a, b := TwoKeysRead(v1, v2);
    SetThird(c, a, b, v3);
  }
}
