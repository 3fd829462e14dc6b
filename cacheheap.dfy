/**
 * The eviction heap shared by the LFU and LRU caches: a slice of references to
 * `Item`s ordered by integer priority, each item remembering its own position
 * in `index`. `Len`, `Less`, `Swap`, `Push` and `Pop` are the five methods the
 * heap hands to Go's `container/heap`; `Up`, `Down`, `HeapPush`, `HeapPop`,
 * `HeapFix`, `HeapRemove` and `HeapInit` are that package's routines run on
 * this slice. Each routine is proved to leave the slots exactly as the pure
 * model in `ContainerHeap` says, and to keep every `index` equal to its
 * position.
 */
module CacheHeap {
  import opened ContainerHeap

  /** A cache entry: its key and value, its priority and its position in the heap. */
  class Item<K, V> {
    const key: K
    const value: V
    var priority: int
    var index: int

    constructor (key: K, value: V, priority: int)
      ensures this.key == key && this.value == value
      ensures this.priority == priority && index == 0
    {
      this.key := key;
      this.value := value;
      this.priority := priority;
      index := 0;
    }
  }

  function ItemSet<K, V>(s: seq<Item<K, V>>): set<Item<K, V>> {
    set x | x in s
  }

  /** The slots the pure heap model sees: each item with its priority. */
  ghost function View<K, V>(s: seq<Item<K, V>>): (r: seq<Slot<Item<K, V>>>)
    reads ItemSet(s)
    ensures |r| == |s|
    ensures forall p :: 0 <= p < |s| ==> r[p] == Slot(s[p], s[p].priority as real)
  {
    seq(|s|, (p: int) requires 0 <= p < |s| reads ItemSet(s) => Slot(s[p], s[p].priority as real))
  }

  class CacheMinHeap<K, V> {
    var items: seq<Item<K, V>>

    constructor ()
      ensures items == []
    {
      items := [];
    }

    ghost function Slots(): seq<Slot<Item<K, V>>>
      reads this`items, ItemSet(items)
    {
      View(items)
    }

    /** Every item knows its own position (`pq[p].index == p`). */
    ghost predicate Indexed()
      reads this`items, ItemSet(items)`index
    {
      forall p :: 0 <= p < |items| ==> items[p].index == p
    }

    /** The heap order over the slots. */
    ghost predicate Ordered()
      reads this`items, ItemSet(items)
    {
      IsHeap(Slots())
    }

    function Len(): (r: int)
      reads this`items
      ensures r == |items| && r >= 0
    {
      |items|
    }

    predicate Less(i: nat, j: nat)
      requires i < |items| && j < |items|
      reads this`items, ItemSet(items)
      ensures Less(i, j) <==> Slots()[i].prio < Slots()[j].prio
    {
      items[i].priority < items[j].priority
    }

    /** The child `down` follows from `i`: the right one only when it is Less than the left one. */
    function Child(i: nat, n: nat): (j: nat)
      requires 2 * i + 1 < n <= |items|
      reads this`items, ItemSet(items)
      ensures j == SmallerChild(Slots(), i, n)
    {
      var j1 := 2 * i + 1;
      if j1 + 1 < n && Less(j1 + 1, j1) then j1 + 1 else j1
    }

    method Swap(i: nat, j: nat)
      requires i < |items| && j < |items| && Indexed()
      modifies this`items, ItemSet(items)`index
      ensures items == old(items)[i := old(items)[j]][j := old(items)[i]]
      ensures ItemSet(items) == ItemSet(old(items))
      ensures Slots() == ContainerHeap.Swap(old(Slots()), i, j)
      ensures Indexed()
    {
      ghost var s := items;
      items := items[i := items[j]][j := items[i]];
      items[i].index := i;
      items[j].index := j;
      SwapKeepsItems(s, i, j);
    }

    /** The interface `Push`: append at the end and record the position. */
    method Push(x: Item<K, V>)
      requires Indexed() && x !in items
      modifies this`items, x`index
      ensures items == old(items) + [x] && x.index == |old(items)|
      ensures Slots() == old(Slots()) + [Slot(x, x.priority as real)]
      ensures Indexed()
    {
      x.index := |items|;
      items := items + [x];
    }

    /** The interface `Pop`: drop the last slot, mark it removed and return it. */
    method Pop() returns (x: Item<K, V>)
      requires |items| > 0 && Indexed()
      modifies this`items, ItemSet(items)`index
      ensures x == old(items[|items| - 1]) && items == old(items[..|items| - 1])
      ensures old(items) == items + [x]
      ensures x.index == -1
      ensures Slots() == old(Slots()[..|items| - 1])
      ensures Indexed()
    {
      x := items[|items| - 1];
      x.index := -1;
      items := items[..|items| - 1];
      assert old(items) == items + [x];
    }

    /** Drops every slot, leaving the heap as a freshly made one. */
    method Reset()
      modifies this`items
      ensures items == [] && Indexed() && Ordered()
    {
      items := [];
    }

    /** `up(h, j)`; Go's parent of 0 is `(0 - 1) / 2 == 0`, which ends the loop. */
    method Up(j0: nat)
      requires j0 < |items| && Indexed()
      modifies this`items, ItemSet(items)`index
      ensures Slots() == SiftUp(old(Slots()), j0)
      ensures ItemSet(items) == ItemSet(old(items)) && |items| == |old(items)|
      ensures Indexed()
    {
      var j: nat := j0;
      while true
        invariant j < |items| == |old(items)| && Indexed()
        invariant ItemSet(items) == ItemSet(old(items))
        invariant SiftUp(Slots(), j) == SiftUp(old(Slots()), j0)
        decreases j
      {
        var i: nat := if j == 0 then 0 else (j - 1) / 2;
        if i == j || !Less(j, i) {
          break;
        }
        ghost var s := Slots();
        assert SiftUp(s, j) == SiftUp(ContainerHeap.Swap(s, i, j), i);
        Swap(i, j);
        j := i;
      }
    }

    /** `down(h, i0, n)`: reports whether the element left position `i0`. */
    method Down(i0: nat, n: nat) returns (moved: bool)
      requires n <= |items| && Indexed()
      modifies this`items, ItemSet(items)`index
      ensures Slots() == SiftDown(old(Slots()), i0, n).0
      ensures moved <==> SiftDown(old(Slots()), i0, n).1 > i0
      ensures ItemSet(items) == ItemSet(old(items)) && |items| == |old(items)|
      ensures Indexed()
    {
      var i := i0;
      while true
        invariant i0 <= i && |items| == |old(items)| && Indexed()
        invariant ItemSet(items) == ItemSet(old(items))
        invariant SiftDown(Slots(), i, n) == SiftDown(old(Slots()), i0, n)
        decreases n - i
      {
        var j1 := 2 * i + 1;
        if j1 >= n {
          break;
        }
        ghost var s := Slots();
        var j := Child(i, n);
        if !Less(j, i) {
          DownStops(s, i, n);
          break;
        }
        DownMoves(s, i, n);
        Swap(i, j);
        i := j;
      }
      moved := i > i0;
    }

    /** `heap.Push(h, x)`. */
    method HeapPush(x: Item<K, V>)
      requires Indexed() && x !in items
      modifies this`items, ItemSet(items)`index, x`index
      ensures Slots() == Pushed(old(Slots()), Slot(x, x.priority as real))
      ensures ItemSet(items) == ItemSet(old(items)) + {x} && |items| == |old(items)| + 1
      ensures Indexed()
      ensures old(Ordered()) ==> Ordered()
    {
      if Ordered() {
        PushKeepsHeap(Slots(), Slot(x, x.priority as real));
      }
      Push(x);
      ItemSetAppend(old(items), x);
      Up(|items| - 1);
    }

    /** `heap.Pop(h)`: returns the root and marks it removed. */
    method HeapPop() returns (x: Item<K, V>)
      requires |items| > 0 && Indexed()
      modifies this`items, ItemSet(items)`index
      ensures Slots() == Popped(old(Slots())).0 && x == Popped(old(Slots())).1.elem
      ensures ItemSet(items) + {x} == ItemSet(old(items)) && x !in items && |items| == |old(items)| - 1
      ensures x.index == -1
      ensures Indexed()
      ensures old(Ordered()) ==> Ordered() && forall y :: y in ItemSet(items) ==> x.priority <= y.priority
    {
      ghost var s := Slots();
      var n := |items| - 1;
      Swap(0, n);
      var _ := Down(0, n);
      ghost var t, u := items, Slots();
      assert u == SiftDown(ContainerHeap.Swap(s, 0, n), 0, n).0;
      x := Pop();
      ItemSetAppend(items, x);
      assert Slots() == u[..n] && x == u[n].elem;
      if old(Ordered()) {
        LeastOfRest(s, items);
      }
    }

    /** `heap.Remove(h, i)`: returns the element at `i` and marks it removed. */
    method HeapRemove(i: nat) returns (x: Item<K, V>)
      requires i < |items| && Indexed()
      modifies this`items, ItemSet(items)`index
      ensures Slots() == Removed(old(Slots()), i).0 && x == Removed(old(Slots()), i).1.elem
      ensures x == old(items[i])
      ensures ItemSet(items) + {x} == ItemSet(old(items)) && x !in items && |items| == |old(items)| - 1
      ensures x.index == -1
      ensures Indexed()
      ensures old(Ordered()) ==> Ordered()
    {
      ghost var s := Slots();
      RemovedTakesSlot(s, i);
      var n := |items| - 1;
      if n != i {
        Swap(i, n);
        DownOrUpAt(i, n);
      }
      ghost var t, u := items, Slots();
      assert u == if n == i then s else DownOrUp(ContainerHeap.Swap(s, i, n), i, n);
      assert Removed(s, i) == (u[..n], u[n]);
      x := Pop();
      ItemSetAppend(items, x);
      assert Slots() == u[..n] && x == u[n].elem;
      if old(Ordered()) {
        RemovedIsHeap(s, i);
      }
    }

    /** `if !down(h, i, n) { up(h, i) }`, shared by `Fix` and `Remove`. */
    method DownOrUpAt(i: nat, n: nat)
      requires i < n <= |items| && Indexed()
      modifies this`items, ItemSet(items)`index
      ensures Slots() == DownOrUp(old(Slots()), i, n)
      ensures ItemSet(items) == ItemSet(old(items)) && |items| == |old(items)|
      ensures Indexed()
    {
      var moved := Down(i, n);
      if !moved {
        Up(i);
      }
    }

    /** `heap.Fix(h, i)`. */
    method HeapFix(i: nat)
      requires i < |items| && Indexed()
      modifies this`items, ItemSet(items)`index
      ensures Slots() == Fix(old(Slots()), i)
      ensures ItemSet(items) == ItemSet(old(items)) && |items| == |old(items)|
      ensures Indexed()
    {
      DownOrUpAt(i, |items|);
    }

    /** `heap.Init(h)`. */
    method HeapInit()
      requires Indexed()
      modifies this`items, ItemSet(items)`index
      ensures Slots() == Heapified(old(Slots()))
      ensures ItemSet(items) == ItemSet(old(items)) && |items| == |old(items)|
      ensures Indexed()
    {
      ghost var target, s0 := Heapified(Slots()), items;
      var n := |items|;
      for i := n / 2 downto 0
        invariant InitInv(i, n, s0, target)
      {
        InitStep(i, n, s0, target);
      }
    }

    /** One iteration of `Init`'s loop: `down(h, i, n)`. */
    method InitStep(i: nat, n: nat, ghost s0: seq<Item<K, V>>, ghost target: seq<Slot<Item<K, V>>>)
      requires InitInv(i + 1, n, s0, target)
      modifies this`items, ItemSet(items)`index
      ensures InitInv(i, n, s0, target)
    {
      HeapifyStep(Slots(), i);
      var _ := Down(i, n);
    }

    /** The invariant of `Init`'s loop once the positions from `i` down are still to sift. */
    ghost predicate InitInv(i: nat, n: nat, s0: seq<Item<K, V>>, target: seq<Slot<Item<K, V>>>)
      reads this`items, ItemSet(items)
    {
      |items| == n && ItemSet(items) == ItemSet(s0) && Indexed() && HeapifyBelow(Slots(), i) == target
    }
  }

  // ---------------------------------------------------------------------------
  // A cache's key map against the items of its heap

  /** Every stored item is in `items` under its own key. */
  ghost predicate Stored<K, V>(data: map<K, Item<K, V>>, items: set<Item<K, V>>) {
    forall k :: k in data ==> data[k] in items && data[k].key == k
  }

  /** Every item of `items` is the stored item of its key: the heap holds no orphan. */
  ghost predicate Owned<K, V>(data: map<K, Item<K, V>>, items: set<Item<K, V>>) {
    forall x :: x in items ==> x.key in data && data[x.key] == x
  }

  lemma StoredAfterPush<K, V>(data: map<K, Item<K, V>>, items: set<Item<K, V>>, it: Item<K, V>)
    requires Stored(data, items)
    ensures Stored(data[it.key := it], items + {it})
  {
  }

  lemma OwnedAfterPush<K, V>(data: map<K, Item<K, V>>, items: set<Item<K, V>>, it: Item<K, V>)
    requires Owned(data, items) && it.key !in data
    ensures Owned(data[it.key := it], items + {it})
  {
  }

  /** Popping `e` and deleting its key keeps every other stored item in the heap. */
  lemma StoredAfterEvict<K, V>(data: map<K, Item<K, V>>, items: set<Item<K, V>>, e: Item<K, V>)
    requires Stored(data, items + {e}) && e !in items
    ensures Stored(data - {e.key}, items)
  {
  }

  /** Without orphans, the popped item is a stored one, and deleting its key leaves no orphan. */
  lemma OwnedAfterEvict<K, V>(data: map<K, Item<K, V>>, items: set<Item<K, V>>, e: Item<K, V>)
    requires Owned(data, items + {e}) && e !in items
    ensures e.key in data && data[e.key] == e
    ensures Owned(data - {e.key}, items)
    ensures |data - {e.key}| == |data| - 1
  {
    assert (data - {e.key}).Keys == data.Keys - {e.key};
  }

  /** The root a heap pops has a priority no greater than that of any item left behind. */
  lemma LeastOfRest<K, V>(s: seq<Slot<Item<K, V>>>, rest: seq<Item<K, V>>)
    requires |s| > 0 && IsHeap(s) && View(rest) == Popped(s).0
    ensures IsHeap(View(rest))
    ensures forall y :: y in ItemSet(rest) ==> Popped(s).1.prio <= y.priority as real
  {
    PopTakesMinimum(s);
    forall y | y in ItemSet(rest)
      ensures Popped(s).1.prio <= y.priority as real
    {
      var p :| 0 <= p < |rest| && rest[p] == y;
      assert View(rest)[p] in multiset(Popped(s).0);
      assert View(rest)[p] in multiset(s);
    }
  }

  lemma RemovedIsHeap<T>(s: seq<Slot<T>>, i: nat)
    requires i < |s| && IsHeap(s)
    ensures IsHeap(Removed(s, i).0)
  {
    RemoveKeepsHeap(s, i);
  }

  lemma ItemSetAppend<K, V>(s: seq<Item<K, V>>, x: Item<K, V>)
    ensures ItemSet(s + [x]) == ItemSet(s) + {x}
  {
  }

  lemma SwapKeepsItems<K, V>(s: seq<Item<K, V>>, i: nat, j: nat)
    requires i < |s| && j < |s|
    ensures multiset(s[i := s[j]][j := s[i]]) == multiset(s)
    ensures ItemSet(s[i := s[j]][j := s[i]]) == ItemSet(s)
  {
    var t := s[i := s[j]][j := s[i]];
    assert t == ContainerHeap.Swap(s, i, j);
    SwapPermutes(s, i, j);
    forall x | x in ItemSet(s)
      ensures x in ItemSet(t)
    {
      assert x in multiset(s);
    }
    forall x | x in ItemSet(t)
      ensures x in ItemSet(s)
    {
      assert x in multiset(t);
    }
  }

  /** The key-value map a key-to-item map stands for. */
  function ValueMap<K, V>(d: map<K, Item<K, V>>): (m: map<K, V>)
    ensures m.Keys == d.Keys
    ensures forall k :: k in m ==> m[k] == d[k].value
  {
    map k | k in d :: d[k].value
  }

  // ---------------------------------------------------------------------------
  // Small map facts the caches' proofs call

  lemma AddKey<K, V>(d: map<K, V>, k: K, v: V)
    requires k !in d
    ensures |d[k := v]| == |d| + 1
  {
  }

  lemma UpdateTwice<K, V>(d: map<K, V>, k: K, v: V)
    requires d.Keys == {k}
    ensures d[k := v] == map[k := v]
  {
  }

  lemma RemoveThenUpdate<K, V>(d: map<K, V>, k: K, v: V)
    ensures (d - {k})[k := v] == d[k := v]
  {
  }

  /**
   * `SetMany` after the entries of `items` outside `rest` are stored: each
   * key holds its new value, or is a key of `before` with its item untouched.
   */
  ghost predicate SetSoFar<K, V>(now: map<K, Item<K, V>>, before: map<K, Item<K, V>>, items: map<K, V>, rest: set<K>)
  {
    forall k :: k in now ==>
      if k in items && k !in rest then now[k].value == items[k] else k in before && now[k] == before[k]
  }

  /** One entry more stored, with perhaps one key evicted after it. */
  lemma SetStep<K, V>(d: map<K, Item<K, V>>, now: map<K, Item<K, V>>, before: map<K, Item<K, V>>, items: map<K, V>, rest: set<K>, it: Item<K, V>)
    requires SetSoFar(d, before, items, rest) && it.key in rest && it.key in items && it.value == items[it.key]
    requires forall k :: k in now ==> k in d[it.key := it] && now[k] == d[it.key := it][k]
    ensures SetSoFar(now, before, items, rest - {it.key})
  {
  }

  /** While the old keys and the new ones together fit, storing one of them evicts nothing. */
  lemma KeysStep<K, X>(d: map<K, X>, key: K, x: X, base: set<K>, all: set<K>, capacity: int)
    requires forall k :: k in d ==> k in base || k in all
    requires key in all && |base + all| <= capacity
    ensures |d[key := x]| <= capacity
  {
    SubsetSize(d[key := x].Keys, base + all);
  }

  lemma SubsetSize<T>(a: set<T>, b: set<T>)
    requires a <= b
    ensures |a| <= |b|
  {
    assert b == a + (b - a);
  }
}
