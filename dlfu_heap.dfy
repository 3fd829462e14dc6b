/**
 * The DLFU cache's own eviction heap, a second copy of the LFU/LRU heap over
 * `DLFUItem`s: a slice of references ordered by a floating-point priority, each
 * item remembering its own position in `index`. The routines are those of
 * `CacheHeap`, proved against the same pure model in `ContainerHeap`.
 *
 * `Swap`, `Down` and `HeapInit` do not require the positions to be recorded
 * correctly beforehand: the DLFU cache's rebuild of its heap runs `heap.Init`
 * over a slice whose `index` fields were never set, and these contracts say
 * what `Init` then does to them (it only ever writes the `index` of an element
 * it swaps, and it swaps nothing in a slice that is already ordered).
 */
module DlfuHeap {
  import opened ContainerHeap

  /** A DLFU entry: key, value, priority, expiry time and position in the heap. */
  class DLFUItem<K, V> {
    const key: K
    var value: V
    var priority: real
    var expiresAt: int
    var index: int

    constructor (key: K, value: V, priority: real, expiresAt: int)
      ensures this.key == key && this.value == value
      ensures this.priority == priority && this.expiresAt == expiresAt && index == 0
    {
      this.key := key;
      this.value := value;
      this.priority := priority;
      this.expiresAt := expiresAt;
      index := 0;
    }

    /** `expired`: the expiry time lies strictly before `now`. */
    predicate Expired(now: int)
      reads this`expiresAt
    {
      expiresAt < now
    }
  }

  function ItemSet<K, V>(s: seq<DLFUItem<K, V>>): set<DLFUItem<K, V>> {
    set x | x in s
  }

  /** The slots the pure heap model sees: each item with its priority. */
  ghost function View<K, V>(s: seq<DLFUItem<K, V>>): (r: seq<Slot<DLFUItem<K, V>>>)
    reads ItemSet(s)`priority
    ensures |r| == |s|
    ensures forall p :: 0 <= p < |s| ==> r[p] == Slot(s[p], s[p].priority)
  {
    if s == [] then [] else View(s[..|s| - 1]) + [Slot(s[|s| - 1], s[|s| - 1].priority)]
  }

  class DLFUMinHeap<K, V> {
    var items: seq<DLFUItem<K, V>>

    constructor ()
      ensures items == []
    {
      items := [];
    }

    ghost function Slots(): seq<Slot<DLFUItem<K, V>>>
      reads this`items, ItemSet(items)`priority
    {
      View(items)
    }

    /** Every item knows its own position (`pq[p].index == p`). */
    ghost predicate Indexed()
      reads this`items, ItemSet(items)`index
    {
      forall p :: 0 <= p < |items| ==> items[p].index == p
    }

    /** The heap order over the slots. */
    ghost predicate Ordered()
      reads this`items, ItemSet(items)`priority
    {
      IsHeap(Slots())
    }

    function Len(): (r: int)
      reads this`items
      ensures r == |items| && r >= 0
    {
      |items|
    }

    predicate Less(i: nat, j: nat)
      requires i < |items| && j < |items|
      reads this`items, ItemSet(items)`priority
      ensures Less(i, j) <==> Slots()[i].prio < Slots()[j].prio
    {
      items[i].priority < items[j].priority
    }

    /** The child `down` follows from `i`: the right one only when it is Less than the left one. */
    function Child(i: nat, n: nat): (j: nat)
      requires 2 * i + 1 < n <= |items|
      reads this`items, ItemSet(items)`priority
      ensures j == SmallerChild(Slots(), i, n)
    {
      var j1 := 2 * i + 1;
      if j1 + 1 < n && Less(j1 + 1, j1) then j1 + 1 else j1
    }

    method Swap(i: nat, j: nat)
      requires i < |items| && j < |items|
      modifies this`items, ItemSet(items)`index
      ensures items == old(items)[i := old(items)[j]][j := old(items)[i]]
      ensures ItemSet(items) == ItemSet(old(items))
      ensures Slots() == ContainerHeap.Swap(old(Slots()), i, j)
      ensures old(Indexed()) ==> Indexed()
    {
      ghost var s := items;
      items := items[i := items[j]][j := items[i]];
      items[i].index := i;
      items[j].index := j;
      SwapKeepsItems(s, i, j);
    }

    /** The interface `Push`: append at the end and record the position. */
    method Push(x: DLFUItem<K, V>)
      requires Indexed() && x !in items
      modifies this`items, x`index
      ensures items == old(items) + [x] && x.index == |old(items)|
      ensures Slots() == old(Slots()) + [Slot(x, x.priority)]
      ensures Indexed()
    {
      x.index := |items|;
      items := items + [x];
    }

    /** The interface `Pop`: drop the last slot, mark it removed and return it. */
    method Pop() returns (x: DLFUItem<K, V>)
      requires |items| > 0 && Indexed()
      modifies this`items, ItemSet(items)`index
      ensures x == old(items[|items| - 1]) && items == old(items[..|items| - 1])
      ensures old(items) == items + [x]
      ensures x.index == -1
      ensures Slots() == old(Slots()[..|items| - 1])
      ensures Indexed()
    {
      x := items[|items| - 1];
      x.index := -1;
      items := items[..|items| - 1];
      assert old(items) == items + [x];
    }

    /** Replaces the slice by `s` as it stands: no `index` field is written. */
    method Load(s: seq<DLFUItem<K, V>>)
      modifies this`items
      ensures items == s
    {
      items := s;
    }

    /** Drops every slot, leaving the heap as a freshly made one. */
    method Reset()
      modifies this`items
      ensures items == [] && Indexed() && Ordered()
    {
      items := [];
    }

    /** `up(h, j)`; Go's parent of 0 is `(0 - 1) / 2 == 0`, which ends the loop. */
    method Up(j0: nat)
      requires j0 < |items| && Indexed()
      modifies this`items, ItemSet(items)`index
      ensures Slots() == SiftUp(old(Slots()), j0)
      ensures ItemSet(items) == ItemSet(old(items)) && |items| == |old(items)|
      ensures Indexed()
    {
      var j: nat := j0;
      while true
        invariant j < |items| == |old(items)| && Indexed()
        invariant ItemSet(items) == ItemSet(old(items))
        invariant SiftUp(Slots(), j) == SiftUp(old(Slots()), j0)
        decreases j
      {
        var i: nat := if j == 0 then 0 else (j - 1) / 2;
        if i == j || !Less(j, i) {
          break;
        }
        ghost var s := Slots();
        assert SiftUp(s, j) == SiftUp(ContainerHeap.Swap(s, i, j), i);
        Swap(i, j);
        j := i;
      }
    }

    /** `down(h, i0, n)`: reports whether the element left position `i0`. */
    method Down(i0: nat, n: nat) returns (moved: bool)
      requires n <= |items|
      modifies this`items, ItemSet(items)`index
      ensures Slots() == SiftDown(old(Slots()), i0, n).0
      ensures moved <==> SiftDown(old(Slots()), i0, n).1 > i0
      ensures ItemSet(items) == ItemSet(old(items)) && |items| == |old(items)|
      ensures old(Indexed()) ==> Indexed()
      ensures old(Ordered()) ==> items == old(items) && Unmoved(old(items)) && Ordered()
    {
      ghost var ordered := Ordered();
      var i := i0;
      while true
        invariant i0 <= i && |items| == |old(items)| && (old(Indexed()) ==> Indexed())
        invariant ItemSet(items) == ItemSet(old(items))
        invariant SiftDown(Slots(), i, n) == SiftDown(old(Slots()), i0, n)
        invariant ordered ==> i == i0 && items == old(items) && Unmoved(old(items)) && Ordered()
        decreases n - i
      {
        var j1 := 2 * i + 1;
        if j1 >= n {
          break;
        }
        ghost var s := Slots();
        var j := Child(i, n);
        if ordered {
          ChildNotLess(s, i, j);
        }
        if !Less(j, i) {
          DownStops(s, i, n);
          break;
        }
        DownMoves(s, i, n);
        Swap(i, j);
        i := j;
      }
      moved := i > i0;
    }

    /** No element of `s` has had its `index` written since the start of the enclosing method. */
    twostate predicate Unmoved(s: seq<DLFUItem<K, V>>)
      reads ItemSet(s)`index
    {
      forall x :: x in s ==> x.index == old(x.index)
    }

    /** `heap.Push(h, x)`. */
    method HeapPush(x: DLFUItem<K, V>)
      requires Indexed() && x !in items
      modifies this`items, ItemSet(items)`index, x`index
      ensures Slots() == Pushed(old(Slots()), Slot(x, x.priority))
      ensures ItemSet(items) == ItemSet(old(items)) + {x} && |items| == |old(items)| + 1
      ensures Indexed()
      ensures old(Ordered()) ==> Ordered()
    {
      if Ordered() {
        PushKeepsHeap(Slots(), Slot(x, x.priority));
      }
      Push(x);
      ItemSetAppend(old(items), x);
      Up(|items| - 1);
    }

    /** `heap.Pop(h)`: returns the root and marks it removed. */
    method HeapPop() returns (x: DLFUItem<K, V>)
      requires |items| > 0 && Indexed()
      modifies this`items, ItemSet(items)`index
      ensures Slots() == Popped(old(Slots())).0 && x == Popped(old(Slots())).1.elem
      ensures ItemSet(items) + {x} == ItemSet(old(items)) && x !in items && |items| == |old(items)| - 1
      ensures x.index == -1
      ensures Indexed()
      ensures old(Ordered()) ==> Ordered() && forall y :: y in ItemSet(items) ==> x.priority <= y.priority
    {
      ghost var s := Slots();
      var n := |items| - 1;
      SinkLast(n);
      ghost var u := Slots();
      x := Pop();
      ItemSetAppend(items, x);
      assert Slots() == u[..n] && x == u[n].elem;
      if old(Ordered()) {
        LeastOfRest(s, items);
      }
    }

    /** The first half of `heap.Pop`: the last slot moves to the root and sinks within the first `n`. */
    method SinkLast(n: nat)
      requires n + 1 == |items| && Indexed()
      modifies this`items, ItemSet(items)`index
      ensures Slots() == SiftDown(ContainerHeap.Swap(old(Slots()), 0, n), 0, n).0
      ensures ItemSet(items) == ItemSet(old(items)) && |items| == |old(items)| && Indexed()
    {
      Swap(0, n);
      var _ := Down(0, n);
    }

    /** `heap.Remove(h, i)`: returns the element at `i` and marks it removed. */
    method HeapRemove(i: nat) returns (x: DLFUItem<K, V>)
      requires i < |items| && Indexed()
      modifies this`items, ItemSet(items)`index
      ensures Slots() == Removed(old(Slots()), i).0 && x == Removed(old(Slots()), i).1.elem
      ensures x == old(items[i])
      ensures ItemSet(items) + {x} == ItemSet(old(items)) && x !in items && |items| == |old(items)| - 1
      ensures x.index == -1
      ensures Indexed()
      ensures old(Ordered()) ==> Ordered()
    {
      ghost var s := Slots();
      RemovedTakesSlot(s, i);
      var n := |items| - 1;
      if n != i {
        Swap(i, n);
        DownOrUpAt(i, n);
      }
      ghost var t, u := items, Slots();
      assert u == if n == i then s else DownOrUp(ContainerHeap.Swap(s, i, n), i, n);
      assert Removed(s, i) == (u[..n], u[n]);
      x := Pop();
      ItemSetAppend(items, x);
      assert Slots() == u[..n] && x == u[n].elem;
      if old(Ordered()) {
        RemoveKeepsHeap(s, i);
      }
    }

    /** `if !down(h, i, n) { up(h, i) }`, shared by `Fix` and `Remove`. */
    method DownOrUpAt(i: nat, n: nat)
      requires i < n <= |items| && Indexed()
      modifies this`items, ItemSet(items)`index
      ensures Slots() == DownOrUp(old(Slots()), i, n)
      ensures ItemSet(items) == ItemSet(old(items)) && |items| == |old(items)|
      ensures Indexed()
    {
      var moved := Down(i, n);
      if !moved {
        Up(i);
      }
    }

    /** `heap.Fix(h, i)`. */
    method HeapFix(i: nat)
      requires i < |items| && Indexed()
      modifies this`items, ItemSet(items)`index
      ensures Slots() == Fix(old(Slots()), i)
      ensures ItemSet(items) == ItemSet(old(items)) && |items| == |old(items)|
      ensures Indexed()
    {
      DownOrUpAt(i, |items|);
    }

    /** `heap.Init(h)`. */
    method HeapInit()
      modifies this`items, ItemSet(items)`index
      ensures Slots() == Heapified(old(Slots()))
      ensures ItemSet(items) == ItemSet(old(items)) && |items| == |old(items)|
      ensures old(Indexed()) ==> Indexed()
      ensures old(Ordered()) ==> items == old(items) && Unmoved(old(items))
    {
      ghost var target := Heapified(Slots());
      ghost var indexed, ordered := Indexed(), Ordered();
      ghost var s0, idx0 := items, IndexMap(items);
      var n := |items|;
      for i := n / 2 downto 0
        invariant InitInv(i, n, s0, idx0, target, indexed, ordered)
      {
        InitStep(i, n, s0, idx0, target, indexed, ordered);
      }
    }

    /**
     * `heap.Init` over a new slice `s` that replaces the old one. The slots end
     * as `Heapified` makes them; the positions are right afterwards when they
     * were right in `s`, and an `s` already in heap order is left as it is,
     * `index` fields included.
     */
    method Reload(s: seq<DLFUItem<K, V>>)
      modifies this`items, ItemSet(s)`index
      ensures Slots() == Heapified(old(View(s))) && Ordered()
      ensures ItemSet(items) == ItemSet(s) && |items| == |s|
      ensures (forall p :: 0 <= p < |s| ==> old(s[p].index) == p) ==> Indexed()
      ensures old(IsHeap(View(s))) ==> items == s && Unmoved(s)
    {
      ghost var v := View(s);
      Load(s);
      assert Slots() == v;
      HeapifiedIsHeap(v);
      HeapInit();
    }

    /** One iteration of `Init`'s loop: `down(h, i, n)`; on an ordered slice it moves nothing. */
    method InitStep(i: nat, n: nat, ghost s0: seq<DLFUItem<K, V>>, ghost idx0: map<DLFUItem<K, V>, int>,
                    ghost target: seq<Slot<DLFUItem<K, V>>>, ghost indexed: bool, ghost ordered: bool)
      requires InitInv(i + 1, n, s0, idx0, target, indexed, ordered)
      modifies this`items, ItemSet(items)`index
      ensures InitInv(i, n, s0, idx0, target, indexed, ordered)
    {
      HeapifyStep(Slots(), i);
      var _ := Down(i, n);
    }

    /** The invariant of `Init`'s loop once the positions from `i` down are still to sift. */
    ghost predicate InitInv(i: nat, n: nat, s0: seq<DLFUItem<K, V>>, idx0: map<DLFUItem<K, V>, int>,
                            target: seq<Slot<DLFUItem<K, V>>>, indexed: bool, ordered: bool)
      reads this`items, ItemSet(items)`priority, ItemSet(items)`index
    {
      && (ordered ==> Still(s0, idx0))
      && |items| == n && ItemSet(items) == ItemSet(s0)
      && HeapifyBelow(Slots(), i) == target
      && (indexed ==> Indexed())
    }

    /** The `index` field of each element of `s`. */
    ghost function IndexMap(s: seq<DLFUItem<K, V>>): (m: map<DLFUItem<K, V>, int>)
      reads ItemSet(s)`index
      ensures forall x :: x in s ==> x in m && m[x] == x.index
    {
      map x | x in ItemSet(s) :: x.index
    }

    /** The slots are still `s0`, ordered, and every element keeps the `index` recorded in `idx0`. */
    ghost predicate Still(s0: seq<DLFUItem<K, V>>, idx0: map<DLFUItem<K, V>, int>)
      reads this`items, ItemSet(items)`priority, ItemSet(items)`index
    {
      && items == s0
      && Ordered()
      && forall x :: x in items ==> x in idx0 && x.index == idx0[x]
    }
  }

  // ---------------------------------------------------------------------------
  // A cache's key map against the items of its heap

  /** Every stored item is in `items` under its own key. */
  ghost predicate Stored<K, V>(data: map<K, DLFUItem<K, V>>, items: set<DLFUItem<K, V>>) {
    forall k :: k in data ==> data[k] in items && data[k].key == k
  }

  /** Every item of `items` is the stored item of its key: the heap holds no orphan. */
  ghost predicate Owned<K, V>(data: map<K, DLFUItem<K, V>>, items: set<DLFUItem<K, V>>) {
    forall x :: x in items ==> x.key in data && data[x.key] == x
  }

  lemma StoredAfterPush<K, V>(data: map<K, DLFUItem<K, V>>, items: set<DLFUItem<K, V>>, it: DLFUItem<K, V>)
    requires Stored(data, items)
    ensures Stored(data[it.key := it], items + {it})
  {
  }

  lemma OwnedAfterPush<K, V>(data: map<K, DLFUItem<K, V>>, items: set<DLFUItem<K, V>>, it: DLFUItem<K, V>)
    requires Owned(data, items) && it.key !in data
    ensures Owned(data[it.key := it], items + {it})
  {
  }

  /** Popping `e` and deleting its key keeps every other stored item in the heap. */
  lemma StoredAfterEvict<K, V>(data: map<K, DLFUItem<K, V>>, items: set<DLFUItem<K, V>>, e: DLFUItem<K, V>)
    requires Stored(data, items + {e}) && e !in items
    ensures Stored(data - {e.key}, items)
  {
  }

  /** Without orphans, the popped item is a stored one, and deleting its key leaves no orphan. */
  lemma OwnedAfterEvict<K, V>(data: map<K, DLFUItem<K, V>>, items: set<DLFUItem<K, V>>, e: DLFUItem<K, V>)
    requires Owned(data, items + {e}) && e !in items
    ensures e.key in data && data[e.key] == e
    ensures Owned(data - {e.key}, items)
    ensures |data - {e.key}| == |data| - 1
  {
    assert (data - {e.key}).Keys == data.Keys - {e.key};
  }

  /** The root a heap pops has a priority no greater than that of any item left behind. */
  lemma LeastOfRest<K, V>(s: seq<Slot<DLFUItem<K, V>>>, rest: seq<DLFUItem<K, V>>)
    requires |s| > 0 && IsHeap(s) && View(rest) == Popped(s).0
    ensures IsHeap(View(rest))
    ensures forall y :: y in ItemSet(rest) ==> Popped(s).1.prio <= y.priority
  {
    PopTakesMinimum(s);
    forall y | y in ItemSet(rest)
      ensures Popped(s).1.prio <= y.priority
    {
      var p :| 0 <= p < |rest| && rest[p] == y;
      assert View(rest)[p] in multiset(Popped(s).0);
      assert View(rest)[p] in multiset(s);
    }
  }

  lemma ItemSetAppend<K, V>(s: seq<DLFUItem<K, V>>, x: DLFUItem<K, V>)
    ensures ItemSet(s + [x]) == ItemSet(s) + {x}
  {
  }

  lemma SwapKeepsItems<K, V>(s: seq<DLFUItem<K, V>>, i: nat, j: nat)
    requires i < |s| && j < |s|
    ensures multiset(s[i := s[j]][j := s[i]]) == multiset(s)
    ensures ItemSet(s[i := s[j]][j := s[i]]) == ItemSet(s)
  {
    var t := s[i := s[j]][j := s[i]];
    assert t == ContainerHeap.Swap(s, i, j);
    SwapPermutes(s, i, j);
    forall x | x in ItemSet(s)
      ensures x in ItemSet(t)
    {
      assert x in multiset(s);
    }
    forall x | x in ItemSet(t)
      ensures x in ItemSet(s)
    {
      assert x in multiset(t);
    }
  }

  /** The key-value map a key-to-item map stands for. */
  function ValueMap<K, V>(d: map<K, DLFUItem<K, V>>): (m: map<K, V>)
    reads d.Values`value
    ensures m.Keys == d.Keys
    ensures forall k :: k in m ==> m[k] == d[k].value
  {
    map k | k in d :: d[k].value
  }
}
