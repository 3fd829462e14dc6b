/**
 * The algorithm of Go's `container/heap` package, which both eviction heaps of
 * the cache package plug into: `up`/`down` sifting with the strict `Less`,
 * and the `Push`, `Pop`, `Fix`, `Remove` and `Init` routines built on them.
 *
 * A heap is modelled as the sequence of its slots; each slot holds the element
 * stored there and the priority that `Less` compares (`Less(i, j)` is
 * `s[i].prio < s[j].prio`). Priorities are reals: the LFU and LRU heaps compare
 * integers, which embed exactly, and the DLFU heap compares floats.
 * Every function here follows the library's loop step for step, so ties
 * between equal priorities are broken exactly as the library breaks them.
 */
module ContainerHeap {

  datatype Slot<T> = Slot(elem: T, prio: real)

  /** Exchanges two positions (the `Swap` of `heap.Interface`). */
  function Swap<T>(s: seq<T>, i: nat, j: nat): (r: seq<T>)
    requires i < |s| && j < |s|
    ensures |r| == |s| && r[i] == s[j] && r[j] == s[i]
    ensures forall k :: 0 <= k < |s| && k != i && k != j ==> r[k] == s[k]
  {
    s[i := s[j]][j := s[i]]
  }

  /** The parent of position `p` (Go's `(p - 1) / 2`). */
  function Parent(p: nat): nat
    requires p > 0
  {
    (p - 1) / 2
  }

  /** The element at `p` is not Less than its parent. */
  ghost predicate Ordered<T>(s: seq<Slot<T>>, p: nat)
    requires 0 < p < |s|
  {
    s[Parent(p)].prio <= s[p].prio
  }

  /** The heap order among the positions below `n` whose parent is at `lo` or later. */
  ghost predicate HeapFrom<T>(s: seq<Slot<T>>, lo: nat, n: nat)
    requires n <= |s|
  {
    forall p :: 0 < p < n && lo <= Parent(p) ==> Ordered(s, p)
  }

  /** The element at `q` is not Less than the parent of `i` (vacuous past `n`). */
  ghost predicate AboveParent<T>(s: seq<Slot<T>>, i: nat, q: nat, n: nat)
    requires 0 < i < |s| && n <= |s|
  {
    q < n ==> s[Parent(i)].prio <= s[q].prio
  }

  /** The parent of `i` is not above either child of `i`. */
  ghost predicate GrandparentOrdered<T>(s: seq<Slot<T>>, i: nat, n: nat)
    requires 0 < i < |s| && n <= |s|
  {
    AboveParent(s, i, 2 * i + 1, n) && AboveParent(s, i, 2 * i + 2, n)
  }

  /** The heap order over the whole sequence. */
  ghost predicate IsHeap<T>(s: seq<Slot<T>>) {
    HeapFrom(s, 0, |s|)
  }

  /**
   * `up(h, j)`: while the element at `j` is Less than its parent, swap the two.
   * (Go computes the parent of 0 as (0-1)/2 == 0 and stops on `i == j`.)
   */
  ghost function SiftUp<T>(s: seq<Slot<T>>, j: nat): (r: seq<Slot<T>>)
    requires j < |s|
    ensures |r| == |s|
    decreases j
  {
    if j == 0 then s
    else
      var i := Parent(j);
      if !(s[j].prio < s[i].prio) then s
      else SiftUp(Swap(s, i, j), i)
  }

  /** The smaller child of `i` below `n`, as `down` chooses it (the right one only when strictly Less). */
  function SmallerChild<T>(s: seq<Slot<T>>, i: nat, n: nat): (j: nat)
    requires 2 * i + 1 < n <= |s|
    ensures j == 2 * i + 1 || j == 2 * i + 2
    ensures j < n && forall c :: 2 * i + 1 <= c <= 2 * i + 2 && c < n ==> s[j].prio <= s[c].prio
  {
    var j1 := 2 * i + 1;
    if j1 + 1 < n && s[j1 + 1].prio < s[j1].prio then j1 + 1 else j1
  }

  /**
   * `down(h, i, n)`: while the smaller child (the right one only when it is
   * strictly Less than the left one) is Less than the element at `i`, swap
   * them; only positions below `n` take part. Returns the final sequence and
   * the final position; `down` reports `true` when that position is past `i`.
   */
  ghost function SiftDown<T>(s: seq<Slot<T>>, i: nat, n: nat): (r: (seq<Slot<T>>, nat))
    requires n <= |s|
    ensures |r.0| == |s|
    decreases n - i
  {
    var j1 := 2 * i + 1;
    if j1 >= n then (s, i)
    else
      var j := SmallerChild(s, i, n);
      if !(s[j].prio < s[i].prio) then (s, i)
      else SiftDown(Swap(s, i, j), j, n)
  }

  /** `if !down(h, i, n) { up(h, i) }`: the common core of `Fix` and `Remove`. */
  ghost function DownOrUp<T>(s: seq<Slot<T>>, i: nat, n: nat): (r: seq<Slot<T>>)
    requires i < n <= |s|
    ensures |r| == |s|
  {
    var d := SiftDown(s, i, n);
    if d.1 > i then d.0 else SiftUp(d.0, i)
  }

  /** `heap.Fix(h, i)`: restore the order after the priority at `i` changed. */
  ghost function Fix<T>(s: seq<Slot<T>>, i: nat): seq<Slot<T>>
    requires i < |s|
  {
    DownOrUp(s, i, |s|)
  }

  /** `heap.Push(h, x)`: append, then sift the new last element up. */
  ghost function Pushed<T>(s: seq<Slot<T>>, x: Slot<T>): seq<Slot<T>> {
    SiftUp(s + [x], |s|)
  }

  /** `heap.Pop(h)`: swap the root with the last slot, sift down over the rest, remove the last slot. */
  ghost function Popped<T>(s: seq<Slot<T>>): (r: (seq<Slot<T>>, Slot<T>))
    requires |s| > 0
  {
    var n := |s| - 1;
    var t := SiftDown(Swap(s, 0, n), 0, n).0;
    (t[..n], t[n])
  }

  /** `heap.Pop(h)` repeated for as long as the root's element is in `dead`. */
  ghost function PoppedWhile<T>(s: seq<Slot<T>>, dead: set<T>): seq<Slot<T>>
    decreases |s|
  {
    if |s| > 0 && s[0].elem in dead then PoppedWhile(Popped(s).0, dead) else s
  }

  /** `heap.Remove(h, i)`: swap `i` with the last slot, down-or-up over the rest, remove the last slot. */
  ghost function Removed<T>(s: seq<Slot<T>>, i: nat): (r: (seq<Slot<T>>, Slot<T>))
    requires i < |s|
  {
    var n := |s| - 1;
    if n == i then (s[..n], s[n])
    else
      var t := DownOrUp(Swap(s, i, n), i, n);
      (t[..n], t[n])
  }

  /** `heap.Init(h)`: `down(h, i, n)` for `i` from `n/2 - 1` down to 0. */
  ghost function Heapified<T>(s: seq<Slot<T>>): seq<Slot<T>> {
    HeapifyBelow(s, |s| / 2)
  }

  /** The rest of `Init`'s loop when the positions `k` and above are done. */
  ghost function HeapifyBelow<T>(s: seq<Slot<T>>, k: nat): (r: seq<Slot<T>>)
    ensures |r| == |s|
    decreases k
  {
    if k == 0 then s else HeapifyBelow(SiftDown(s, k - 1, |s|).0, k - 1)
  }

  // ---------------------------------------------------------------------------
  // The routines only rearrange slots

  lemma SwapPermutes<T>(s: seq<T>, i: nat, j: nat)
    requires i < |s| && j < |s|
    ensures multiset(Swap(s, i, j)) == multiset(s)
  {
    if i != j {
      assert multiset(s[i := s[j]]) == multiset(s) - multiset{s[i]} + multiset{s[j]};
    }
  }

  /** `up` from `j` permutes the slots and leaves every position after `j` alone. */
  lemma {:induction false} SiftUpPermutes<T>(s: seq<Slot<T>>, j: nat)
    requires j < |s|
    ensures multiset(SiftUp(s, j)) == multiset(s)
    ensures forall k :: j < k < |s| ==> SiftUp(s, j)[k] == s[k]
    decreases j
  {
    if j > 0 && s[j].prio < s[Parent(j)].prio {
      SwapPermutes(s, Parent(j), j);
      SiftUpPermutes(Swap(s, Parent(j), j), Parent(j));
    }
  }

  /** `down` from `i` permutes the slots, never moves up, and leaves positions from `n` on alone. */
  lemma {:induction false} SiftDownPermutes<T>(s: seq<Slot<T>>, i: nat, n: nat)
    requires n <= |s|
    ensures multiset(SiftDown(s, i, n).0) == multiset(s)
    ensures i <= SiftDown(s, i, n).1
    ensures SiftDown(s, i, n).1 == i ==> SiftDown(s, i, n).0 == s
    ensures forall k :: n <= k < |s| ==> SiftDown(s, i, n).0[k] == s[k]
    decreases n - i
  {
    if 2 * i + 1 < n {
      var j := SmallerChild(s, i, n);
      if s[j].prio < s[i].prio {
        SwapPermutes(s, i, j);
        SiftDownPermutes(Swap(s, i, j), j, n);
      }
    }
  }

  lemma DownOrUpPermutes<T>(s: seq<Slot<T>>, i: nat, n: nat)
    requires i < n <= |s|
    ensures multiset(DownOrUp(s, i, n)) == multiset(s)
    ensures forall k :: n <= k < |s| ==> DownOrUp(s, i, n)[k] == s[k]
  {
    SiftDownPermutes(s, i, n);
    var d := SiftDown(s, i, n);
    if d.1 <= i {
      SiftUpPermutes(d.0, i);
    }
  }

  lemma {:induction false} HeapifyBelowPermutes<T>(s: seq<Slot<T>>, k: nat)
    ensures multiset(HeapifyBelow(s, k)) == multiset(s)
    decreases k
  {
    if k > 0 {
      SiftDownPermutes(s, k - 1, |s|);
      HeapifyBelowPermutes(SiftDown(s, k - 1, |s|).0, k - 1);
    }
  }

  // ---------------------------------------------------------------------------
  // One iteration of each library loop, for the imperative heaps

  lemma DownStops<T>(s: seq<Slot<T>>, i: nat, n: nat)
    requires 2 * i + 1 < n <= |s| && !(s[SmallerChild(s, i, n)].prio < s[i].prio)
    ensures SiftDown(s, i, n) == (s, i)
  {
  }

  lemma DownMoves<T>(s: seq<Slot<T>>, i: nat, n: nat)
    requires 2 * i + 1 < n <= |s| && s[SmallerChild(s, i, n)].prio < s[i].prio
    ensures SiftDown(s, i, n) == SiftDown(Swap(s, i, SmallerChild(s, i, n)), SmallerChild(s, i, n), n)
  {
  }

  lemma HeapifyStep<T>(s: seq<Slot<T>>, i: nat)
    ensures HeapifyBelow(s, i + 1) == HeapifyBelow(SiftDown(s, i, |s|).0, i)
  {
  }

  // ---------------------------------------------------------------------------
  // Correctness of the sifts

  /** What `down` needs at `i`: the order holds except below `i`, and `i`'s parent is not above `i`'s children. */
  ghost predicate DownReady<T>(s: seq<Slot<T>>, lo: nat, i: nat, n: nat)
    requires n <= |s|
  {
    && (forall p :: 0 < p < n && lo <= Parent(p) && Parent(p) != i ==> Ordered(s, p))
    && (0 < i < n && lo <= Parent(i) ==> GrandparentOrdered(s, i, n))
  }

  /** One swap of `down` moves the gap in the order from `i` to the child `j`. */
  lemma DownStep<T>(s: seq<Slot<T>>, lo: nat, i: nat, j: nat, n: nat)
    requires n <= |s| && lo <= i && DownReady(s, lo, i, n)
    requires j == 2 * i + 1 || j == 2 * i + 2
    requires j < n && s[j].prio < s[i].prio
    requires forall c :: 2 * i + 1 <= c <= 2 * i + 2 && c < n ==> s[j].prio <= s[c].prio
    ensures DownReady(Swap(s, i, j), lo, j, n)
  {
    var t := Swap(s, i, j);
    forall p | 0 < p < n && lo <= Parent(p) && Parent(p) != j
      ensures Ordered(t, p)
    {
      if Parent(p) == i {
        assert p == 2 * i + 1 || p == 2 * i + 2;
      } else if p == i {
        assert AboveParent(s, i, j, n);
      } else {
        assert t[Parent(p)] == s[Parent(p)] && t[p] == s[p];
        assert Ordered(s, p);
      }
    }
    assert Parent(2 * j + 1) == j && Parent(2 * j + 2) == j;
    assert Parent(j) == i;
    if 2 * j + 1 < n {
      assert Ordered(s, 2 * j + 1);
    }
    if 2 * j + 2 < n {
      assert Ordered(s, 2 * j + 2);
    }
  }

  lemma {:induction false} SiftDownRestores<T>(s: seq<Slot<T>>, lo: nat, i: nat, n: nat)
    requires n <= |s| && lo <= i && DownReady(s, lo, i, n)
    ensures HeapFrom(SiftDown(s, i, n).0, lo, n)
    decreases n - i
  {
    var j1 := 2 * i + 1;
    if j1 >= n {
      forall p | 0 < p < n && lo <= Parent(p)
        ensures Ordered(s, p)
      {
        assert Parent(p) != i;
      }
    } else {
      var j := SmallerChild(s, i, n);
      if !(s[j].prio < s[i].prio) {
        forall p | 0 < p < n && lo <= Parent(p)
          ensures Ordered(s, p)
        {
          if Parent(p) == i {
            assert p == j1 || p == j1 + 1;
          }
        }
      } else {
        var t := Swap(s, i, j);
        DownStep(s, lo, i, j, n);
        SiftDownRestores(t, lo, j, n);
      }
    }
  }

  /** What `up` needs at `j`: the order holds except at `j`, and `j`'s parent is not above `j`'s children. */
  ghost predicate UpReady<T>(s: seq<Slot<T>>, j: nat, n: nat)
    requires j < n <= |s|
  {
    && (forall p :: 0 < p < n && p != j ==> Ordered(s, p))
    && (0 < j ==> GrandparentOrdered(s, j, n))
  }

  lemma {:induction false} SiftUpRestores<T>(s: seq<Slot<T>>, j: nat, n: nat)
    requires j < n <= |s| && UpReady(s, j, n)
    ensures HeapFrom(SiftUp(s, j), 0, n)
    decreases j
  {
    if j == 0 {
    } else {
      var i := Parent(j);
      if !(s[j].prio < s[i].prio) {
        assert Ordered(s, j);
      } else {
        var t := Swap(s, i, j);
        forall p | 0 < p < n && p != i
          ensures Ordered(t, p)
        {
          if p == j {
          } else if Parent(p) == i {
            assert Ordered(s, p);
          } else if Parent(p) == j {
            assert p == 2 * j + 1 || p == 2 * j + 2;
            assert AboveParent(s, j, p, n);
          } else {
            assert t[Parent(p)] == s[Parent(p)] && t[p] == s[p];
            assert Ordered(s, p);
          }
        }
        if 0 < i {
          assert Ordered(s, i);
          var c1, c2 := 2 * i + 1, 2 * i + 2;
          assert Parent(c1) == i && Parent(c2) == i;
          if c1 < n && c1 != j {
            assert Ordered(s, c1);
          }
          if c2 < n && c2 != j {
            assert Ordered(s, c2);
          }
          assert GrandparentOrdered(t, i, n);
        }
        SiftUpRestores(t, i, n);
      }
    }
  }

  /** What `Fix` needs at `i`: the order holds for every pair not involving `i`, and `i`'s parent is not above `i`'s children. */
  ghost predicate FixReady<T>(s: seq<Slot<T>>, i: nat, n: nat)
    requires i < n <= |s|
  {
    && (forall p :: 0 < p < n && p != i && Parent(p) != i ==> Ordered(s, p))
    && (0 < i ==> GrandparentOrdered(s, i, n))
  }

  /** When `down` moves the element at `i`, the parent of `i` is below the smaller child and so below `i`. */
  lemma FixReadyGoesDown<T>(s: seq<Slot<T>>, i: nat, n: nat)
    requires i < n <= |s| && FixReady(s, i, n)
    requires 2 * i + 1 < n && s[SmallerChild(s, i, n)].prio < s[i].prio
    ensures DownReady(s, 0, i, n)
  {
    if 0 < i {
      assert AboveParent(s, i, SmallerChild(s, i, n), n);
      assert Ordered(s, i);
    }
  }

  /** When `down` leaves the element at `i` in place, its children are ordered below it. */
  lemma FixReadyGoesUp<T>(s: seq<Slot<T>>, i: nat, n: nat)
    requires i < n <= |s| && FixReady(s, i, n)
    requires 2 * i + 1 < n ==> !(s[SmallerChild(s, i, n)].prio < s[i].prio)
    ensures UpReady(s, i, n)
  {
    forall p | 0 < p < n && p != i
      ensures Ordered(s, p)
    {
      if Parent(p) == i {
        assert p == 2 * i + 1 || p == 2 * i + 2;
      }
    }
  }

  lemma DownOrUpRestores<T>(s: seq<Slot<T>>, i: nat, n: nat)
    requires i < n <= |s| && FixReady(s, i, n)
    ensures HeapFrom(DownOrUp(s, i, n), 0, n)
  {
    if 2 * i + 1 < n && s[SmallerChild(s, i, n)].prio < s[i].prio {
      FixReadyGoesDown(s, i, n);
      SiftDownRestores(s, 0, i, n);
    } else {
      assert SiftDown(s, i, n) == (s, i);
      FixReadyGoesUp(s, i, n);
      SiftUpRestores(s, i, n);
    }
  }

  // ---------------------------------------------------------------------------
  // The routines keep a heap a heap

  /** Changing one slot of a heap leaves it ready for `Fix` at that slot. */
  lemma ChangedSlotIsFixReady<T>(s: seq<Slot<T>>, i: nat, x: Slot<T>)
    requires i < |s| && IsHeap(s)
    ensures FixReady(s[i := x], i, |s|)
  {
    var t := s[i := x];
    forall p | 0 < p < |s| && p != i && Parent(p) != i
      ensures Ordered(t, p)
    {
      assert Ordered(s, p);
    }
    if 0 < i {
      assert Ordered(s, i);
      var c1, c2 := 2 * i + 1, 2 * i + 2;
      assert Parent(c1) == i && Parent(c2) == i;
      if c1 < |s| {
        assert Ordered(s, c1);
      }
      if c2 < |s| {
        assert Ordered(s, c2);
      }
    }
  }

  /** `heap.Fix` after one slot changed leaves a heap of the same slots. */
  lemma FixKeepsHeap<T>(s: seq<Slot<T>>, i: nat, x: Slot<T>)
    requires i < |s| && IsHeap(s)
    ensures IsHeap(Fix(s[i := x], i))
    ensures multiset(Fix(s[i := x], i)) == multiset(s[i := x])
  {
    ChangedSlotIsFixReady(s, i, x);
    DownOrUpRestores(s[i := x], i, |s|);
    DownOrUpPermutes(s[i := x], i, |s|);
  }

  /** `heap.Push` keeps a heap a heap and adds exactly the pushed slot. */
  lemma PushKeepsHeap<T>(s: seq<Slot<T>>, x: Slot<T>)
    requires IsHeap(s)
    ensures IsHeap(Pushed(s, x))
    ensures multiset(Pushed(s, x)) == multiset(s) + multiset{x}
  {
    var t := s + [x];
    forall p | 0 < p < |t| && p != |s|
      ensures Ordered(t, p)
    {
      assert Ordered(s, p);
    }
    SiftUpRestores(t, |s|, |t|);
    SiftUpPermutes(t, |s|);
  }

  /** In a heap no element is Less than the root. */
  lemma {:induction false} RootIsMinimum<T>(s: seq<Slot<T>>, p: nat)
    requires IsHeap(s) && p < |s|
    ensures s[0].prio <= s[p].prio
    decreases p
  {
    if p > 0 {
      assert Ordered(s, p);
      RootIsMinimum(s, Parent(p));
    }
  }

  /** In a heap neither child of a position is Less than it, so `down` stops at once. */
  lemma ChildNotLess<T>(s: seq<Slot<T>>, i: nat, j: nat)
    requires IsHeap(s) && j < |s| && (j == 2 * i + 1 || j == 2 * i + 2)
    ensures s[i].prio <= s[j].prio
  {
    assert Parent(j) == i && Ordered(s, j);
  }

  lemma HeapFromPrefix<T>(s: seq<Slot<T>>, n: nat)
    requires n <= |s| && HeapFrom(s, 0, n)
    ensures IsHeap(s[..n])
  {
    var t := s[..n];
    forall p | 0 < p < n
      ensures Ordered(t, p)
    {
      assert Ordered(s, p);
    }
  }

  /** `heap.Pop` returns the root, an element of least priority, and leaves a heap of the others. */
  lemma PopTakesMinimum<T>(s: seq<Slot<T>>)
    requires |s| > 0 && IsHeap(s)
    ensures Popped(s).1 == s[0]
    ensures forall x :: x in s ==> Popped(s).1.prio <= x.prio
    ensures IsHeap(Popped(s).0)
    ensures multiset(Popped(s).0) + multiset{Popped(s).1} == multiset(s)
  {
    PopKeepsHeap(s);
    PopPermutes(s);
    RootIsLeast(s);
  }

  /** After `heap.Pop` of a heap, the rest is a heap. */
  lemma PopKeepsHeap<T>(s: seq<Slot<T>>)
    requires |s| > 0 && IsHeap(s)
    ensures IsHeap(Popped(s).0)
  {
    var n := |s| - 1;
    var t := Swap(s, 0, n);
    forall p | 0 < p < n && Parent(p) != 0
      ensures Ordered(t, p)
    {
      assert Ordered(s, p);
    }
    SiftDownRestores(t, 0, 0, n);
    HeapFromPrefix(SiftDown(t, 0, n).0, n);
  }

  /** `heap.Pop` takes out the root and only rearranges the rest. */
  lemma PopPermutes<T>(s: seq<Slot<T>>)
    requires |s| > 0
    ensures Popped(s).1 == s[0]
    ensures multiset(Popped(s).0) + multiset{Popped(s).1} == multiset(s)
  {
    var n := |s| - 1;
    var t := Swap(s, 0, n);
    SwapPermutes(s, 0, n);
    SiftDownPermutes(t, 0, n);
    var u := SiftDown(t, 0, n).0;
    assert u == u[..n] + [u[n]];
  }

  /** The root of a heap has the least priority of all its elements. */
  lemma RootIsLeast<T>(s: seq<Slot<T>>)
    requires |s| > 0 && IsHeap(s)
    ensures forall x :: x in s ==> s[0].prio <= x.prio
  {
    forall x | x in s
      ensures s[0].prio <= x.prio
    {
      var p :| 0 <= p < |s| && s[p] == x;
      RootIsMinimum(s, p);
    }
  }

  /** One round of `PoppedWhile`: a dead root is popped. */
  lemma PoppedWhileStep<T>(s: seq<Slot<T>>, dead: set<T>)
    requires |s| > 0 && s[0].elem in dead
    ensures PoppedWhile(s, dead) == PoppedWhile(Popped(s).0, dead)
  {
  }

  /**
   * Popping a heap while its root is in `dead` leaves a heap whose root is
   * not; it takes out only elements of `dead`, and none of them has a greater
   * priority than any slot left behind.
   */
  lemma {:induction false} PoppedWhileTakesLeast<T>(s: seq<Slot<T>>, dead: set<T>)
    requires IsHeap(s)
    ensures IsHeap(PoppedWhile(s, dead))
    ensures PoppedWhile(s, dead) == [] || PoppedWhile(s, dead)[0].elem !in dead
    ensures multiset(PoppedWhile(s, dead)) <= multiset(s)
    ensures forall x :: x in multiset(s) - multiset(PoppedWhile(s, dead)) ==> x.elem in dead
    ensures forall x, y :: x in multiset(s) - multiset(PoppedWhile(s, dead)) && y in PoppedWhile(s, dead) ==> x.prio <= y.prio
    decreases |s|
  {
    if |s| > 0 && s[0].elem in dead {
      var t := Popped(s).0;
      var r := PoppedWhile(t, dead);
      PopTakesMinimum(s);
      PoppedWhileTakesLeast(t, dead);
      assert multiset(s) - multiset(r) == (multiset(t) - multiset(r)) + multiset{s[0]};
      forall x, y | x in multiset(s) - multiset(r) && y in r
        ensures x.prio <= y.prio
      {
        if x == s[0] {
          assert y in multiset(t);
          assert y in multiset(s);
        }
      }
    }
  }

  /** Moving the last slot of a heap into position `i` leaves the shorter prefix ready for `Fix` at `i`. */
  lemma SwapWithLastIsFixReady<T>(s: seq<Slot<T>>, i: nat)
    requires i < |s| - 1 && IsHeap(s)
    ensures FixReady(Swap(s, i, |s| - 1), i, |s| - 1)
  {
    var n := |s| - 1;
    var t := Swap(s, i, n);
    forall p | 0 < p < n && p != i && Parent(p) != i
      ensures Ordered(t, p)
    {
      assert Ordered(s, p);
    }
    if 0 < i {
      assert Ordered(s, i);
      var c1, c2 := 2 * i + 1, 2 * i + 2;
      assert Parent(c1) == i && Parent(c2) == i;
      if c1 < n {
        assert Ordered(s, c1);
      }
      if c2 < n {
        assert Ordered(s, c2);
      }
    }
  }

  /** Down-or-up over the prefix restores the order once the last slot has been moved to `i`. */
  lemma SwappedRestores<T>(s: seq<Slot<T>>, i: nat, t: seq<Slot<T>>)
    requires i < |s| - 1 && t == Swap(s, i, |s| - 1) && FixReady(t, i, |s| - 1)
    ensures HeapFrom(DownOrUp(t, i, |s| - 1), 0, |s| - 1)
  {
    DownOrUpRestores(t, i, |s| - 1);
  }

  /** The prefix and the last slot of an ordered sequence are a heap and the removed element. */
  lemma SplitLast<T>(u: seq<Slot<T>>)
    requires |u| > 0 && HeapFrom(u, 0, |u| - 1)
    ensures IsHeap(u[..|u| - 1])
    ensures multiset(u[..|u| - 1]) + multiset{u[|u| - 1]} == multiset(u)
  {
    HeapFromPrefix(u, |u| - 1);
    assert u == u[..|u| - 1] + [u[|u| - 1]];
  }

  /** `heap.Remove(h, i)` returns the slot that was at `i`, whatever the order. */
  lemma RemovedTakesSlot<T>(s: seq<Slot<T>>, i: nat)
    requires i < |s|
    ensures Removed(s, i).1 == s[i]
  {
    if i < |s| - 1 {
      DownOrUpPermutes(Swap(s, i, |s| - 1), i, |s| - 1);
    }
  }

  /** `heap.Remove(h, i)` returns the element at `i` and leaves a heap of the others. */
  lemma RemoveKeepsHeap<T>(s: seq<Slot<T>>, i: nat)
    requires i < |s| && IsHeap(s)
    ensures Removed(s, i).1 == s[i]
    ensures IsHeap(Removed(s, i).0)
    ensures multiset(Removed(s, i).0) + multiset{Removed(s, i).1} == multiset(s)
  {
    if i == |s| - 1 {
      SplitLast(s);
    } else {
      SwapWithLastIsFixReady(s, i);
      SwappedRestores(s, i, Swap(s, i, |s| - 1));
      SwapPermutes(s, i, |s| - 1);
      DownOrUpPermutes(Swap(s, i, |s| - 1), i, |s| - 1);
      SplitLast(DownOrUp(Swap(s, i, |s| - 1), i, |s| - 1));
    }
  }

  lemma {:induction false} HeapifyBelowRestores<T>(s: seq<Slot<T>>, k: nat)
    requires k <= |s| && HeapFrom(s, k, |s|)
    ensures IsHeap(HeapifyBelow(s, k))
    decreases k
  {
    if k > 0 {
      SiftDownRestores(s, k - 1, k - 1, |s|);
      HeapifyBelowRestores(SiftDown(s, k - 1, |s|).0, k - 1);
    }
  }

  /** `heap.Init` turns any sequence into a heap of the same elements. */
  lemma HeapifiedIsHeap<T>(s: seq<Slot<T>>)
    ensures IsHeap(Heapified(s)) && multiset(Heapified(s)) == multiset(s)
  {
    HeapifyBelowRestores(s, |s| / 2);
    HeapifyBelowPermutes(s, |s| / 2);
  }

  // ---------------------------------------------------------------------------
  // Ties: the order the caches' tests rely on

  /** Of two slots, `Pop` returns the root, whatever the priorities. */
  lemma PopOfTwo<T>(a: Slot<T>, b: Slot<T>)
    ensures Popped([a, b]) == ([b], a)
  {
    assert Swap([a, b], 0, 1) == [b, a];
    assert SiftDown([b, a], 0, 1) == ([b, a], 0);
    assert [b, a][..1] == [b];
  }

  /** A pushed slot that is not Less than the root stays behind it. */
  lemma PushBehind<T>(a: Slot<T>, b: Slot<T>)
    requires a.prio <= b.prio
    ensures Pushed([a], b) == [a, b]
  {
    assert [a] + [b] == [a, b];
  }

  /**
   * Three equal slots pushed and one popped: the root, the first one pushed,
   * leaves, and the last one pushed moves to the root.
   */
  lemma PopOfThreeEqual<T>(a: Slot<T>, b: Slot<T>, c: Slot<T>)
    requires a.prio == b.prio == c.prio
    ensures Pushed([a, b], c) == [a, b, c]
    ensures Popped([a, b, c]) == ([c, b], a)
  {
    assert [a, b] + [c] == [a, b, c];
    assert Swap([a, b, c], 0, 2) == [c, b, a];
    assert SmallerChild([c, b, a], 0, 2) == 1;
    assert SiftDown([c, b, a], 0, 2) == ([c, b, a], 0);
    assert [c, b, a][..2] == [c, b];
  }

  /**
   * The caches' test sequence on the heap: `a` and `b` pushed, `a` read (its
   * priority raised above `b`'s, then re-fixed) and `c` pushed no lower than
   * `b`: `Pop` returns `b`. With counts (LFU) the priorities are 1, 1, 2, 1;
   * with increasing clock readings (LRU) they are t1 < t2 < t3 < t4.
   */
  lemma ReadKeyOutlivesUnread<T>(a: T, b: T, c: T, pb: real, pa2: real, pc: real)
    requires pb < pa2 && pb <= pc
    ensures Popped(Pushed(Fix([Slot(a, pa2), Slot(b, pb)], 0), Slot(c, pc))).1 == Slot(b, pb)
  {
    var sb, sc, sa2 := Slot(b, pb), Slot(c, pc), Slot(a, pa2);
    var t := [sa2, sb];
    assert SmallerChild(t, 0, 2) == 1;
    assert Swap(t, 0, 1) == [sb, sa2];
    assert SiftDown(t, 0, 2) == ([sb, sa2], 1);
    var g := [sb, sa2];
    assert Fix(t, 0) == g;
    assert g + [sc] == [sb, sa2, sc];
    assert Pushed(g, sc) == [sb, sa2, sc];
    var u := [sc, sa2, sb];
    assert Swap([sb, sa2, sc], 0, 2) == u;
    assert SmallerChild(u, 0, 2) == 1;
    if pa2 < pc {
      assert Swap(u, 0, 1) == [sa2, sc, sb];
      assert SiftDown(u, 0, 2) == ([sa2, sc, sb], 1);
    } else {
      assert SiftDown(u, 0, 2) == (u, 0);
    }
  }

  /**
   * The same sequence with one clock reading for all four steps (LRU within
   * one second): the read does not move `a`, and `Pop` returns `a`.
   */
  lemma EqualStampsEvictFirst<T>(a: T, b: T, c: T, t: real)
    ensures Popped(Pushed(Fix([Slot(a, t), Slot(b, t)], 0), Slot(c, t))).1 == Slot(a, t)
  {
    var sa, sb, sc := Slot(a, t), Slot(b, t), Slot(c, t);
    var h := [sa, sb];
    assert SmallerChild(h, 0, 2) == 1;
    assert SiftDown(h, 0, 2) == (h, 0);
    assert SiftUp(h, 0) == h;
    assert Fix(h, 0) == h;
    PopOfThreeEqual(sa, sb, sc);
  }
}
