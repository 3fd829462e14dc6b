# brcgo: the eviction caches and the integer station-reading path, in Dafny

This project models two sequential cores of the Go repository `brcgo` and
proves what they promise.

**The eviction caches (`src/cache`).**
- `SimpleCache` is a plain map.
- `LFUCache`, `LRUCache` and `DLFUCache` each keep a map from key to item.
  Beside it they keep an index-tracked binary min-heap of the same items.
  - `LFUCache` keys the heap by hit count.
  - `LRUCache` keys it by the Unix second of the last `Set`/`Get`.
  - `DLFUCache` keys it by a priority that grows by a multiplicatively decaying increment, and gives each entry an expiry time.
- `Rwcache` is a string map with `Merge` and `Clone`.

The heap routines of Go's `container/heap` are not part of the repository, but the caches depend on their exact behaviour. They are modelled once, as pure functions over a sequence of slots (module `ContainerHeap`):
- `up` and `down` with the strict `Less`;
- `Fix`, `Push`, `Pop`, `Remove` and `Init`.

Heap order, permutation and the least root are proved about them. The heap classes `CacheMinHeap` and `DLFUMinHeap` are then proved to do exactly what those functions say to their slots while keeping `pq[p].index == p`.

**The integer station-reading path (`src/domain`, `src/pipelines`).**
- A measurement line `name;-12.3` is parsed into an id and a temperature in tenths.
- The id is hashed with FNV-1a or with the 31-polynomial hash.
- Readings are aggregated per station (min/max/sum/count) by `ByteResult.Add` and `ByteResult2.Add`/`Merge`.
- A buffer is split into lines by `ParseBuffer`, and a stream of blocks by the leftover cut of `NaiveBytes`.
- A file is cut into newline-aligned chunks by `splitFile`.

**State and time.**
- State that Go changes in place is a Dafny `class` whose methods state the whole new state: the caches, the heaps, the result tables.
- Pure code becomes functions and lemmas.
- The wall clock becomes an explicit `now: int` parameter.
- A `time.Duration` becomes an integer added to `now`.
- A `float64` priority becomes a `real`.
- Bytes are a `byte` newtype (0..255), with Go's byte arithmetic written out modulo 256.

**Where names or comments suggest otherwise, the model follows the code:**
- `LRUCache` is a heap over whole-second time stamps, not a linked list. The `node` type in `lru_cache.go` is unused.
- DLFU `Set` does not multiply `incr` by `decay`; only `Get` does.
- With `gamma == 1` the increment stays at Go's zero value 0, not 1.
- "The heap always has the map's size" fails for LFU/LRU once a present key is set again (see Findings).

**Several source defects are modelled twice.** Each appears once as Go writes it (the `...AsWritten` members), with a lemma or a scenario (a verified sequence of calls) that exhibits the defect. It appears once more corrected, with the intended property proved; the rest of the model uses the corrected version.

## Model

| member | source | states |
|---|---|---|
| `ContainerHeap.Swap` | src/cache/cacheheap.go:18-22 | exactly the two positions are exchanged; every other slot is unchanged |
| `ContainerHeap.SmallerChild` | src/cache/cacheheap.go:14-16 | the child `down` follows is a child of `i`, below `n`, and no greater than the other child |
| `ContainerHeap.SiftUpPermutes` | src/cache/lfu_cache.go:72 | `up` only permutes the slots and leaves every position after its start alone |
| `ContainerHeap.SiftDownPermutes` | src/cache/lfu_cache.go:75 | `down` only permutes, never moves an element up, leaves positions from `n` on alone, and reports no move exactly when nothing changed |
| `ContainerHeap.DownOrUpRestores` | src/cache/lfu_cache.go:48 | after one slot changed, down-or-up restores the heap order |
| `ContainerHeap.FixKeepsHeap` | src/cache/lfu_cache.go:47-48 | `heap.Fix` after a priority change gives a heap of the same slots |
| `ContainerHeap.PushKeepsHeap` | src/cache/lfu_cache.go:72 | `heap.Push` keeps a heap a heap and adds exactly the pushed slot |
| `ContainerHeap.PopTakesMinimum` | src/cache/lfu_cache.go:74-77 | `heap.Pop` returns the root, whose priority is least of all, and leaves a heap of exactly the others |
| `ContainerHeap.RootIsMinimum` | src/cache/cacheheap.go:14-16 | with the strict `Less`, no element of a heap has a lower priority than the root |
| `ContainerHeap.RemoveKeepsHeap` | src/cache/lfu_cache.go:90-92 | `heap.Remove(h, i)` returns the element at `i` and leaves a heap of exactly the others |
| `ContainerHeap.HeapifiedIsHeap` | src/cache/dlfu_cache.go:232 | `heap.Init` turns any slice into a heap of the same elements |
| `ContainerHeap.PoppedWhileTakesLeast` | src/cache/dlfu_cache.go:151-159 | popping while the root is expired leaves a heap whose root is live; only expired items leave, none of them above any item left |
| `ContainerHeap.ReadKeyOutlivesUnread` | src/cache/cache_test.go:103-120 | with a and b pushed, a read and re-fixed above b, and c pushed no lower than b, `Pop` returns b |
| `ContainerHeap.EqualStampsEvictFirst` | src/cache/lru_cache.go:55-56 | with one clock reading for every step, the read does not move a and `Pop` returns a: Go's tie-break |
| `ContainerHeap.PopOfThreeEqual` | src/cache/dlfu_cache.go:146-148 | three equal slots pushed stay in push order; `Pop` returns the first and moves the last to the root |
| `CacheHeap.Item.constructor` | src/cache/cacheheap.go:3-8 | an item holds its key, value and priority |
| `CacheHeap.CacheMinHeap.Len` | src/cache/cacheheap.go:12 | the length of the slice |
| `CacheHeap.CacheMinHeap.Less` | src/cache/cacheheap.go:14-16 | strict `<` on the two slots' priorities |
| `CacheHeap.CacheMinHeap.Swap` | src/cache/cacheheap.go:18-22 | the two items change places and each records its new position; every item keeps `pq[p].index == p` |
| `CacheHeap.CacheMinHeap.Push` | src/cache/cacheheap.go:24-28 | the item is appended and records the old length as its position |
| `CacheHeap.CacheMinHeap.Pop` | src/cache/cacheheap.go:30-37 | the last item is removed, returned and marked `-1`; the others keep their positions |
| `CacheHeap.CacheMinHeap.Up` | src/cache/cacheheap.go:14-22 | the slots end as `up` leaves them, with every position recorded |
| `CacheHeap.CacheMinHeap.Down` | src/cache/cacheheap.go:14-22 | the slots end as `down` leaves them; the result says whether the element moved |
| `CacheHeap.CacheMinHeap.HeapPush` | src/cache/lfu_cache.go:72 | the slots become `Pushed(old, x)`, the item set gains `x`, and an ordered heap stays ordered |
| `CacheHeap.CacheMinHeap.HeapPop` | src/cache/lfu_cache.go:75 | the slots become `Popped(old)`; the root is returned, marked `-1`, and is no greater than any item left |
| `CacheHeap.CacheMinHeap.HeapRemove` | src/cache/lfu_cache.go:91 | the item at `i` is returned and marked `-1`; the slots become `Removed(old, i)`, and the order is kept |
| `CacheHeap.CacheMinHeap.HeapFix` | src/cache/lfu_cache.go:48 | the slots become `Fix(old, i)` with every position recorded |
| `CacheHeap.CacheMinHeap.HeapInit` | src/cache/lfu_cache.go:101 | the slots become `Heapified(old)` with every position recorded |
| `CacheHeap.OwnedAfterEvict` | src/cache/lfu_cache.go:74-77 | without orphans, the popped item is the stored item of its key; deleting that key leaves no orphan and one key fewer |
| `CacheHeap.OwnedAfterPush` | src/cache/lfu_cache.go:70-72 | pushing the item of an absent key leaves no orphan |
| `CacheHeap.StoredAfterEvict` | src/cache/lfu_cache.go:74-77 | popping an item and deleting its key keeps every other stored item in the heap |
| `Cache.SimpleCache.constructor` | src/cache/cache.go:35-39 | a new cache is empty |
| `Cache.SimpleCache.Size` | src/cache/cache.go:41-45 | the number of stored keys |
| `Cache.SimpleCache.Contains` | src/cache/cache.go:47-52 | true exactly when `Get` finds the key |
| `Cache.SimpleCache.Get` | src/cache/cache.go:54-59 | the stored value for a present key, `None` (Go's zero value and `false`) for an absent one |
| `Cache.SimpleCache.GetMany` | src/cache/cache.go:61-74 | the found map holds exactly the requested keys that are present, with their values; the missing list holds the others in request order |
| `Cache.SimpleCache.Set` | src/cache/cache.go:76-80 | the store maps the key to the value; nothing else changes |
| `Cache.SimpleCache.SetMany` | src/cache/cache.go:82-88 | the store is the old store overwritten by every entry of `items`, whatever the visiting order |
| `Cache.SimpleCache.Delete` | src/cache/cache.go:90-94 | the key is gone and nothing else changes; an absent key is a no-op |
| `Cache.SimpleCache.Clear` | src/cache/cache.go:96-100 | the store is empty and `Size()` is 0 |
| `Cache.SimpleCache.Keys` | src/cache/cache.go:102-110 | every stored key exactly once, `Size()` of them |
| `Cache.SimpleCache.Values` | src/cache/cache.go:112-120 | the stored values as a multiset, one per key, `Size()` of them |
| `Cache.ListKeys` | src/cache/cache.go:102-110 | the key loop shared by every cache: each key of the map exactly once |
| `Cache.ListValues` | src/cache/cache.go:112-120 | the value loop shared by every cache: one value per key, and their multiset is the map's bag of values |
| `Cache.AbsentIsMissing` | src/cache/cache.go:61-74 | a key is in the missing list exactly when it was requested and is not present |
| `Cache.FoundAndAbsentCover` | src/cache/cache.go:61-74 | every requested key is reported found or missing, never both |
| `Cache.BagOfValues` | src/cache/cache.go:112-120 | the value bag has one value per key and holds only values the map holds |
| `Cache.SetThenGet` | src/cache/cache_test.go:21-37 | after `Set(k, v)`, `Contains(k)` holds and `Get(k)` returns `v`; an unknown key is not found |
| `LfuCache.LFUCache.constructor` | src/cache/lfu_cache.go:16-22 | an empty map and heap; the invariants hold |
| `LfuCache.LFUCache.Size` | src/cache/lfu_cache.go:24-28 | the number of stored keys |
| `LfuCache.LFUCache.Contains` | src/cache/lfu_cache.go:30-36 | true exactly when the key is stored; a function, so no count changes |
| `LfuCache.LFUCache.Get` | src/cache/lfu_cache.go:38-51 | a miss changes nothing; a hit returns the value, adds one to that item's count, re-fixes the heap at its position, and leaves every other count as it was |
| `LfuCache.LFUCache.GetMany` | src/cache/lfu_cache.go:53-64 | found and missing as for the simple cache; each stored item's count grows by the number of times its key is requested, and every other heap item keeps its count; the invariants are kept |
| `LfuCache.LFUCache.SetAsWritten` | src/cache/lfu_cache.go:66-78 | a fresh item with count 1 is stored and pushed; over capacity, the least-count root is popped and its key deleted; a present key's old item stays in the heap as an orphan; for an absent key, one-to-one and the capacity bound are kept |
| `LfuCache.LFUCache.Set` | src/cache/lfu_cache.go:66-78 | the corrected `Set`: as above, but the old item leaves the heap first, so one-to-one and the capacity bound always hold |
| `LfuCache.LFUCache.SetManyAsWritten` | src/cache/lfu_cache.go:80-84 | `Set` as written per entry, in any order: each stored key holds its new value or its untouched old item; when all keys fit, every old and new key is stored |
| `LfuCache.LFUCache.SetMany` | src/cache/lfu_cache.go:80-84 | the same over the corrected `Set`, keeping one-to-one and the capacity bound |
| `LfuCache.LFUCache.Delete` | src/cache/lfu_cache.go:86-94 | the key's item leaves the heap and the key leaves the map; an absent key changes nothing |
| `LfuCache.LFUCache.Clear` | src/cache/lfu_cache.go:96-102 | map and heap are empty |
| `LfuCache.LFUCache.Keys` | src/cache/lfu_cache.go:104-112 | every stored key exactly once |
| `LfuCache.LFUCache.Values` | src/cache/lfu_cache.go:114-122 | the stored values as a multiset, one per key |
| `LfuCache.OrphanAsWritten` | src/cache/lfu_cache.go:70-72 | `Set` twice on one key: the map holds the second value while the first item stays in the heap with no key leading to it |
| `LfuCache.NoOrphan` | src/cache/lfu_cache.go:70-72 | the corrected `Set` twice on one key leaves one item, in both the map and the heap |
| `LfuCache.SecondKeyEvictsFirst` | src/cache/cache_test.go:141-150 | with room for one key, setting a second evicts the first |
| `LfuCache.ReadKeyKept` | src/cache/cache_test.go:103-120 | capacity 2: Set A, Set B, Get A, Set C keeps A and C and evicts B |
| `LruCache.LRUCache.constructor` | src/cache/lru_cache.go:24-30 | an empty map and heap; the invariants hold |
| `LruCache.LRUCache.Size` | src/cache/lru_cache.go:32-36 | the number of stored keys |
| `LruCache.LRUCache.Contains` | src/cache/lru_cache.go:38-44 | true exactly when the key is stored; no stamp changes |
| `LruCache.LRUCache.Get` | src/cache/lru_cache.go:46-59 | a miss changes nothing; a hit returns the value, stamps the item with `now`, re-fixes the heap at its position, and leaves every other stamp as it was |
| `LruCache.LRUCache.GetMany` | src/cache/lru_cache.go:61-72 | found and missing as for the simple cache; each stored item whose key is requested is stamped `now`, and every other heap item keeps its stamp; the invariants are kept |
| `LruCache.LRUCache.SetAsWritten` | src/cache/lru_cache.go:74-86 | a fresh item stamped `now` is stored and pushed; over capacity, the oldest-stamped root is popped and its key deleted; a present key's old item is orphaned |
| `LruCache.LRUCache.Set` | src/cache/lru_cache.go:74-86 | the corrected `Set`: the old item leaves the heap first; one-to-one and the capacity bound always hold |
| `LruCache.LRUCache.SetManyAsWritten` | src/cache/lru_cache.go:88-92 | `Set` as written per entry in any order, all stamped `now`: each stored key holds its new value or its untouched old item; when all keys fit, every key is stored |
| `LruCache.LRUCache.SetMany` | src/cache/lru_cache.go:88-92 | the same over the corrected `Set`, keeping one-to-one and the capacity bound |
| `LruCache.LRUCache.Delete` | src/cache/lru_cache.go:94-102 | the key's item leaves heap and map; an absent key changes nothing |
| `LruCache.LRUCache.Clear` | src/cache/lru_cache.go:104-110 | map and heap are empty |
| `LruCache.LRUCache.Keys` | src/cache/lru_cache.go:112-120 | every stored key exactly once |
| `LruCache.LRUCache.Values` | src/cache/lru_cache.go:122-130 | the stored values as a multiset, one per key |
| `LruCache.OrphanAsWritten` | src/cache/lru_cache.go:78-80 | `Set` twice on one key leaves the first item in the heap with no key leading to it |
| `LruCache.NoOrphan` | src/cache/lru_cache.go:78-80 | the corrected `Set` twice on one key leaves a single item |
| `LruCache.SecondKeyEvictsFirst` | src/cache/lru_cache.go:78-85 | with room for one key, a second key set at the same or a later second evicts the first |
| `LruCache.ReadKeyKept` | src/cache/cache_test.go:155-172 | with strictly increasing clock readings and capacity 2, Set A, Set B, Get A, Set C evicts B |
| `LruCache.SameSecondEvictsRead` | src/cache/lru_cache.go:55-85 | the same sequence within one second evicts A, the key just read, because equal stamps leave the heap as it was |
| `DlfuHeap.DLFUItem.constructor` | src/cache/dlfu_cache.go:21-27 | an item holds its key, value, priority and expiry |
| `DlfuHeap.DLFUMinHeap.Len` | src/cache/dlfu_cache.go:35 | the length of the slice |
| `DlfuHeap.DLFUMinHeap.Less` | src/cache/dlfu_cache.go:37-39 | strict `<` on the priorities |
| `DlfuHeap.DLFUMinHeap.Swap` | src/cache/dlfu_cache.go:41-45 | the two items change places and record their positions |
| `DlfuHeap.DLFUMinHeap.Push` | src/cache/dlfu_cache.go:47-51 | the item is appended and records the old length |
| `DlfuHeap.DLFUMinHeap.Pop` | src/cache/dlfu_cache.go:53-60 | the last item is removed, returned and marked `-1` |
| `DlfuHeap.DLFUMinHeap.Up` | src/cache/dlfu_cache.go:37-45 | the slots end as `up` leaves them, the same items with every position recorded |
| `DlfuHeap.DLFUMinHeap.Down` | src/cache/dlfu_cache.go:37-45 | the slots end as `down` leaves them; on an ordered slice nothing moves and no `index` is written |
| `DlfuHeap.DLFUMinHeap.HeapPush` | src/cache/dlfu_cache.go:148 | the slots become `Pushed(old, x)`, and an ordered heap stays ordered |
| `DlfuHeap.DLFUMinHeap.HeapPop` | src/cache/dlfu_cache.go:154 | the slots become `Popped(old)`; the root is returned, marked `-1`, and is no greater than any item left |
| `DlfuHeap.DLFUMinHeap.HeapRemove` | src/cache/dlfu_cache.go:179 | the item at `i` is returned; the slots become `Removed(old, i)` and stay ordered |
| `DlfuHeap.DLFUMinHeap.HeapFix` | src/cache/dlfu_cache.go:107 | the slots become `Fix(old, i)` with every position recorded |
| `DlfuHeap.DLFUMinHeap.HeapInit` | src/cache/dlfu_cache.go:189 | the slots become `Heapified(old)`; positions stay right if they were, and an ordered slice is left untouched |
| `DlfuHeap.DLFUMinHeap.Reload` | src/cache/dlfu_cache.go:232-233 | `heap.Init` over a new slice: ordered afterwards; an already ordered slice is kept as it is, `index` fields included |
| `DlfuCache.InitialIncr` | src/cache/dlfu_cache.go:76-78 | `incr * (1 - gamma) == 1` below 1, at least 1 for `0 <= gamma < 1`, and 0 (Go's zero value) at `gamma == 1` |
| `DlfuCache.Decay` | src/cache/dlfu_cache.go:80-81 | `decay * p == p + 1` for `p = capacity * gamma`, and above 1 for positive `p` |
| `DlfuCache.DLFUCache.constructor` | src/cache/dlfu_cache.go:62-84 | an empty cache with `incr` and `decay` as above |
| `DlfuCache.DLFUCache.Size` | src/cache/dlfu_cache.go:86-90 | the number of stored keys, expired ones included |
| `DlfuCache.DLFUCache.Contains` | src/cache/dlfu_cache.go:92-98 | true for every stored key, expired or not |
| `DlfuCache.DLFUCache.Get` | src/cache/dlfu_cache.go:100-116 | found exactly when the key is stored and not expired (`expiresAt < now` is expired); a hit adds the old `incr` to that item's priority and re-fixes the heap; hit or miss, `incr` is multiplied by `decay`; no entry is removed and no other priority changes |
| `DlfuCache.DLFUCache.GetMany` | src/cache/dlfu_cache.go:118-129 | found and missing against the live entries; `incr` has decayed once per requested key; each live item gains, for every position where its key is requested, the increment in effect there (`incr` decayed once per earlier key), and an expired item keeps its priority |
| `DlfuCache.DLFUCache.Set` | src/cache/dlfu_cache.go:131-166 | a present key is updated in place (value, expiry `now + expiry`, priority `incr`) and re-fixed, with nothing removed; a new key is pushed with priority `incr`, then only expired keys are popped until the root is live, then at most one least-priority item is evicted; the invariants and the capacity bound hold |
| `DlfuCache.DLFUCache.SetMany` | src/cache/dlfu_cache.go:168-172 | each stored key holds its new value and expiry or its old ones; the capacity bound is kept |
| `DlfuCache.DLFUCache.Delete` | src/cache/dlfu_cache.go:174-182 | the key's item is removed from the heap at its position and the key from the map; an absent key changes nothing |
| `DlfuCache.DLFUCache.Clear` | src/cache/dlfu_cache.go:184-190 | map and heap are empty; `incr` keeps its decayed value |
| `DlfuCache.DLFUCache.Keys` | src/cache/dlfu_cache.go:192-200 | every stored key exactly once, expired ones included |
| `DlfuCache.DLFUCache.Values` | src/cache/dlfu_cache.go:202-210 | the stored values as a multiset, expired ones included |
| `DlfuCache.DLFUCache.PopExpired` | src/cache/dlfu_cache.go:150-159 | the keys taken out are those of expired items, and the heap ends as `PoppedWhile` over the expired items |
| `DlfuCache.Unexpired` | src/cache/dlfu_cache.go:29-31 | an entry is kept exactly when its item has not expired, with the same item |
| `DlfuCache.Survivors` | src/cache/dlfu_cache.go:223-231 | the rebuilt slice holds exactly the items of the old one outside the dead set, and no more of them |
| `DlfuCache.DLFUCache.Sweep` | src/cache/dlfu_cache.go:223-231 | the rebuild loop keeps the live items in slice order and deletes exactly the expired keys |
| `DlfuCache.DLFUCache.Purge` | src/cache/dlfu_cache.go:212-231 | corrected pop and rebuild: the map keeps the unexpired entries, and each kept item records its position in the new slice |
| `DlfuCache.DLFUCache.RemoveExpiredAsWritten` | src/cache/dlfu_cache.go:212-234 | the map keeps exactly the unexpired entries and the heap is ordered over their items; an ordered rebuilt slice is left as it is, so every kept item records its old position |
| `DlfuCache.DLFUCache.RemoveExpiredItems` | src/cache/dlfu_cache.go:212-234 | corrected (positions recorded during the rebuild): the map keeps exactly the unexpired entries and the cache is valid again |
| `DlfuCache.StaleIndexAsWritten` | src/cache/dlfu_cache.go:222-233 | after three equal-priority keys and expiry of the middle one, key 2 sits at position 1 of a two-slot heap but records position 2 |
| `DlfuCache.ExpireAsWritten` | src/cache/dlfu_cache.go:212-234 | the expiry step of that scenario: key 1 is removed, and key 2 sits at position 1 but records 2 |
| `DlfuCache.StaleIndexFixed` | src/cache/dlfu_cache.go:222-233 | the corrected function in the same scenario keeps the cache valid, and `Get(2)` returns its value |
| `DlfuCache.ExpireFixed` | src/cache/dlfu_cache.go:212-234 | the corrected step of the same scenario keeps the cache valid, and then `Get(2)` finds its value |
| `DlfuCache.Eviction` | src/cache/cache_test.go:224-232 | capacity 2, gamma 0.5: three keys set leave two entries |
| `DlfuCache.FrequencyAffectsPriority` | src/cache/cache_test.go:234-248 | capacity 2, gamma 0.5: Set a, Set b, Get a twice, Set c; then a is found and b is not |
| `DlfuCache.ReadFirst` | src/cache/dlfu_cache.go:105-109 | a read adds the current increment to the read key only, then multiplies the increment by the decay |
| `DlfuCache.ReadTwice` | src/cache/cache_test.go:239-240 | two reads of a at decay 2 raise its priority to 8 and leave b at 2 |
| `DlfuCache.UnreadEvicted` | src/cache/dlfu_cache.go:161-165 | of the priorities 8, 2 and 8, the eviction takes the 2, the unread key |
| `DlfuCache.SetThirdEvicts` | src/cache/cache_test.go:241 | setting c then evicts b and keeps a |
| `DlfuCache.ReadBoth` | src/cache/cache_test.go:243-247 | afterwards a is found and b is not |
| `RwCache.Rwcache.constructor` | src/cache/rwcache.go:21-25 | an empty store |
| `RwCache.Rwcache.Get` | src/cache/rwcache.go:27-32 | the stored value, or `None` for an absent key |
| `RwCache.Rwcache.GetMany` | src/cache/rwcache.go:34-44 | exactly the requested keys that are present, with their values; nothing about missing keys |
| `RwCache.Rwcache.Set` | src/cache/rwcache.go:46-50 | the store maps the key to the value; nothing else changes |
| `RwCache.Rwcache.SetMany` | src/cache/rwcache.go:52-58 | the old store overwritten by every entry |
| `RwCache.Rwcache.Delete` | src/cache/rwcache.go:61-65 | the key is gone, nothing else changes |
| `RwCache.Rwcache.Clear` | src/cache/rwcache.go:68-72 | an empty store, `Size()` 0 |
| `RwCache.Rwcache.Size` | src/cache/rwcache.go:75-79 | the number of keys |
| `RwCache.Rwcache.Keys` | src/cache/rwcache.go:82-90 | every key exactly once |
| `RwCache.Rwcache.Values` | src/cache/rwcache.go:93-101 | the values as a multiset, one per key |
| `RwCache.Rwcache.Contains` | src/cache/rwcache.go:104-109 | agrees with `Get` |
| `RwCache.Rwcache.Merge` | src/cache/rwcache.go:112-120 | the store is the old store overwritten by `other`'s entries; `other` is unchanged |
| `RwCache.Rwcache.Clone` | src/cache/rwcache.go:123-131 | a fresh cache with an equal store |
| `RwCache.MergeThenGet` | src/cache/rwcache.go:112-120 | after a merge, a key of `o` reads `o`'s value and a key only the cache had keeps its own |
| `RwCache.CloneIsSeparate` | src/cache/rwcache.go:123-131 | writing to a clone leaves the original unchanged |
| `Bytes.IndexOf` | src/domain/bytestationreading.go:20-24 | the first position of the byte, with none before it, or the length when absent |
| `Bytes.Scan` | src/domain/bytestationreading.go:20-24 | the scan loop stops at `IndexOf` |
| `Bytes.OffsetDigit` | src/domain/bytestationreading.go:38 | `b - '0'` in byte arithmetic: the digit for `'0'..'9'`, wrapped modulo 256 below `'0'` |
| `Bytes.RawDigit` | src/domain/parser.go:49 | the raw byte code: 48 more than the digit for a digit |
| `Bytes.ReversedDigit` | src/domain/parser.go:77 | `'0' - b` modulo 256: 0 for `'0'`, `256 - d` for any other digit `d` |
| `Bytes.ReadNumber` | src/domain/bytestationreading.go:33-41 | the digit loop from the right with `fac *= 10` computes the decimal number spelled by the bytes after the cut, `.` skipped |
| `Bytes.NumberCons` | src/domain/bytestationreading.go:33-41 | a leading digit adds its value at the weight of the digits after it |
| `Bytes.DecimalBounds` | src/domain/bytestationreading.go:33-41 | decimal bytes spell a non-negative number below ten to the number of digits |
| `StationReading.NewByteStationReading` | src/domain/bytestationreading.go:8-13 | an empty id and temperature 0; the id hashes to 17 and to the FNV offset basis |
| `StationReading.Decode` | src/domain/bytestationreading.go:15-50 | the id is exactly the bytes before the first `;` |
| `StationReading.FromBytesAsWritten` | src/domain/bytestationreading.go:15-50 | the signed decimal value in tenths; the id is the bytes before the `;`, but for a negative reading it keeps the `;` |
| `StationReading.FromBytes` | src/domain/bytestationreading.go:15-50 | corrected: the reading is `Decode` of the line whatever the sign |
| `StationReading.DecodeEncode` | src/domain/bytestationreading.go:15-50 | parsing the line a reading is written as gives the reading back, for any id without `;` and any temperature |
| `StationReading.ParsePositive` | src/domain/bytestationreading.go:33-41 | `ab;12.3` gives station `ab` at 123 tenths |
| `StationReading.NegativeIdAsWritten` | src/domain/bytestationreading.go:26-31 | as written, `ab;-1.5` is filed under `ab;` at -15; corrected, under `ab` |
| `StationReading.HashCode` | src/domain/bytestationreading.go:52-59 | FNV-1a over 32 bits of the id, a non-negative `int` below 2^32 |
| `StationReading.FnvTestVectors` | src/domain/bytestationreading.go:52-59 | the standard FNV-1a 32-bit test vectors for `""` and `"a"` |
| `StationReading.Wrap64` | src/domain/bytestationreading.go:61-67 | the Go `int` value of `x`: in `[-2^63, 2^63)` and `x` itself when it fits |
| `StationReading.WrapStep` | src/domain/bytestationreading.go:61-67 | wrapping after each multiplication and addition ends where wrapping once at the end does |
| `StationReading.HashCodeSimple` | src/domain/bytestationreading.go:61-67 | the 31-polynomial of the id from 17, wrapped to 64 bits |
| `Parser.SignEnd` | src/domain/parser.go:41-47 | where the digit loop stops: just after the `;` when a `-` follows, else at it |
| `Parser.ParseStringInt` | src/domain/parser.go:32-56 | the key is the text before the first `;`; the value sums raw byte codes at decimal weights, never negative |
| `Parser.ParseBytesInt` | src/domain/parser.go:58-84 | the same key; each digit term is `'0' - b` modulo 256, and the value is never negative |
| `Parser.NonNegative` | src/domain/parser.go:41-52 | digit terms that are never negative give a non-negative value: the sign is lost |
| `Parser.RawNumberShift` | src/domain/parser.go:45-52 | on decimal text the raw-code value exceeds the decimal value by 48 in every digit position |
| `Parser.SignDropped` | src/domain/parser.go:32-84 | `a;-1` gives 49 from `ParseStringInt` and 255 from `ParseBytesInt` |
| `Stations.First` | src/domain/byteresult.go:47-54 | a first reading makes a station with min = max = sum = the temperature and count 1 |
| `Stations.Record` | src/domain/byteresult.go:55-63 | a later reading adds to the sum, widens min/max only as needed, adds one to the count, keeps the id, and keeps the station sane |
| `Stations.Combine` | src/domain/byteresult2.go:69-78 | sums and counts add, min is the min and max the max of both, and two sane stations give a sane one |
| `Stations.CombinedBounds` | src/domain/byteresult2.go:69-78 | bounds under both stations' readings bound their combined sum |
| `Stations.AbsorbKeeps` | src/domain/byteresult.go:41-65 | one `Add` keeps the table consistent (counts add up to the inputs, every station sane) with one input more, and every station under its id's hash |
| `Stations.AbsorbAllKeeps` | src/domain/byteresult.go:41-65 | built by `Add` alone, a table counts every reading and has one station per distinct hash of the ids added |
| `Stations.CollidingIdsShareStation` | src/domain/byteresult.go:42-46 | two ids with one hash share one station, which keeps the first id and counts both |
| `Stations.CountAtLeastSize` | src/domain/byteresult.go:23-33 | the inputs counted are at least the number of stations |
| `Stations.MergedKeys` | src/domain/byteresult2.go:57-80 | after merging, the keys are the union; a key of one side only keeps that side's station |
| `Stations.MergedKeeps` | src/domain/byteresult2.go:57-80 | merging two consistent tables gives a consistent table counting the inputs of both |
| `Stations.MergedKeyed` | src/domain/byteresult2.go:57-80 | merging keeps every station under its id's hash |
| `Stations.MergedTotal` | src/domain/byteresult2.go:60-79 | the readings a merged table counts are those of both tables together |
| `Stations.MergeOvercounts` | src/domain/byteresult2.go:59 | adding `r2.inputs` once per station of `r2` overshoots the count whenever `r2` has two or more stations |
| `ByteResults.ByteResult.constructor` | src/domain/byteresult.go:16-21 | no stations, no inputs |
| `ByteResults.ByteResult.NoOfStations` | src/domain/byteresult.go:23-27 | the number of stations |
| `ByteResults.ByteResult.NoOfInputs` | src/domain/byteresult.go:29-33 | in a consistent table, the sum of the counts, at least the number of stations |
| `ByteResults.ByteResult.Add` | src/domain/byteresult.go:41-65 | one input more, the reading recorded under its id's `HashCodeSimple`, and consistency kept |
| `ByteResults.ByteResult.SortedStations` | src/domain/byteresult.go:71-78 | every station once, in ascending byte order of the id |
| `ByteResults.SortById` | src/domain/byteresult.go:76-78 | sorted by id and a permutation of the input |
| `ByteResults.LexTotal` | src/domain/byteresult.go:77 | Go's string `<` orders any two different ids |
| `ByteResults.LexIrreflexive` | src/domain/byteresult.go:77 | no id is less than itself |
| `ByteResults.LexTransitive` | src/domain/byteresult.go:77 | Go's string `<` is transitive, so sorting by it is well defined |
| `ByteResults.Insert` | src/domain/byteresult.go:76-78 | one insertion step of the sort: the multiset gains the station, and sortedness is kept |
| `ByteResults.ByteResult2.constructor` | src/domain/byteresult2.go:14-19 | no stations, no inputs |
| `ByteResults.ByteResult2.NoOfStations` | src/domain/byteresult2.go:21-23 | the number of stations |
| `ByteResults.ByteResult2.NoOfInputs` | src/domain/byteresult2.go:25-27 | in a consistent table, the sum of the counts |
| `ByteResults.ByteResult2.Add` | src/domain/byteresult2.go:33-55 | as `ByteResult.Add` |
| `ByteResults.ByteResult2.MergeAsWritten` | src/domain/byteresult2.go:57-80 | the stations are merged by key, `r2` is unchanged, and the inputs grow by `r2.inputs` times the number of `r2`'s stations |
| `ByteResults.ByteResult2.Merge` | src/domain/byteresult2.go:57-80 | corrected: the same stations, the inputs grow by `r2.inputs`, and two consistent tables give a consistent one |
| `ByteResults.ByteResult2.MergeOne` | src/domain/byteresult2.go:60-79 | one key of `r2`: its station copied, or combined with the one already there |
| `Misc.Min` | src/misc/misc.go:83-88 | no greater than either argument, and one of them |
| `Misc.Max` | src/misc/misc.go:90-95 | no less than either argument, and one of them |
| `NaiveLines.Line` | src/pipelines/naive_bytes.go:97-100 | a trailing `\r` is dropped, and only that |
| `NaiveLines.TrimReturn` | src/pipelines/naive_bytes.go:96-101 | the index arithmetic cuts out exactly the line with its `\r` dropped |
| `NaiveLines.LinesSnoc` | src/pipelines/naive_bytes.go:94-107 | one byte more: a `\n` ends the open line, which is read unless it is empty |
| `NaiveLines.SegmentsJoin` | src/pipelines/naive_bytes.go:93-107 | cutting a buffer at its `\n`s and writing the lines out again gives the buffer back |
| `NaiveLines.JoinSegments` | src/pipelines/naive_bytes.go:93-107 | lines without `\n` written out are cut back into the same lines |
| `NaiveLines.TailIgnored` | src/pipelines/naive_bytes.go:94-108 | bytes after the last `\n` end no line |
| `NaiveLines.EndLine` | src/pipelines/naive_bytes.go:95-106 | a `\n` adds the line it ends as one more reading, unless it is empty once its `\r` is dropped |
| `NaiveBytes.ParseBuffer` | src/pipelines/naive_bytes.go:92-109 | the inputs grow by the number of non-empty lines the buffer's `\n`s end, and the table absorbs their readings in order |
| `NaiveBytes.EndOfLine` | src/pipelines/naive_bytes.go:95-106 | the loop body at a `\n` keeps the loop invariant with the line read |
| `NaiveLines.CutAt` | src/pipelines/naive_bytes.go:40-63 | a part ending in `\n` followed by a part without `\n` is the cut after the last `\n` |
| `NaiveLines.CutPoint` | src/pipelines/naive_bytes.go:40-47 | the cut lies within the bytes: just after the last `\n`, or at the start when there is none |
| `NaiveLines.CutUnique` | src/pipelines/naive_bytes.go:40-63 | there is only one such cut |
| `NaiveBytes.CutAtLastNewline` | src/pipelines/naive_bytes.go:37-63 | parse and leftover make up the combined bytes, the parse part ends at the last `\n`, and the leftover has no `\n` |
| `NaiveLines.Advance` | src/pipelines/naive_bytes.go:37-63 | parsing in cuts reads the same lines as reading the bytes in one go, and the leftover is the open line |
| `NaiveBytes.NaiveBytes` | src/pipelines/naive_bytes.go:31-80 | over any split of the file into blocks, the table ends with every line of the file, the last one even without a `\n` |
| `NaiveLines.Finish` | src/pipelines/naive_bytes.go:77-80 | the bytes after the last `\n`, if any, are read as one more line |
| `NaiveLines.FileLines` | src/pipelines/naive_bytes.go:77-80 | when every line of the file can be read, so can the lines the loop reads and the final leftover |
| `ParallellMmap.NextLineStart` | src/pipelines/parallell_mmap.go:78-88 | the scan stops just after the first `\n` at or after its start, or at the end of the file |
| `ParallellMmap.NextMonotone` | src/pipelines/parallell_mmap.go:76-90 | a scan from later never stops earlier |
| `ParallellMmap.ChunkStart` | src/pipelines/parallell_mmap.go:69-90 | the first start is 0, the last is the size, every start is a line start within the file, and an interior start is at or after its share `i * (size / chunks)` |
| `ParallellMmap.StartsMonotone` | src/pipelines/parallell_mmap.go:76-99 | the starts never decrease, so no piece has a negative length |
| `ParallellMmap.Piece` | src/pipelines/parallell_mmap.go:94-105 | each piece is empty, ends with `\n`, or runs to the end of the file |
| `ParallellMmap.SplitFile` | src/pipelines/parallell_mmap.go:61-108 | `chunks` pieces, each as `Piece` says; together they are the file, and their lines read one after another are the lines of the file |
| `ParallellMmap.PiecesJoin` | src/pipelines/parallell_mmap.go:92-105 | the first `k` pieces make up the file up to the start of piece `k`, with the same lines |

## Left out

- Locking: the `sync.Mutex`/`RWMutex` of every cache and of `ByteResult` is left out; every call is modelled as single-threaded.
- Goroutines: the goroutines, `WaitGroup` and semaphore of `NaiveBytes` are left out; the model runs each `ParseBuffer` as soon as its cut is made.
- I/O: `file.Read`, `mmap.Open`, `ReadAt` and their errors are left out. The file is a byte sequence, and `NaiveBytes` takes the results of `Read` as a sequence of blocks.
- `ParallellMmap` itself is left out: it does not compile (`result` is undefined, and a `*ByteResult2` is passed where `ParseBuffer` takes a `*ByteResult`). Only `splitFile` is modelled.
- Map order: Go's map iteration order is left out. `Keys` and `Values` promise contents, not order, and every `SetMany` and `Merge` loop is proved for every visiting order.
- Text output: the per-station text of `GetSortedResults` (float formatting), `String` and `PrintResults` are left out; only the sort order is modelled.
- `ParseStringFloat`, `ByteStation.String` and `averageTemperature` are left out: they are floating-point code.
- `StationName` memoisation is left out: a `ByteStation` is a plain record whose name is its id.
- `GetStations` of both result types returns the number of stations, exactly as `NoOfStations`, and is modelled by it.
- `HashKey` in `misc.go` wraps Go's `hash/fnv`, the same 32-bit FNV-1a that `StationReading.HashCode` is proved to compute.
- The random-name, random-int, timing and profiling helpers in `misc.go` are left out.
- Clock: the DLFU expiry is an integer instant `now + expiry`, not a `time.Time`.
- `DlfuCache.DLFUCache.Set` reads one `now` per call. Go reads the clock again in every `expired()` of its pop loop, so in Go a root can expire during the loop.
- `DlfuCache.DLFUCache.SetMany` passes one `now` to every `Set`. Go reads the clock afresh in each one.
- `DlfuCache.DLFUCache.GetMany` passes one `now` to every `Get`. Go's `expired()` reads the clock afresh in each one, so in Go an entry can expire partway through the batch.
- `LruCache.LRUCache.GetMany` stamps every key it finds with one `now`. Go reads the clock in each `Get`, so stamps may differ across a second boundary.
- `LruCache.LRUCache.SetManyAsWritten` stamps every entry with one `now`. Go reads the clock in each `Set`, so stamps may differ across a second boundary.
- `LruCache.LRUCache.SetMany` makes the same one-clock-reading simplification.
- `DlfuCache.DLFUCache.constructor` requires `capacity > 0 && gamma > 0.0`, while Go panics only outside `0 <= gamma <= 1`.
  - With `capacity * gamma == 0`, Go's `decay = (p + 1) / p` is `+Inf` (or NaN), which no `real` can hold.
  - With `capacity < 0`, Go's cache never keeps an entry: every `Set` of a new key that is still live pushes it, finds the map holding one key, more than `capacity`, and evicts it at once. A `Set` whose entry has already expired panics: the expiry loop pops the new item, and the eviction then pops an empty heap. The model's `Set` promises the capacity bound `|data| <= capacity` and an eviction that always has a root to pop, and neither holds for a negative capacity.
  - The Go panic for `gamma` outside `[0, 1]` is the other requires.
- `DlfuCache.DLFUCache.Get` models priorities and `incr` as exact `real`s; Go's `float64` rounds, and can overflow to `+Inf` after very many reads.
- `DlfuHeap.DLFUMinHeap.Less` compares exact `real`s rather than `float64`s.
- `LfuCache.LFUCache.Get` counts with an unbounded integer; Go's `priority++` wraps at 2^63, which takes 2^63 reads of one key.
- `Stations.Record` keeps the sum as an unbounded integer; Go's `int64` `Sum` wraps once the readings of one station add past 2^63.
- `Stations.Combine` also keeps an unbounded sum, where Go's `int64` would wrap.
- `Bytes.ReadNumber` accumulates `n` and `fac` as unbounded integers; Go's `int` wraps once a number has more than 18 digits.
- `StationReading.FromBytesAsWritten` requires `Splittable` (a `;` that is not the last byte); Go reads `bs[ix+1]` past the end and panics otherwise.
- `StationReading.FromBytes` carries the same requires, for the same reason.
- `Parser.ParseStringInt` requires `Splittable`; Go panics at `s[ix+1]` otherwise.
- `Parser.ParseBytesInt` requires `Splittable`; Go panics at `bs[ix+1]` otherwise.
- `NaiveBytes.ParseBuffer` requires every line to be `Splittable`, for the same panic. It reads lines with the corrected `FromBytes`, and so does `NaiveBytes.NaiveBytes`.
- `ParallellMmap.SplitFile` requires `chunks > 0`; Go divides by zero and panics otherwise.
- `RwCache.Rwcache.Merge` of a cache into itself: in Go it deadlocks (`Lock` and then `RLock` on one `RWMutex`). The model has no lock and leaves the store as it was.
- `ByteResults.ByteResult2.MergeAsWritten` says nothing when `r2` is the table itself. Go's loop then inserts into the map it ranges over, and the outcome is not fixed.
- `ByteResults.ByteResult2.Merge` carries the same exclusion.
- Go strings: `Rwcache` keys and values are Dafny strings. `ParseStringInt` takes the bytes of its string, which is what Go's indexing `s[i]` reads.

## Findings

| source | as written | input that shows it | evidently intended | confidence | as-written member | corrected member |
|---|---|---|---|---|---|---|
| src/cache/lfu_cache.go:70-72 | `Set` on a present key pushes a new item and leaves the old one in the heap with no key leading to it | `Set(k, v1)` then `Set(k, v2)`: the map holds one item, the heap two; the orphan can later be popped as an "eviction" that deletes the live entry of `k` | the key's old item leaves the heap (or is updated in place) so map and heap correspond one to one | not executed; high | `LfuCache.LFUCache.SetAsWritten`, `LfuCache.OrphanAsWritten` | `LfuCache.LFUCache.Set`, `LfuCache.NoOrphan` |
| src/cache/lru_cache.go:78-80 | the same orphan in `LRUCache.Set` | `Set(k, v1)` then `Set(k, v2)` | as above | not executed; high | `LruCache.LRUCache.SetAsWritten`, `LruCache.OrphanAsWritten` | `LruCache.LRUCache.Set`, `LruCache.NoOrphan` |
| src/domain/bytestationreading.go:26-31 | after a `-`, `ix` is advanced past the sign, so the id `bs[:ix]` of a negative reading keeps the `;` | `ab;-1.5` gives id `ab;`, a different station from the `ab` of `ab;1.5` | the id is the bytes before the `;` whatever the sign | not executed; high | `StationReading.FromBytesAsWritten`, `StationReading.NegativeIdAsWritten` | `StationReading.FromBytes`, `StationReading.DecodeEncode` |
| src/domain/byteresult2.go:59 | `r.inputs += r2.inputs` sits inside the loop over `r2`'s stations | `r2` with two stations and 3 inputs adds 6 inputs | `r2`'s inputs are added once, so the counts add up to the inputs | not executed; high | `ByteResults.ByteResult2.MergeAsWritten`, `Stations.MergeOvercounts` | `ByteResults.ByteResult2.Merge`, `Stations.MergedKeeps` |
| src/cache/dlfu_cache.go:222-233 | the rebuild appends live items without updating `index`, and `heap.Init` rewrites only the ones it swaps | keys 0, 1, 2 with equal priority, key 1 expired: key 2 sits at position 1 of a two-slot heap but records 2, so a later `heap.Fix(h, 2)` indexes past the end | each kept item records its position in the new slice | not executed; medium (nothing in the package calls the function) | `DlfuCache.DLFUCache.RemoveExpiredAsWritten`, `DlfuCache.StaleIndexAsWritten` | `DlfuCache.DLFUCache.RemoveExpiredItems`, `DlfuCache.StaleIndexFixed` |
