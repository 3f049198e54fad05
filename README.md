# A verified model of Scalix's cache and consistent-hash ring

This project models two data structures of the Scalix in-memory cache. Both
are modelled as sequential code, with the locks removed.

- **`CustomCache`** (internal/cache/cache.go) is a bounded map from keys to
  items, paired with a hand-written binary min-heap (`evictionQ`).
  - The heap is ordered by each item's last access time (`Accessed`).
  - Every item records its heap slot in `index`.
  - `Set` evicts the least recently used heap entry when the map is full,
    then stores and pushes a new item.
  - `Get` treats a missing or expired item as absent. On a hit it refreshes
    the item's access time and calls `heap.Fix` at the item's slot.
  - `CleanExpired` deletes expired map entries.
  - The sift procedures of Go's `container/heap` (`up`, `down`, `Push`,
    `Pop`, `Fix`) are written out over the queue's own `Less`, `Swap`,
    `Push` and `Pop`.
- **`ConsistentHash`** (internal/consistentHash/consistentHash.go) is a
  hash ring with virtual replicas.
  - `Add` hashes `node + string(i)` for each replica `i`. It appends the
    hashes to `keys`, records each hash's owner in `hashMap`, and sorts
    `keys`.
  - `Get` finds the first point at or after `hash(key)`, wrapping around to
    the first point when there is none.

The files are:

- `heap.dfy` (module `TimeHeap`): the ordering facts behind the heap. They
  are stated over the sequence of access times, slot by slot, and each
  lemma says why one sift step keeps the heap invariants.
- `cache.dfy` (module `Cache`): `CacheItem` and `CustomCache` as classes. The
  map and the heap share the item objects. `Valid()` is the invariant every
  operation keeps:
  - every heap slot's item records that slot;
  - the heap is ordered;
  - every map entry is stored under its own key and is present in the heap.
- `consistent_hash.dfy` (module `Ring`): the ring as a class.
  - The hash function is an uninterpreted parameter.
  - `Valid()` says that `keys` is the sorted list of the points of every
    node added so far.
  - It also says that `hashMap` is what recording those nodes in order
    leaves.

The model also shows a gap in the cache, described in the next section.

### Stale heap entries and the capacity bound

Nothing in the code removes a map entry's old heap entry:

- `Set` on a key that is already present pushes a second heap entry for
  that key (cache.go:88-89).
- `CleanExpired` deletes map entries but never touches the heap
  (cache.go:128).

`evict` pops the oldest heap entry and deletes that entry's key from the map
(cache.go:117-118). That key may have been overwritten since, or already
deleted.

`len(items) <= capacity` is therefore not an invariant. The model proves the
bound only when there are no stale entries (`CustomCache.NoStale`).
`StaleEntryScenario` then shows a run that breaks it. With capacity 2, the
calls `Set(a)`, `Set(a)`, `Set(b)`, `Set(c)`, `Set(d)` leave three live keys.

What always holds is that the heap is never shorter than the map
(`LiveFitsInHeap`). So `evict` never pops an empty heap.

### Behaviour a reader might not expect

- A ttl of zero or less is used as given (cache.go:69-72). Only a missing
  ttl gives the one-hour default, so `Set` with a ttl of 0 stores an item
  that is served at exactly `now` and absent afterwards.
- `Get` never deletes an expired entry (cache.go:98-100). It only reports it
  as absent. Only `CleanExpired` deletes.
- The capacity bound does not hold in general (see above).
- `Add` is not idempotent (consistentHash.go:34-41). Adding a node again
  appends its points again, and the `Add` contract counts them.

## Model

| member | source | states |
|---|---|---|
| TimeHeap.Parent | internal/cache/cache.go:89 | container/heap's parent slot `(j - 1) / 2`, with Go's truncating division: every slot but the root has a smaller parent, and is that parent's left or right child. |
| TimeHeap.RootIsMinimum | internal/cache/cache.go:112-119 | In a heap ordered by access time, the root's time is no later than that of any slot, so evict pops an entry with the least access time. |
| TimeHeap.UpStep | internal/cache/cache.go:89 | One swap of `up` with a parent that is later than the child moves the only out-of-order edge one level towards the root. |
| TimeHeap.DownStep | internal/cache/cache.go:117 | Swapping a slot with its earlier child, when that child is earlier than the slot, moves the only out-of-order edges one level down. |
| TimeHeap.DownDone | internal/cache/cache.go:117 | When `down` stops, because there is no child or no child is earlier, the edges out of the slot are ordered. |
| TimeHeap.HeapAround | internal/cache/cache.go:105 | Ordered edges around one slot, together with ordered edges everywhere else, make the whole range a heap. This is how `up`, `down` and `Fix` finish. |
| TimeHeap.PushReady | internal/cache/cache.go:89 | A heap with one time appended is ready for `up` from the new last slot. |
| TimeHeap.PopReady | internal/cache/cache.go:117 | A heap whose root was swapped with its last slot is ready for `down` from the root, over all slots but the last. |
| TimeHeap.FixReady | internal/cache/cache.go:104-105 | Changing one time in a heap leaves every other edge ordered, and the slot's parent no later than its children. This is what `Fix` needs. |
| TimeHeap.HeapPrefix | internal/cache/cache.go:117 | Dropping the last slot of a heap leaves a heap. |
| Cache.CacheItem.constructor | internal/cache/cache.go:81-86 | A new item holds the given key, value, expiration and access time. |
| Cache.LiveFitsInHeap | internal/cache/cache.go:113-118 | Under `Valid`, the map is never larger than the heap, because live items sit at distinct heap slots. So `evict` on a non-empty map never pops an empty heap. |
| Cache.TrackedAfterEvict | internal/cache/cache.go:117-118 | After the popped entry's key is deleted, every remaining map entry is still in the heap. |
| Cache.EvictShrinks | internal/cache/cache.go:117-118 | Without stale entries, the popped entry's key is live, so deleting it shrinks the map by exactly one. |
| Cache.LiveAfterEvict | internal/cache/cache.go:117-118 | When every heap entry is live, popping one and deleting its key leaves every remaining entry live. |
| Cache.LiveAfterInsert | internal/cache/cache.go:88-89 | When every heap entry is live, storing and pushing an item under a key not in the map leaves every entry live. |
| Cache.LiveAfterReorder | internal/cache/cache.go:104-105 | Reordering the heap without changing its members keeps every entry live. |
| Cache.CustomCache.New | internal/cache/cache.go:28-47 | Gives an empty, valid cache without stale entries. Its capacity is 1000 unless a `WithCapacity` option sets it, and the last option wins. |
| Cache.CustomCache.Less | internal/cache/cache.go:146 | The queue's order: an entry is never less than itself, two entries in this order are different items, and the order is the strict order on access times that the heap invariant is stated over. |
| Cache.CustomCache.EarlierChild | internal/cache/cache.go:146 | Gives a child of the slot whose access time is no later than either child's. |
| Cache.CustomCache.Swap | internal/cache/cache.go:147-150 | Exchanges two entries and leaves the rest. It keeps every slot's `index` equal to its position and keeps the heap's multiset of items. |
| Cache.CustomCache.QueuePush | internal/cache/cache.go:152-156 | Appends the item and records its position as the last slot. |
| Cache.CustomCache.QueuePop | internal/cache/cache.go:158-164 | Removes and returns the last slot and keeps the other slots. The returned item is no longer in the heap. |
| Cache.CustomCache.DownOne | internal/cache/cache.go:117 | One round of `down`. Either it stops, with the queue and its times unchanged and the slot's outgoing edges ordered. Or it swaps the slot with one of its two children, exchanging exactly those two entries, and the only disorder left touches that child. |
| Cache.CustomCache.Up | internal/cache/cache.go:89 | Restores the heap when only the edge into the given slot is out of order. Positions stay consistent and the items are kept. |
| Cache.CustomCache.Down | internal/cache/cache.go:117 | Reports whether the start slot's entry ended at a later slot, as Go's `i > i0`. If it moved, the first n slots form a heap. If not, nothing changed and only the edge into the start slot may be out of order, which `Fix` hands to `Up`. Slot n is left as it was. |
| Cache.CustomCache.HeapPush | internal/cache/cache.go:89 | `heap.Push`: the heap stays ordered and gains exactly the new item. |
| Cache.CustomCache.RootToEnd | internal/cache/cache.go:117 | The first half of `heap.Pop`: the old root ends in the last slot, and the other slots form a heap. |
| Cache.CustomCache.HeapPop | internal/cache/cache.go:117 | `heap.Pop`: returns the old root, whose access time is no later than that of any entry. The heap stays ordered and loses exactly that item. |
| Cache.CustomCache.Fix | internal/cache/cache.go:105 | `heap.Fix`: after one entry's access time changed, restores the heap and keeps the same items. |
| Cache.CustomCache.Evict | internal/cache/cache.go:112-119 | Does nothing exactly when the map is empty. Otherwise it pops an entry with the least access time and deletes that entry's key from the map. Without stale entries the map shrinks by one, and no stale entry appears. |
| Cache.CustomCache.EvictPop | internal/cache/cache.go:117 | The pop of `evict` on a non-empty map: returns a least-recently-accessed entry and removes it from the heap. The live items under other keys stay tracked. |
| Cache.CustomCache.MakeRoom | internal/cache/cache.go:77-79 | Evicts exactly when the map holds at least `capacity` entries and is not empty. Otherwise nothing changes. Without stale entries, the map then has room for one more, and it stays free of stale entries. |
| Cache.CustomCache.Set | internal/cache/cache.go:65-90 | The new item has the value, access time `now`, and expiration `now + ttl[0]` (`now` + one hour without a ttl). It evicts at most one least-recently-used entry, and only when the map is full. Other keys are unchanged. The old item under the key stays in the heap as a stale entry, unless evict popped it. Without stale entries the capacity bound is kept, and `Set` on a key not in the map leaves no stale entry, so the bound holds over any run of such calls. |
| Cache.CustomCache.Insert | internal/cache/cache.go:88-89 | Maps the key to the item and pushes it, so the heap gains exactly that item. For a key not in the map it adds no stale entry. |
| Cache.CustomCache.Get | internal/cache/cache.go:93-109 | Absent exactly when the key is missing or `now` is past its expiration, so a read at exactly the expiration is a hit. A hit returns the value and sets that item's access time to `now`, leaving every other item's time alone. The map is never changed, and no stale entry appears. |
| Cache.CustomCache.CleanExpired | internal/cache/cache.go:122-131 | Keeps exactly the entries with `now <= Expiration` and leaves them unchanged. The heap is untouched. |
| Cache.SetEvictsOldest | internal/cache/cache.go:65-90 | `Set` on a full cache evicts the single oldest heap entry and deletes its key, whichever item that key holds now. |
| Cache.StaleSetTwice | internal/cache/cache.go:88-89 | `Set(a)` twice leaves one key but two heap entries. |
| Cache.StaleSetup | internal/cache/cache.go:88-89 | `Set(a)`, `Set(a)`, `Set(b)`: two keys, three heap entries. |
| Cache.StaleEvictLive | internal/cache/cache.go:117-118 | `Set(c)` pops the first entry of a and deletes the live item of a. |
| Cache.StaleEvictStale | internal/cache/cache.go:117-118 | `Set(d)` pops the stale entry of a, whose key is gone, so the map grows to three keys. |
| Cache.StaleEntryScenario | internal/cache/cache.go:65-90 | The full run ends with three live keys in a cache of capacity 2. |
| Cache.LruTwo | internal/cache/cache.go:65-90 | `Set(a)` then `Set(b)` on an empty cache stores both, with access times 1 and 2. |
| Cache.LruTouch | internal/cache/cache.go:98-108 | A read of a is a hit and refreshes a's access time. b's is kept. |
| Cache.LruEvict | internal/cache/cache.go:77-79 | After that read, `Set(c)` evicts b, not a. |
| Cache.ReadBoth | internal/cache/cache.go:93-109 | A read of a deleted key misses, and a read of a live, unexpired key serves its value. |
| Cache.LruPrepare | internal/cache/cache.go:93-109 | `Set(a)`, `Set(b)`, then a read of a that hits. |
| Cache.LruFinish | internal/cache/cache.go:65-109 | `Set(c)` then drops b, which now misses, while a is served. |
| Cache.LeastRecentlyUsedScenario | internal/cache/cache.go:65-119 | A read makes a key recently used: after `Set(a)`, `Set(b)`, `Get(a)` and `Set(c)`, b is gone and a is still served. |
| Cache.OrderEvict | internal/cache/cache.go:77-79 | With no read in between, `Set(c)` evicts a, the first key set. |
| Cache.InsertionOrderScenario | internal/cache/cache.go:65-119 | With capacity 2, after `Set(a)`, `Set(b)`, `Set(c)`, a misses and c is served with its value. |
| Ring.RuneString | internal/consistentHash/consistentHash.go:36 | Go's `string(i)` is one to four bytes long. |
| Ring.RuneStringRoundTrip | internal/consistentHash/consistentHash.go:36 | Decoding `string(r)` gives back r for every valid code point. |
| Ring.ReplicaKey | internal/consistentHash/consistentHash.go:36 | The hashed string `node + string(i)` is the node name followed by one to four bytes, from which a valid index `i` decodes back. |
| Ring.ReplicaKeysDistinct | internal/consistentHash/consistentHash.go:36 | Two different replica indices that are valid code points give two different hashed strings `node + string(i)`. |
| Ring.NodePoints | internal/consistentHash/consistentHash.go:35-36 | A node contributes `replicas` points, or none when `replicas` is not positive. |
| Ring.PointsLength | internal/consistentHash/consistentHash.go:34-37 | `Add` creates exactly `len(nodes) * replicas` points. |
| Ring.PointsAppend | internal/consistentHash/consistentHash.go:34-37 | Adding two batches of nodes creates the points of both, in order. |
| Ring.OwnersAppend | internal/consistentHash/consistentHash.go:34-38 | Recording two batches of owners is the same as recording their concatenation. |
| Ring.OwnersKeys | internal/consistentHash/consistentHash.go:37-38 | After `Add`, a hash has an owner exactly when it had one before or is one of the new points. |
| Ring.OwnersValues | internal/consistentHash/consistentHash.go:38 | Every recorded owner is an old owner or one of the added nodes. |
| Ring.LaterNodeWins | internal/consistentHash/consistentHash.go:38 | On a collision the point belongs to the last node, in the order given to `Add`, that has it. |
| Ring.InsertSorted | internal/consistentHash/consistentHash.go:41 | Inserting into a sorted list keeps it sorted and adds exactly the one element. |
| Ring.SortInts | internal/consistentHash/consistentHash.go:41 | `sort.Ints`: the result is sorted and a permutation of the input. |
| Ring.SortedPermutationUnique | internal/consistentHash/consistentHash.go:41 | Any two sorted permutations of the same points are equal, so the sorted result does not depend on the sort used. |
| Ring.FirstAtLeast | internal/consistentHash/consistentHash.go:53 | Gives the least index whose point is at or after the hash, or the length when there is none. |
| Ring.SearchAtLeast | internal/consistentHash/consistentHash.go:53 | The binary search of `sort.Search` on sorted points returns exactly that least index. |
| Ring.OwnerIsClockwiseSuccessor | internal/consistentHash/consistentHash.go:52-59 | The chosen owner is that of the smallest point at or after the hash, or that of the smallest point overall when the hash is past every point. |
| Ring.ConsistentHash.New | internal/consistentHash/consistentHash.go:19-28 | Uses `fn`, or the CRC-32 IEEE checksum when `fn` is nil. It starts with no points and no owners. |
| Ring.ConsistentHash.Add | internal/consistentHash/consistentHash.go:30-42 | `keys` ends sorted, and it is the old keys plus the new nodes' points as a multiset. It grows by `len(nodes) * replicas`, and `hashMap` records the new owners in order. |
| Ring.ConsistentHash.AddNodes | internal/consistentHash/consistentHash.go:34-40 | The node loop appends the points of every node in order and records their owners. |
| Ring.ConsistentHash.AddReplicas | internal/consistentHash/consistentHash.go:35-39 | The replica loop appends one node's points in order and maps each of them to the node. |
| Ring.ConsistentHash.Get | internal/consistentHash/consistentHash.go:44-60 | Returns `""` on an empty ring. Otherwise it returns the owner of the first point at or after `hash(key)`, wrapping to index 0. That owner is a node passed to `Add`. `Get` changes nothing. |
| Ring.AddKeepsRing | internal/consistentHash/consistentHash.go:34-41 | The sorted points after `Add` are the points of every node added so far, `replicas` more per new node. |
| Ring.RingFacts | internal/consistentHash/consistentHash.go:37-38 | On a valid ring, every point has an owner and every owner is an added node. |

## Left out

- The clock: every `time.Now()` becomes a `now` parameter, read once per
  operation.
  - `Set` reads the clock twice, once for the expiration and once for the
    access time (cache.go:74-75).
  - `Get` reads it twice, for the expiry check and the refresh (cache.go:98,
    104).
  - `CleanExpired` reads it once per entry (cache.go:127).
- Cache.CustomCache.Set: the expiration is `now + ttl` in unbounded
  integers. Go's `int64` overflow of `time.Add` and `UnixNano` is not
  modelled.
- Locking (`sync.RWMutex`), the `startEvictionProcess` ticker goroutine and
  the unused `evictChan` are left out. Every operation is atomic.
- `Get` releases and retakes the lock between the lookup and the refresh
  (cache.go:96-103). Interleavings at that point are not modelled.
- Values are a type parameter `V`. Go's `(nil, false)` result is `None`.
- The `Len` method of the priority queue is `|evictionQ|`.
- container/heap's guard on the child index `j1 < 0`, against int
  overflow, cannot trigger with unbounded integers.
- `heap.Init` on the empty queue does nothing and is not a separate member.
- The heap keeps a ghost sequence `times`, the access times slot by slot,
  so that the ordering lemmas can be stated over plain integers.
- The key, value and expiration of an item are `const`. Go never writes
  them after construction.
- Several Go functions are split into pieces, each with its own contract:
  - `down` into `Down` and `DownOne`;
  - `heap.Pop` into `RootToEnd` and `HeapPop`;
  - `evict` into `Evict` and `EvictPop`;
  - `Set` into `MakeRoom`, `Set` and `Insert`;
  - `Add` into `Add`, `AddNodes` and `AddReplicas`.
- The CRC-32 checksum is passed to `New` as a parameter and is otherwise
  uninterpreted.
- `sort.Ints` is modelled by an insertion sort. `SortedPermutationUnique`
  shows the result is the same as any other sort's.
- Cache keys are Dafny strings (sequences of characters), while Go's keys are
  byte strings. Keys are only compared and used as map keys, so this changes
  nothing.
- Go strings in the ring are byte sequences. `string(i)` is the UTF-8
  encoding of the rune `i`, or of U+FFFD when `i` is not a valid code point.
- Ring.ReplicaKeysDistinct: stated only for indices that are valid code
  points. Every index below 0xD800 is one.
- The hash is a total function into the `uint32` range. Go's `int(uint32)`
  conversion cannot lose information on a 64-bit platform.
- The HTTP handlers, the server's `main`, the request models and the load
  test are outside this model.
