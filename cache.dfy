/**
 * The bounded key/value cache of internal/cache/cache.go.
 *
 * `items` maps each key to its item object; `evictionQ` is a binary min-heap
 * of item objects ordered by their last access time, every item remembering
 * its own heap position in `index`.  The map and the heap share the item
 * objects, so a read that refreshes an item's access time is seen by both.
 * The heap sift procedures of Go's container/heap (up, down, Push, Pop, Fix)
 * are written out here as loops over the same Swap/Less/Push/Pop primitives.
 *
 * The clock is a parameter: every operation that reads time.Now() takes the
 * current time `now` in nanoseconds instead.
 */
module Cache {

  import opened TimeHeap

  /** Capacity of a cache built without WithCapacity. */
  const DefaultCapacity: int := 1000
  /** One hour in nanoseconds: the time to live of an item set without a ttl. */
  const DefaultTTL: int := 3_600_000_000_000

  datatype Option<T> = None | Some(value: T)

  /** A functional option of New. */
  datatype CacheOption = WithCapacity(capacity: int)

  /** One cached item; `index` is its position in the eviction heap. */
  class CacheItem<V> {
    const Key: string
    const Value: V
    const Expiration: int
    var Accessed: int
    var index: int

    constructor (key: string, value: V, expiration: int, accessed: int)
      ensures Key == key && Value == value && Expiration == expiration && Accessed == accessed
      ensures index == 0
    {
      Key := key;
      Value := value;
      Expiration := expiration;
      Accessed := accessed;
      index := 0;
    }
  }

  /** Every heap entry records its own position. */
  ghost predicate Indexed<V>(q: seq<CacheItem<V>>)
    reads q`index
  {
    forall i :: 0 <= i < |q| ==> q[i].index == i
  }

  /** Every map entry is an item stored under its own key and present in the heap. */
  ghost predicate Tracked<V>(items: map<string, CacheItem<V>>, q: seq<CacheItem<V>>)
  {
    forall k :: k in items ==> items[k].Key == k && items[k] in q
  }

  /** Every heap entry is the item the map holds under its key. */
  ghost predicate AllLive<V>(items: map<string, CacheItem<V>>, q: seq<CacheItem<V>>) {
    forall i :: 0 <= i < |q| ==> q[i].Key in items && items[q[i].Key] == q[i]
  }

  /** Deleting the key of a popped entry keeps every other live item tracked. */
  lemma TrackedAfterEvict<V>(items: map<string, CacheItem<V>>, q0: seq<CacheItem<V>>,
                             q: seq<CacheItem<V>>, x: CacheItem<V>)
    requires Tracked(items, q0)
    requires forall o :: o in q <==> o in q0 && o != x
    ensures Tracked(items - {x.Key}, q)
  {
    forall k | k in items - {x.Key} ensures items[k] in q {
      assert items[k].Key == k != x.Key;
    }
  }

  /** Without stale entries, the popped entry's key is live, so the map shrinks by one. */
  lemma EvictShrinks<V>(items: map<string, CacheItem<V>>, q: seq<CacheItem<V>>, x: CacheItem<V>)
    requires AllLive(items, q) && x in q
    ensures |items - {x.Key}| == |items| - 1
  {
    var i :| 0 <= i < |q| && q[i] == x;
    assert (items - {x.Key}).Keys == items.Keys - {x.Key};
  }

  /** Deleting the key of a popped live entry keeps every remaining heap entry live. */
  lemma LiveAfterEvict<V>(items: map<string, CacheItem<V>>, q0: seq<CacheItem<V>>,
                          q: seq<CacheItem<V>>, x: CacheItem<V>)
    requires AllLive(items, q0) && x in q0
    requires forall o :: o in q <==> o in q0 && o != x
    ensures AllLive(items - {x.Key}, q)
  {
    var l :| 0 <= l < |q0| && q0[l] == x;
    forall i | 0 <= i < |q| ensures q[i].Key in items - {x.Key} && (items - {x.Key})[q[i].Key] == q[i] {
      assert q[i] in q;
      var j :| 0 <= j < |q0| && q0[j] == q[i];
    }
  }

  /** Storing a new item under a key that no heap entry has keeps every heap entry live. */
  lemma LiveAfterInsert<V>(items: map<string, CacheItem<V>>, q0: seq<CacheItem<V>>,
                           q: seq<CacheItem<V>>, key: string, item: CacheItem<V>)
    requires AllLive(items, q0) && key !in items && item.Key == key
    requires forall o :: o in q <==> o in q0 || o == item
    ensures AllLive(items[key := item], q)
  {
    forall i | 0 <= i < |q| ensures q[i].Key in items[key := item] && items[key := item][q[i].Key] == q[i] {
      assert q[i] in q;
      if q[i] != item {
        var j :| 0 <= j < |q0| && q0[j] == q[i];
      }
    }
  }

  /** Reordering the heap, with the same members, keeps every heap entry live. */
  lemma LiveAfterReorder<V>(items: map<string, CacheItem<V>>, q0: seq<CacheItem<V>>, q: seq<CacheItem<V>>)
    requires AllLive(items, q0)
    requires forall o :: o in q <==> o in q0
    ensures AllLive(items, q)
  {
    forall i | 0 <= i < |q| ensures q[i].Key in items && items[q[i].Key] == q[i] {
      assert q[i] in q;
      var j :| 0 <= j < |q0| && q0[j] == q[i];
    }
  }

  /** Swapping two slots of a sequence keeps its elements. */
  lemma SwapKeepsMultiset<T>(s: seq<T>, i: int, j: int)
    requires 0 <= i < |s| && 0 <= j < |s|
    ensures multiset(s[i := s[j]][j := s[i]]) == multiset(s)
  {
  }

  /** Sequences with the same elements, counted with multiplicity, have the same members. */
  lemma SameMembers<T>(a: seq<T>, b: seq<T>)
    requires multiset(a) == multiset(b)
    ensures forall o :: o in a <==> o in b
  {
    forall o ensures o in a <==> o in b {
      assert o in a <==> o in multiset(a);
      assert o in b <==> o in multiset(b);
    }
  }

  /** What is left of q0 after removing one x, which is not left, is the members of q0 but x. */
  lemma RemovedMembers<T>(rest: seq<T>, q0: seq<T>, x: T)
    requires multiset(rest) == multiset(q0) - multiset{x} && x !in rest
    ensures forall o :: o in rest <==> o in q0 && o != x
  {
    forall o ensures o in rest <==> o in q0 && o != x {
      assert o in rest <==> o in multiset(rest);
      assert o in q0 <==> o in multiset(q0);
    }
  }

  /** A map whose values are distinct numbers below n has at most n entries. */
  lemma {:induction false} InjectionBound(m: map<string, int>, n: nat)
    requires forall k :: k in m ==> 0 <= m[k] < n
    requires forall j, k :: j in m && k in m && m[j] == m[k] ==> j == k
    ensures |m| <= n
    decreases n
  {
    if n == 0 {
      assert m.Keys == {};
    } else {
      var rest := map k | k in m && m[k] != n - 1 :: m[k];
      InjectionBound(rest, n - 1);
      if x :| x in m && m[x] == n - 1 {
        assert m.Keys == rest.Keys + {x};
      } else {
        assert m.Keys == rest.Keys;
      }
    }
  }

  /**
   * The heap is never shorter than the map: the live items sit at distinct
   * heap positions.  So evict never pops an empty heap.
   */
  lemma LiveFitsInHeap<V>(items: map<string, CacheItem<V>>, q: seq<CacheItem<V>>)
    requires Indexed(q) && Tracked(items, q)
    ensures |items| <= |q|
  {
    var slots := map k | k in items :: items[k].index;
    forall k | k in slots ensures 0 <= slots[k] < |q| {
      var i :| 0 <= i < |q| && q[i] == items[k];
    }
    forall j, k | j in slots && k in slots && slots[j] == slots[k] ensures j == k {
      var i :| 0 <= i < |q| && q[i] == items[j];
      var i' :| 0 <= i' < |q| && q[i'] == items[k];
    }
    InjectionBound(slots, |q|);
    assert slots.Keys == items.Keys;
  }

  class CustomCache<V> {
    var items: map<string, CacheItem<V>>
    var capacity: int
    var evictionQ: seq<CacheItem<V>>
    /** The access times of the heap entries, slot by slot: proof bookkeeping only. */
    ghost var times: seq<int>

    /** times mirrors the access times of the heap entries. */
    ghost predicate Mirrored()
      reads this`evictionQ, this`times, evictionQ`Accessed
    {
      |times| == |evictionQ| && forall k :: 0 <= k < |evictionQ| ==> times[k] == evictionQ[k].Accessed
    }

    /** The invariant every operation keeps. */
    ghost predicate Valid()
      reads this`items, this`evictionQ, this`times, evictionQ`index, evictionQ`Accessed
    {
      && Indexed(evictionQ)
      && Mirrored()
      && IsHeap(times, |times|)
      && Tracked(items, evictionQ)
    }

    /**
     * Every heap entry is the live item of its key.  Set on a key already
     * present and CleanExpired break this: they leave stale heap entries.
     */
    ghost predicate NoStale()
      reads this`items, this`evictionQ
    {
      AllLive(items, evictionQ)
    }

    /**
     * New: an empty cache whose capacity is DefaultCapacity unless an option
     * sets it (the last WithCapacity wins).  heap.Init has nothing to do on
     * the empty queue.
     */
    constructor New(options: seq<CacheOption>)
      ensures Valid() && NoStale()
      ensures items == map[] && evictionQ == []
      ensures capacity == if options == [] then DefaultCapacity else options[|options| - 1].capacity
    {
      items := map[];
      capacity := DefaultCapacity;
      evictionQ := [];
      times := [];
      new;
      var i := 0;
      while i < |options|
        invariant 0 <= i <= |options|
        invariant items == map[] && evictionQ == [] && times == []
        invariant capacity == if i == 0 then DefaultCapacity else options[i - 1].capacity
      {
        capacity := options[i].capacity;
        i := i + 1;
      }
    }

    /* -------------------------------------------------------------- */
    /* priorityQueue: Less, Swap, Push, Pop                           */
    /* -------------------------------------------------------------- */

    /** Whether the entry at i was accessed strictly before the one at j. */
    function Less(i: int, j: int): (b: bool)
      reads this`evictionQ, this`times, evictionQ`Accessed
      requires 0 <= i < |evictionQ| && 0 <= j < |evictionQ|
      ensures i == j ==> !b
      ensures b ==> evictionQ[i] != evictionQ[j]
      ensures Mirrored() ==> (b <==> times[i] < times[j])
    {
      evictionQ[i].Accessed < evictionQ[j].Accessed
    }

    /** The child of slot i, among the first n slots, accessed first (the left one on a tie). */
    function EarlierChild(i: int, n: int): (j: int)
      reads this`evictionQ, this`times, evictionQ`Accessed
      requires 0 <= i && 2 * i + 1 < n <= |evictionQ|
      ensures j == 2 * i + 1 || j == 2 * i + 2
      ensures j < n && evictionQ[j].Accessed <= evictionQ[2 * i + 1].Accessed
      ensures 2 * i + 2 < n ==> evictionQ[j].Accessed <= evictionQ[2 * i + 2].Accessed
    {
      if 2 * i + 2 < n && Less(2 * i + 2, 2 * i + 1) then 2 * i + 2 else 2 * i + 1
    }

    /** Exchanges two heap entries and rewrites their positions. */
    method Swap(i: int, j: int)
      requires 0 <= i < |evictionQ| && 0 <= j < |evictionQ|
      requires Indexed(evictionQ) && Mirrored()
      modifies this`evictionQ, this`times, {evictionQ[i], evictionQ[j]}`index
      ensures |evictionQ| == old(|evictionQ|)
      ensures evictionQ[i] == old(evictionQ[j]) && evictionQ[j] == old(evictionQ[i])
      ensures forall k :: 0 <= k < |evictionQ| && k != i && k != j ==> evictionQ[k] == old(evictionQ[k])
      ensures evictionQ == old(evictionQ)[i := old(evictionQ[j])][j := old(evictionQ[i])]
      ensures times == Swapped(old(times), i, j)
      ensures multiset(evictionQ) == old(multiset(evictionQ))
      ensures Indexed(evictionQ) && Mirrored()
    {
      var a, b := evictionQ[i], evictionQ[j];
      SwapKeepsMultiset(evictionQ, i, j);
      evictionQ := evictionQ[i := b][j := a];
      times := Swapped(times, i, j);
      b.index := i;
      a.index := j;
    }

    /** Appends an item that is not in the heap, recording its position. */
    method QueuePush(item: CacheItem<V>)
      requires Indexed(evictionQ) && Mirrored() && item !in evictionQ
      modifies this`evictionQ, this`times, item`index
      ensures evictionQ == old(evictionQ) + [item]
      ensures times == old(times) + [item.Accessed]
      ensures Indexed(evictionQ) && Mirrored()
    {
      item.index := |evictionQ|;
      evictionQ := evictionQ + [item];
      times := times + [item.Accessed];
    }

    /** Removes and returns the last heap slot (its index is left as it was). */
    method QueuePop() returns (item: CacheItem<V>)
      requires |evictionQ| > 0 && Indexed(evictionQ) && Mirrored()
      modifies this`evictionQ, this`times
      ensures item == old(evictionQ[|evictionQ| - 1])
      ensures evictionQ == old(evictionQ[..|evictionQ| - 1])
      ensures times == old(times[..|times| - 1])
      ensures Indexed(evictionQ) && Mirrored()
      ensures item !in evictionQ
      ensures multiset(evictionQ) == old(multiset(evictionQ)) - multiset{item}
    {
      var n := |evictionQ| - 1;
      item := evictionQ[n];
      evictionQ := evictionQ[..n];
      times := times[..n];
      assert old(evictionQ) == evictionQ + [item];
      forall k | 0 <= k < n ensures evictionQ[k] != item {
        assert evictionQ[k].index == k;
      }
    }

    /* -------------------------------------------------------------- */
    /* container/heap: up, down, Push, Pop, Fix                        */
    /* -------------------------------------------------------------- */

    /**
     * One round of down's loop at slot i: stops (returning i) when i has no
     * child among the first n slots or none earlier than it; otherwise swaps
     * i with its earlier child and returns that child's slot.
     */
    method DownOne(i: int, n: int) returns (next: int)
      requires 0 <= i <= n <= |evictionQ| && i < |evictionQ|
      requires Indexed(evictionQ) && Mirrored()
      requires OrderedOutside(times, n, i) && Bridged(times, n, i)
      modifies this`evictionQ, this`times, evictionQ`index
      ensures Indexed(evictionQ) && Mirrored()
      ensures multiset(evictionQ) == old(multiset(evictionQ))
      ensures forall k :: 0 <= k < |evictionQ| ==> evictionQ[k] in old(evictionQ)
      ensures |evictionQ| == old(|evictionQ|)
      ensures n < |evictionQ| ==> evictionQ[n] == old(evictionQ[n])
      ensures next == i ==> evictionQ == old(evictionQ) && times == old(times) && OrderedFrom(times, n, i)
      ensures next != i ==> (next == 2 * i + 1 || next == 2 * i + 2) && next < n && OrderedInto(times, n, next)
      ensures next != i ==> evictionQ[i] == old(evictionQ[next]) && evictionQ[next] == old(evictionQ[i])
      ensures forall k :: 0 <= k < |evictionQ| && k != i && k != next ==> evictionQ[k] == old(evictionQ[k])
      ensures next != i ==> OrderedOutside(times, n, next) && Bridged(times, n, next)
    {
      var j1 := 2 * i + 1;
      // Go also stops when j1 overflows to a negative int; integers here are unbounded.
      if j1 >= n {
        DownDone(times, n, i);
        return i;
      }
      var j := EarlierChild(i, n);
      if !Less(j, i) {
        DownDone(times, n, i);
        return i;
      }
      DownStep(times, n, i, j);
      assert evictionQ[i] in old(evictionQ) && evictionQ[j] in old(evictionQ) by {
        assert evictionQ[i] in multiset(evictionQ) && evictionQ[j] in multiset(evictionQ);
      }
      Swap(i, j);
      next := j;
    }

    /**
     * up: moves the entry at j0 towards the root while it was accessed
     * before its parent.  It restores the heap when only the edge into j0 is
     * out of order and the parent of j0 is no later than its children.
     */
    method Up(j0: int)
      requires 0 <= j0 < |evictionQ| && Indexed(evictionQ) && Mirrored()
      requires OrderedOutside(times, |times|, j0) && OrderedFrom(times, |times|, j0)
      requires Bridged(times, |times|, j0)
      modifies this`evictionQ, this`times, evictionQ`index
      ensures Indexed(evictionQ) && Mirrored() && IsHeap(times, |times|)
      ensures multiset(evictionQ) == old(multiset(evictionQ))
    {
      var j := j0;
      while true
        invariant 0 <= j < |evictionQ| == old(|evictionQ|)
        invariant Indexed(evictionQ) && Mirrored()
        invariant multiset(evictionQ) == old(multiset(evictionQ))
        invariant OrderedOutside(times, |times|, j) && OrderedFrom(times, |times|, j)
        invariant Bridged(times, |times|, j)
        decreases j
      {
        var i := Parent(j);
        if i == j || !Less(j, i) {
          HeapAround(times, |times|, j);
          break;
        }
        UpStep(times, j);
        assert evictionQ[i] in old(evictionQ) && evictionQ[j] in old(evictionQ) by {
          assert evictionQ[i] in multiset(evictionQ) && evictionQ[j] in multiset(evictionQ);
        }
        Swap(i, j);
        j := i;
      }
    }

    /**
     * down: moves the entry at i0 away from the root, within the first n
     * slots, while a child was accessed before it; reports whether it moved
     * (Go's i > i0).  Given that only the edges touching i0 are out of order
     * and the parent of i0 is no later than its children, the first n slots
     * form a heap once the entry moved; when it did not move nothing changed,
     * and only the edge into i0 may still be out of order, which Fix hands to
     * up.
     */
    method Down(i0: int, n: int) returns (moved: bool)
      requires 0 <= i0 <= n <= |evictionQ| && i0 < |evictionQ|
      requires Indexed(evictionQ) && Mirrored()
      requires OrderedOutside(times, n, i0) && Bridged(times, n, i0)
      modifies this`evictionQ, this`times, evictionQ`index
      ensures Indexed(evictionQ) && Mirrored()
      ensures multiset(evictionQ) == old(multiset(evictionQ))
      ensures |evictionQ| == old(|evictionQ|)
      ensures n < |evictionQ| ==> evictionQ[n] == old(evictionQ[n])
      ensures moved <==> old(evictionQ[i0]).index > i0
      ensures moved ==> IsHeap(times, n)
      ensures !moved ==> evictionQ == old(evictionQ) && times == old(times)
      ensures !moved ==> OrderedOutside(times, n, i0) && OrderedFrom(times, n, i0) && Bridged(times, n, i0)
    {
      var i := i0;
      while true
        invariant i0 <= i <= n && i < |evictionQ| == old(|evictionQ|)
        invariant Indexed(evictionQ) && Mirrored()
        invariant multiset(evictionQ) == old(multiset(evictionQ))
        invariant forall k :: 0 <= k < |evictionQ| ==> evictionQ[k] in old(evictionQ)
        invariant n < |evictionQ| ==> evictionQ[n] == old(evictionQ[n])
        invariant evictionQ[i] == old(evictionQ[i0])
        invariant i == i0 ==> evictionQ == old(evictionQ) && times == old(times)
        invariant OrderedOutside(times, n, i) && Bridged(times, n, i)
        invariant i != i0 ==> 0 < i < n && OrderedInto(times, n, i)
        decreases n - i
      {
        var next := DownOne(i, n);
        if next == i {
          break;
        }
        i := next;
      }
      moved := i > i0;
      if moved {
        HeapAround(times, n, i);
      }
    }

    /** heap.Push: adds a new item and restores the heap. */
    method HeapPush(item: CacheItem<V>)
      requires Indexed(evictionQ) && Mirrored() && IsHeap(times, |times|) && item !in evictionQ
      modifies this`evictionQ, this`times, evictionQ`index, item`index
      ensures Indexed(evictionQ) && Mirrored() && IsHeap(times, |times|)
      ensures multiset(evictionQ) == old(multiset(evictionQ)) + multiset{item}
      ensures forall o :: o in evictionQ <==> o in old(evictionQ) || o == item
    {
      PushReady(times, item.Accessed);
      QueuePush(item);
      ghost var pushed := evictionQ;
      Up(|evictionQ| - 1);
      SameMembers(evictionQ, pushed);
    }

    /**
     * The first half of heap.Pop: swaps the root with the last slot and sifts
     * the new root down over all slots but the last.
     */
    method RootToEnd()
      requires Indexed(evictionQ) && Mirrored() && IsHeap(times, |times|) && |evictionQ| > 0
      modifies this`evictionQ, this`times, evictionQ`index
      ensures Indexed(evictionQ) && Mirrored() && |evictionQ| == old(|evictionQ|)
      ensures IsHeap(times, |times| - 1)
      ensures evictionQ[|evictionQ| - 1] == old(evictionQ[0])
      ensures multiset(evictionQ) == old(multiset(evictionQ))
    {
      var n := |evictionQ| - 1;
      PopReady(times);
      Swap(0, n);
      var moved := Down(0, n);
      if !moved {
        HeapAround(times, n, 0);
      }
    }

    /**
     * heap.Pop: removes the root, an entry with the earliest access time of
     * the whole heap, and restores the heap.
     */
    method HeapPop() returns (item: CacheItem<V>)
      requires Indexed(evictionQ) && Mirrored() && IsHeap(times, |times|) && |evictionQ| > 0
      modifies this`evictionQ, this`times, evictionQ`index
      ensures Indexed(evictionQ) && Mirrored() && IsHeap(times, |times|)
      ensures item == old(evictionQ[0])
      ensures forall o :: o in old(evictionQ) ==> item.Accessed <= o.Accessed
      ensures multiset(evictionQ) == old(multiset(evictionQ)) - multiset{item}
      ensures item !in evictionQ
    {
      forall k | 0 <= k < |evictionQ| ensures evictionQ[0].Accessed <= evictionQ[k].Accessed {
        RootIsMinimum(times, k);
      }
      RootToEnd();
      HeapPrefix(times, |times| - 1);
      item := QueuePop();
    }

    /**
     * heap.Fix: restores the heap after the access time of the entry at i
     * changed.  Before the change the heap was ordered, so the edges not
     * touching i are, and the parent of i is no later than its children.
     */
    method Fix(i: int)
      requires 0 <= i < |evictionQ| && Indexed(evictionQ) && Mirrored()
      requires OrderedOutside(times, |times|, i) && Bridged(times, |times|, i)
      modifies this`evictionQ, this`times, evictionQ`index
      ensures Indexed(evictionQ) && Mirrored() && IsHeap(times, |times|)
      ensures multiset(evictionQ) == old(multiset(evictionQ))
      ensures forall o :: o in evictionQ <==> o in old(evictionQ)
    {
      var moved := Down(i, |evictionQ|);
      if !moved {
        SameMembers(evictionQ, old(evictionQ));
        assert forall k :: 0 <= k < |evictionQ| ==> evictionQ[k] in old(evictionQ);
        Up(i);
      }
      SameMembers(evictionQ, old(evictionQ));
    }

    /* -------------------------------------------------------------- */
    /* CustomCache: evict, Set, Get, CleanExpired                      */
    /* -------------------------------------------------------------- */

    /**
     * evict: nothing when the map is empty; otherwise pops the heap entry
     * with the earliest access time and deletes that entry's key from the
     * map, whichever item the map holds under that key now (possibly none).
     */
    method Evict() returns (ghost evicted: Option<CacheItem<V>>)
      requires Valid()
      modifies this`items, this`evictionQ, this`times, evictionQ`index
      ensures Valid()
      ensures evicted.None? <==> old(|items|) == 0
      ensures evicted.None? ==> items == old(items) && evictionQ == old(evictionQ)
      ensures evicted.Some? ==> evicted.value in old(evictionQ)
      ensures evicted.Some? ==> forall o :: o in old(evictionQ) ==> evicted.value.Accessed <= o.Accessed
      ensures evicted.Some? ==> forall o :: o in evictionQ <==> o in old(evictionQ) && o != evicted.value
      ensures evicted.Some? ==> items == old(items) - {evicted.value.Key}
      ensures evicted.Some? && old(NoStale()) ==> |items| == old(|items|) - 1
      ensures old(NoStale()) ==> NoStale()
    {
      if |items| == 0 {
        return None;
      }
      var item := EvictPop();
      items := items - {item.Key};
      evicted := Some(item);
      if old(NoStale()) {
        LiveAfterEvict(old(items), old(evictionQ), evictionQ, item);
      }
    }

    /**
     * The pop of evict on a non-empty map: removes the root, which keeps
     * every live item other than those under the root's key tracked.
     */
    method EvictPop() returns (item: CacheItem<V>)
      requires Valid() && |items| > 0
      modifies this`evictionQ, this`times, evictionQ`index
      ensures Indexed(evictionQ) && Mirrored() && IsHeap(times, |times|)
      ensures Tracked(items - {item.Key}, evictionQ)
      ensures item in old(evictionQ)
      ensures forall o :: o in old(evictionQ) ==> item.Accessed <= o.Accessed
      ensures forall o :: o in evictionQ <==> o in old(evictionQ) && o != item
      ensures old(NoStale()) ==> |items - {item.Key}| == |items| - 1
    {
      LiveFitsInHeap(items, evictionQ);
      item := HeapPop();
      RemovedMembers(evictionQ, old(evictionQ), item);
      TrackedAfterEvict(items, old(evictionQ), evictionQ, item);
      if old(NoStale()) {
        EvictShrinks(items, old(evictionQ), item);
      }
    }

    /** The first step of Set: evicts one entry when the map is at capacity. */
    method MakeRoom() returns (ghost evicted: Option<CacheItem<V>>)
      requires Valid()
      modifies this`items, this`evictionQ, this`times, evictionQ`index
      ensures Valid()
      ensures evicted.Some? <==> old(|items|) >= capacity && old(|items|) > 0
      ensures evicted.Some? ==> evicted.value in old(evictionQ)
      ensures evicted.Some? ==> forall o :: o in old(evictionQ) ==> evicted.value.Accessed <= o.Accessed
      ensures evicted.Some? ==> items == old(items) - {evicted.value.Key}
      ensures evicted.Some? ==> forall o :: o in evictionQ <==> o in old(evictionQ) && o != evicted.value
      ensures evicted.None? ==> items == old(items) && evictionQ == old(evictionQ)
      ensures old(NoStale()) && 0 < capacity && old(|items|) <= capacity ==> |items| < capacity
      ensures old(NoStale()) ==> NoStale()
    {
      evicted := None;
      if |items| >= capacity {
        evicted := Evict();
      }
    }

    /**
     * Set: evicts once if the map already holds capacity entries or more,
     * then stores a new item for key, expiring ttl[0] (or one hour when no
     * ttl is given) after now and accessed now, and pushes it on the heap.
     * An item the key held before stays in the heap as a stale entry, unless
     * evict popped it.  Set on a key not in the map keeps the cache free of
     * stale entries.
     */
    method Set(key: string, value: V, ttl: seq<int>, now: int)
      returns (ghost evicted: Option<CacheItem<V>>, ghost item: CacheItem<V>)
      requires Valid()
      modifies this`items, this`evictionQ, this`times, evictionQ`index
      ensures Valid() && fresh(item)
      ensures item.Key == key && item.Value == value && item.Accessed == now
      ensures item.Expiration == now + (if |ttl| > 0 then ttl[0] else DefaultTTL)
      ensures evicted.Some? <==> old(|items|) >= capacity && old(|items|) > 0
      ensures evicted.Some? ==> evicted.value in old(evictionQ)
      ensures evicted.Some? ==> forall o :: o in old(evictionQ) ==> evicted.value.Accessed <= o.Accessed
      ensures evicted.Some? ==> items == (old(items) - {evicted.value.Key})[key := item]
      ensures evicted.Some? ==> forall o :: o in evictionQ <==> (o in old(evictionQ) && o != evicted.value) || o == item
      ensures evicted.None? ==> items == old(items)[key := item]
      ensures evicted.None? ==> forall o :: o in evictionQ <==> o in old(evictionQ) || o == item
      ensures old(NoStale()) && 0 < capacity && old(|items|) <= capacity ==> |items| <= capacity
      ensures old(NoStale()) && key !in old(items) ==> NoStale()
    {
      var duration := DefaultTTL;
      if |ttl| > 0 {
        duration := ttl[0];
      }
      var expiration := now + duration;
      evicted := MakeRoom();
      var newItem := new CacheItem(key, value, expiration, now);
      assert forall k :: 0 <= k < |evictionQ| ==> evictionQ[k] in old(evictionQ);
      Insert(key, newItem);
      item := newItem;
    }

    /**
     * The tail of Set: stores item under key and pushes it on the heap.  An
     * item the key held before leaves the map but stays in the heap.
     */
    method Insert(key: string, item: CacheItem<V>)
      requires Valid() && item.Key == key && item !in evictionQ
      modifies this`items, this`evictionQ, this`times, evictionQ`index, item`index
      ensures Valid()
      ensures items == old(items)[key := item]
      ensures |items| <= old(|items|) + 1
      ensures forall o :: o in evictionQ <==> o in old(evictionQ) || o == item
      ensures old(NoStale()) && key !in old(items) ==> NoStale()
    {
      items := items[key := item];
      HeapPush(item);
      if old(NoStale()) && key !in old(items) {
        LiveAfterInsert(old(items), old(evictionQ), evictionQ, key, item);
      }
    }

    /**
     * Get: absent when key is not in the map or now is past its expiration
     * (an item is still served at exactly its expiration).  On a hit, the
     * item's access time becomes now and the heap is fixed at its position.
     * Get never deletes anything.
     */
    method Get(key: string, now: int) returns (value: Option<V>)
      requires Valid()
      modifies this`evictionQ, this`times, evictionQ`index, items.Values`Accessed
      ensures Valid()
      ensures items == old(items)
      ensures multiset(evictionQ) == old(multiset(evictionQ))
      ensures forall o :: o in evictionQ <==> o in old(evictionQ)
      ensures value == if key in items && now <= items[key].Expiration then Some(items[key].Value) else None
      ensures value.Some? ==> items[key].Accessed == now
      ensures forall k :: k in items && (value.None? || k != key) ==> items[k].Accessed == old(items[k].Accessed)
      ensures old(NoStale()) ==> NoStale()
    {
      if key !in items || now > items[key].Expiration {
        return None;
      }
      var item := items[key];
      ghost var p :| 0 <= p < |evictionQ| && evictionQ[p] == item;
      assert item.index == p;
      FixReady(times, p, now);
      item.Accessed := now;
      times := times[p := now];
      Fix(item.index);
      value := Some(item.Value);
      if old(NoStale()) {
        LiveAfterReorder(items, old(evictionQ), evictionQ);
      }
      forall k | k in items && k != key ensures items[k] != item {
        assert items[k].Key == k;
      }
    }

    /**
     * CleanExpired: deletes every map entry whose expiration is before now
     * and keeps every other entry as it was.  The heap is not touched, so
     * the deleted items stay in it as stale entries.
     */
    method CleanExpired(now: int)
      requires Valid()
      modifies this`items
      ensures Valid()
      ensures evictionQ == old(evictionQ)
      ensures forall k :: k in items <==> k in old(items) && now <= old(items)[k].Expiration
      ensures forall k :: k in items ==> items[k] == old(items)[k]
    {
      var unvisited := items.Keys;
      while unvisited != {}
        invariant unvisited <= old(items).Keys
        invariant forall k :: k in items ==> k in old(items) && items[k] == old(items)[k]
        invariant forall k :: k in unvisited ==> k in items
        invariant forall k :: k in old(items) && k !in unvisited ==>
                    (k in items <==> now <= old(items)[k].Expiration)
        decreases unvisited
      {
        var key :| key in unvisited;
        var item := items[key];
        if now > item.Expiration {
          items := items - {key};
        }
        unvisited := unvisited - {key};
      }
    }
  }

  /** Members of q all drawn from s, slot by slot. */
  lemma AllIn<T>(q: seq<T>, s: set<T>)
    requires forall o :: o in q ==> o in s
    ensures forall k :: 0 <= k < |q| ==> q[k] in s
  {
    forall k | 0 <= k < |q| ensures q[k] in s {
      assert q[k] in q;
    }
  }

  /**
   * Set on a full cache whose heap has a single least recently used entry
   * evicts exactly that entry and deletes its key from the map, whether or
   * not that key still maps to it.
   */
  method SetEvictsOldest(c: CustomCache<int>, key: string, value: int, now: int,
                         ghost oldest: CacheItem<int>, ghost rest: set<CacheItem<int>>)
    returns (ghost item: CacheItem<int>)
    requires c.Valid() && |c.items| >= c.capacity && c.items != map[]
    requires forall o :: o in c.evictionQ <==> o == oldest || o in rest
    requires forall o :: o in rest ==> oldest.Accessed < o.Accessed
    modifies c`items, c`evictionQ, c`times, c.evictionQ`index
    ensures c.Valid() && c.capacity == old(c.capacity)
    ensures fresh(item) && item.Key == key && item.Value == value && item.Accessed == now
    ensures item.Expiration == now + DefaultTTL
    ensures c.items == (old(c.items) - {oldest.Key})[key := item]
    ensures forall o :: o in c.evictionQ <==> o in rest || o == item
  {
    ghost var evicted;
    evicted, item := c.Set(key, value, [], now);
    assert evicted.value == oldest by {
      assert evicted.value.Accessed <= oldest.Accessed;
    }
  }

  /** The one-letter keys of the runs below are distinct. */
  lemma KeyCounts()
    ensures "a" != "b" && "a" != "c" && "b" != "c" && "b" != "d" && "c" != "d"
    ensures |{"a", "b"}| == 2 && |{"b", "c"}| == 2 && |{"b", "c", "d"}| == 3
  {
    assert "a"[0] != "b"[0] && "a"[0] != "c"[0] && "b"[0] != "c"[0] && "b"[0] != "d"[0] && "c"[0] != "d"[0];
  }

  /*
   * A run that breaks the capacity: with capacity 2 and the clock at 1..5,
   * Set(a), Set(a), Set(b), Set(c), Set(d) leaves three live keys.  The
   * second Set(a) leaves a stale heap entry; Set(c) pops the oldest entry
   * for a and deletes the live item of a; Set(d) pops the stale entry,
   * whose key is already gone, so nothing leaves the map.  The run is
   * split into three steps, each stating the state it leaves.
   */

  /** Set(a), Set(a) at times 1, 2: one key, two heap entries. */
  method StaleSetTwice(c: CustomCache<int>) returns (ghost a1: CacheItem<int>, ghost a2: CacheItem<int>)
    requires c.Valid() && c.items == map[] && c.evictionQ == [] && c.capacity == 2
    modifies c`items, c`evictionQ, c`times
    ensures c.Valid() && c.capacity == 2
    ensures c.items.Keys == {"a"} && |c.items| == 1
    ensures a1.Key == "a" && a2.Key == "a" && a1.Accessed == 1 && a2.Accessed == 2
    ensures forall o :: o in c.evictionQ <==> o in {a1, a2}
    ensures fresh(a1) && fresh(a2)
  {
    ghost var e1: Option<CacheItem<int>>;
    ghost var e2: Option<CacheItem<int>>;
    e1, a1 := c.Set("a", 1, [], 1);
    AllIn(c.evictionQ, {a1});
    e2, a2 := c.Set("a", 2, [], 2);
    assert c.items.Keys == {"a"};
  }

  /** Set(a), Set(a), Set(b) at times 1, 2, 3: two keys, three heap entries. */
  method StaleSetup(c: CustomCache<int>) returns (ghost a1: CacheItem<int>, ghost a2: CacheItem<int>, ghost b3: CacheItem<int>)
    requires c.Valid() && c.items == map[] && c.evictionQ == [] && c.capacity == 2
    modifies c`items, c`evictionQ, c`times
    ensures c.Valid() && c.capacity == 2
    ensures c.items.Keys == {"a", "b"} && |c.items| == 2
    ensures a1.Key == "a" && a2.Key == "a"
    ensures a1.Accessed == 1 && a2.Accessed == 2 && b3.Accessed == 3
    ensures forall o :: o in c.evictionQ <==> o in {a1, a2, b3}
    ensures fresh(a1) && fresh(a2) && fresh(b3)
  {
    a1, a2 := StaleSetTwice(c);
    AllIn(c.evictionQ, {a1, a2});
    ghost var e3: Option<CacheItem<int>>;
    e3, b3 := c.Set("b", 3, [], 3);
    assert c.items.Keys == {"a", "b"};
    KeyCounts();
  }

  /** Set(c) at time 4 evicts the first entry for a, which is live: a leaves. */
  method StaleEvictLive(c: CustomCache<int>, ghost a1: CacheItem<int>, ghost a2: CacheItem<int>, ghost b3: CacheItem<int>)
    returns (ghost c4: CacheItem<int>)
    requires c.Valid() && c.capacity == 2 && c.items.Keys == {"a", "b"} && |c.items| == 2
    requires a1.Key == "a" && a1.Accessed == 1 && a2.Accessed == 2 && b3.Accessed == 3
    requires forall o :: o in c.evictionQ <==> o in {a1, a2, b3}
    modifies c`items, c`evictionQ, c`times, c.evictionQ`index
    ensures c.Valid() && c.capacity == 2
    ensures c.items.Keys == {"b", "c"} && |c.items| == 2
    ensures fresh(c4) && c4.Accessed == 4
    ensures forall o :: o in c.evictionQ <==> o in {a2, b3, c4}
    ensures forall k :: 0 <= k < |c.evictionQ| ==> c.evictionQ[k] in {a2, b3, c4}
  {
    c4 := SetEvictsOldest(c, "c", 4, 4, a1, {a2, b3});
    AllIn(c.evictionQ, {a2, b3, c4});
    assert c.items.Keys == {"b", "c"};
    KeyCounts();
  }

  /** Set(d) at time 5 evicts the stale entry for a: nothing leaves the map. */
  method StaleEvictStale(c: CustomCache<int>, ghost a2: CacheItem<int>, ghost b3: CacheItem<int>, ghost c4: CacheItem<int>)
    requires c.Valid() && c.capacity == 2 && c.items.Keys == {"b", "c"} && |c.items| == 2
    requires a2.Key == "a" && a2.Accessed == 2 && b3.Accessed == 3 && c4.Accessed == 4
    requires forall o :: o in c.evictionQ <==> o in {a2, b3, c4}
    modifies c`items, c`evictionQ, c`times, c.evictionQ`index
    ensures c.Valid() && c.capacity == 2
    ensures c.items.Keys == {"b", "c", "d"} && |c.items| == 3
  {
    ghost var d5 := SetEvictsOldest(c, "d", 5, 5, a2, {b3, c4});
    assert c.items.Keys == {"b", "c", "d"};
    KeyCounts();
  }

  /** The whole run: three live keys in a cache of capacity 2. */
  method StaleEntryScenario() returns (c: CustomCache<int>)
    ensures c.Valid() && c.capacity == 2
    ensures c.items.Keys == {"b", "c", "d"} && |c.items| == 3 && |c.items| > c.capacity
  {
    c := new CustomCache.New([WithCapacity(2)]);
    ghost var a1, a2, b3 := StaleSetup(c);
    AllIn(c.evictionQ, {a1, a2, b3});
    ghost var c4 := StaleEvictLive(c, a1, a2, b3);
    StaleEvictStale(c, a2, b3, c4);
  }

  /*
   * Recency order: with capacity 2, Set(a) at time 1, Set(b) at time 2, a
   * read of a at time 3 and Set(c) at time 4 evict b, not a, because the
   * read made b the least recently used key.  Each step states the state it
   * leaves.
   */

  /** Set(a), Set(b) at times 1, 2 on an empty cache of capacity 2. */
  method LruTwo(c: CustomCache<int>) returns (ghost a1: CacheItem<int>, ghost b2: CacheItem<int>)
    requires c.Valid() && c.items == map[] && c.evictionQ == [] && c.capacity == 2
    modifies c`items, c`evictionQ, c`times
    ensures c.Valid() && c.capacity == 2
    ensures c.items.Keys == {"a", "b"} && |c.items| == 2
    ensures c.items["a"] == a1 && c.items["b"] == b2
    ensures a1.Value == 1 && a1.Expiration == 1 + DefaultTTL && a1.Accessed == 1 && b2.Accessed == 2
    ensures forall o :: o in c.evictionQ <==> o in {a1, b2}
    ensures fresh(a1) && fresh(b2)
  {
    ghost var e1: Option<CacheItem<int>>;
    ghost var e2: Option<CacheItem<int>>;
    e1, a1 := c.Set("a", 1, [], 1);
    AllIn(c.evictionQ, {a1});
    e2, b2 := c.Set("b", 2, [], 2);
    KeyCounts();
    assert c.items.Keys == {"a", "b"};
  }

  /** Get(a) at time 3 is a hit and makes a the most recently used key. */
  method LruTouch(c: CustomCache<int>, ghost a1: CacheItem<int>, ghost b2: CacheItem<int>) returns (r: Option<int>)
    requires c.Valid() && c.capacity == 2 && c.items.Keys == {"a", "b"} && |c.items| == 2
    requires c.items["a"] == a1 && c.items["b"] == b2
    requires a1.Value == 1 && a1.Expiration == 1 + DefaultTTL && a1.Accessed == 1 && b2.Accessed == 2
    requires forall o :: o in c.evictionQ <==> o in {a1, b2}
    modifies c`evictionQ, c`times, c.evictionQ`index, c.items.Values`Accessed
    ensures c.Valid() && c.capacity == 2
    ensures c.items.Keys == {"a", "b"} && |c.items| == 2
    ensures c.items["a"] == a1 && c.items["b"] == b2
    ensures r == Some(1) && a1.Accessed == 3 && b2.Accessed == 2
    ensures forall o :: o in c.evictionQ <==> o in {a1, b2}
  {
    KeyCounts();
    r := c.Get("a", 3);
  }

  /** Set(c) at time 4 evicts b, now the least recently used key. */
  method LruEvict(c: CustomCache<int>, ghost a1: CacheItem<int>, ghost b2: CacheItem<int>) returns (ghost c3: CacheItem<int>)
    requires c.Valid() && c.capacity == 2 && c.items.Keys == {"a", "b"} && |c.items| == 2
    requires c.items["a"] == a1 && c.items["b"] == b2
    requires a1.Accessed == 3 && b2.Accessed == 2
    requires forall o :: o in c.evictionQ <==> o in {a1, b2}
    modifies c`items, c`evictionQ, c`times, c.evictionQ`index
    ensures c.Valid()
    ensures "b" !in c.items && "a" in c.items && c.items["a"] == a1
    ensures fresh(c3)
    ensures forall o :: o in c.evictionQ <==> o in {a1, c3}
  {
    KeyCounts();
    c3 := SetEvictsOldest(c, "c", 3, 4, b2, {a1});
  }

  /**
   * Get(gone), then Get(kept), on a cache whose heap holds exactly x and y:
   * the first misses and the second serves the value kept holds.
   */
  method ReadBoth(c: CustomCache<int>, gone: string, kept: string, now: int,
                  ghost x: CacheItem<int>, ghost y: CacheItem<int>)
    returns (rg: Option<int>, rk: Option<int>)
    requires c.Valid() && gone !in c.items && kept in c.items && now <= c.items[kept].Expiration
    requires forall o :: o in c.evictionQ <==> o in {x, y}
    modifies c`evictionQ, c`times, c.evictionQ`index, c.items.Values`Accessed
    ensures rg == None && rk == Some(old(c.items[kept].Value))
  {
    rg := c.Get(gone, now);
    AllIn(c.evictionQ, {x, y});
    assert x in old(c.evictionQ) && y in old(c.evictionQ);
    rk := c.Get(kept, now);
  }

  /** The first half of the run: Set(a), Set(b), then the read of a. */
  method LruPrepare(c: CustomCache<int>) returns (ghost a1: CacheItem<int>, ghost b2: CacheItem<int>, hit: Option<int>)
    requires c.Valid() && c.items == map[] && c.evictionQ == [] && c.capacity == 2
    modifies c`items, c`evictionQ, c`times
    ensures c.Valid() && c.capacity == 2
    ensures c.items.Keys == {"a", "b"} && |c.items| == 2
    ensures c.items["a"] == a1 && c.items["b"] == b2
    ensures a1.Value == 1 && a1.Expiration == 1 + DefaultTTL
    ensures hit == Some(1) && a1.Accessed == 3 && b2.Accessed == 2
    ensures forall o :: o in c.evictionQ <==> o in {a1, b2}
    ensures fresh(a1) && fresh(b2)
  {
    a1, b2 := LruTwo(c);
    AllIn(c.evictionQ, {a1, b2});
    assert forall o :: o in c.items.Values ==> o in c.evictionQ;
    hit := LruTouch(c, a1, b2);
  }

  /** The second half of the run: Set(c), then the reads of b and a. */
  method LruFinish(c: CustomCache<int>, ghost a1: CacheItem<int>, ghost b2: CacheItem<int>) returns (rb: Option<int>, ra: Option<int>)
    requires c.Valid() && c.capacity == 2 && c.items.Keys == {"a", "b"} && |c.items| == 2
    requires c.items["a"] == a1 && c.items["b"] == b2
    requires a1.Value == 1 && a1.Expiration == 1 + DefaultTTL && a1.Accessed == 3 && b2.Accessed == 2
    requires forall o :: o in c.evictionQ <==> o in {a1, b2}
    modifies c`items, c`evictionQ, c`times, c.evictionQ`index, c.items.Values`Accessed
    ensures rb == None && ra == Some(1)
  {
    ghost var c3 := LruEvict(c, a1, b2);
    AllIn(c.evictionQ, {a1, c3});
    assert a1 in old(c.evictionQ) && a1 == old(c.items["a"]);
    assert forall o :: o in c.items.Values ==> o in c.evictionQ;
    rb, ra := ReadBoth(c, "b", "a", 5, a1, c3);
  }

  /** The whole run: the read kept a, b is gone, and a is still served. */
  method LeastRecentlyUsedScenario() returns (c: CustomCache<int>, hit: Option<int>, rb: Option<int>, ra: Option<int>)
    ensures hit == Some(1) && rb == None && ra == Some(1)
  {
    c := new CustomCache.New([WithCapacity(2)]);
    ghost var a1, b2;
    a1, b2, hit := LruPrepare(c);
    AllIn(c.evictionQ, {a1, b2});
    assert forall o :: o in c.items.Values ==> o in c.evictionQ;
    rb, ra := LruFinish(c, a1, b2);
  }

  /*
   * The insertion-order run: with capacity 2 and no read in between, Set(a)
   * at time 1, Set(b) at time 2 and Set(c) at time 3 evict a, the first key
   * set; a read of a then misses and a read of c is served.
   */

  /** Set(c) at time 3 with no read before it evicts a. */
  method OrderEvict(c: CustomCache<int>, ghost a1: CacheItem<int>, ghost b2: CacheItem<int>) returns (ghost c3: CacheItem<int>)
    requires c.Valid() && c.capacity == 2 && c.items.Keys == {"a", "b"} && |c.items| == 2
    requires c.items["a"] == a1 && a1.Accessed == 1 && b2.Accessed == 2
    requires forall o :: o in c.evictionQ <==> o in {a1, b2}
    modifies c`items, c`evictionQ, c`times, c.evictionQ`index
    ensures c.Valid()
    ensures "a" !in c.items && "c" in c.items && c.items["c"] == c3
    ensures c3.Value == 3 && c3.Expiration == 3 + DefaultTTL
    ensures fresh(c3)
    ensures forall o :: o in c.evictionQ <==> o in {b2, c3}
  {
    KeyCounts();
    c3 := SetEvictsOldest(c, "c", 3, 3, a1, {b2});
  }

  /** The whole run: a is gone and c is served. */
  method InsertionOrderScenario() returns (c: CustomCache<int>, ra: Option<int>, rc: Option<int>)
    ensures ra == None && rc == Some(3)
  {
    c := new CustomCache.New([WithCapacity(2)]);
    ghost var a1, b2 := LruTwo(c);
    AllIn(c.evictionQ, {a1, b2});
    ghost var c3 := OrderEvict(c, a1, b2);
    AllIn(c.evictionQ, {b2, c3});
    assert forall o :: o in c.items.Values ==> o in c.evictionQ;
    ra, rc := ReadBoth(c, "a", "c", 4, b2, c3);
  }
}
