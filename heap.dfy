/**
 * The ordering facts behind the binary min-heap of Go's container/heap, as
 * used by the cache's eviction queue (internal/cache/cache.go).  A heap is
 * seen here through the sequence of its entries' access times, slot by slot;
 * slot k > 0 has parent (k - 1) / 2 and children 2k + 1 and 2k + 2.
 *
 * The sift loops in the cache module keep the invariants below; the lemmas
 * say why one step of each loop keeps them.
 */
module TimeHeap {

  /**
   * The parent of slot j, Go's (j - 1) / 2.  Go's division truncates towards
   * zero, so slot 0 is its own parent, where Dafny's Euclidean division
   * would give -1.
   */
  function Parent(j: nat): (p: nat)
    ensures j > 0 ==> p < j
    ensures j > 0 ==> j == 2 * p + 1 || j == 2 * p + 2
  {
    if j == 0 then 0 else (j - 1) / 2
  }

  /** The slots i and j exchanged. */
  function Swapped(t: seq<int>, i: int, j: int): seq<int>
    requires 0 <= i < |t| && 0 <= j < |t|
  {
    t[i := t[j]][j := t[i]]
  }

  /** The first n slots form a min-heap: no slot is earlier than its parent. */
  predicate IsHeap(t: seq<int>, n: int)
    requires n <= |t|
  {
    forall k :: 0 < k < n ==> t[Parent(k)] <= t[k]
  }

  /** Every edge of the first n slots that does not touch slot j is ordered. */
  predicate OrderedOutside(t: seq<int>, n: int, j: int)
    requires n <= |t|
  {
    forall k :: 0 < k < n && k != j && Parent(k) != j ==> t[Parent(k)] <= t[k]
  }

  /** The edge from slot j to its parent is ordered. */
  predicate OrderedInto(t: seq<int>, n: int, j: int)
    requires n <= |t|
  {
    0 < j < n ==> t[Parent(j)] <= t[j]
  }

  /** The edges from slot j to its children are ordered. */
  predicate OrderedFrom(t: seq<int>, n: int, j: int)
    requires n <= |t| && 0 <= j < |t|
  {
    forall k {:trigger Parent(k)} :: 0 < k < n && Parent(k) == j ==> t[j] <= t[k]
  }

  /** The parent of slot j is no later than the children of j. */
  predicate Bridged(t: seq<int>, n: int, j: int)
    requires n <= |t| && 0 <= j < |t|
  {
    j > 0 ==> forall k {:trigger Parent(k)} :: 0 < k < n && Parent(k) == j ==> t[Parent(j)] <= t[k]
  }

  /** The root of a min-heap holds the earliest time of all. */
  lemma {:induction false} RootIsMinimum(t: seq<int>, k: int)
    requires IsHeap(t, |t|) && 0 <= k < |t|
    ensures t[0] <= t[k]
    decreases k
  {
    if k > 0 {
      RootIsMinimum(t, Parent(k));
    }
  }

  /**
   * One step of up: when slot j is earlier than its parent i and every edge
   * except the one into j is ordered, swapping i and j leaves every edge
   * except the one into i ordered.
   */
  lemma UpStep(t: seq<int>, j: int)
    requires 0 < j < |t|
    requires OrderedOutside(t, |t|, j) && OrderedFrom(t, |t|, j) && Bridged(t, |t|, j)
    requires t[j] < t[Parent(j)]
    ensures OrderedOutside(Swapped(t, Parent(j), j), |t|, Parent(j))
    ensures OrderedFrom(Swapped(t, Parent(j), j), |t|, Parent(j))
    ensures Bridged(Swapped(t, Parent(j), j), |t|, Parent(j))
  {
    var i := Parent(j);
    var s := Swapped(t, i, j);
    forall k | 0 < k < |t| && k != i && Parent(k) != i ensures s[Parent(k)] <= s[k] {
      if Parent(k) == j {
        assert s[Parent(k)] == t[i] && s[k] == t[k];
      }
    }
    forall k | 0 < k < |t| && Parent(k) == i ensures s[i] <= s[k] {
      if k != j {
        assert t[i] <= t[k];
      }
    }
    if i > 0 {
      forall k | 0 < k < |t| && Parent(k) == i ensures s[Parent(i)] <= s[k] {
        assert t[Parent(i)] <= t[i];
        if k != j {
          assert t[i] <= t[k];
        }
      }
    }
  }

  /**
   * The edges around slot j and those outside it together make a heap: how
   * both up and down finish.
   */
  lemma HeapAround(t: seq<int>, n: int, j: int)
    requires n <= |t| && 0 <= j < |t|
    requires OrderedOutside(t, n, j) && OrderedFrom(t, n, j) && OrderedInto(t, n, j)
    ensures IsHeap(t, n)
  {
    forall k | 0 < k < n ensures t[Parent(k)] <= t[k] {
      if Parent(k) == j {
        assert t[j] <= t[k];
      }
    }
  }

  /**
   * One step of down: when the earlier child j of slot i is earlier than i,
   * and every edge not touching i is ordered, swapping i and j leaves every
   * edge not touching j ordered, and the edge into j too.
   */
  lemma DownStep(t: seq<int>, n: int, i: int, j: int)
    requires n <= |t| && 0 <= i && (j == 2 * i + 1 || j == 2 * i + 2) && j < n
    requires t[j] <= t[2 * i + 1] && (2 * i + 2 < n ==> t[j] <= t[2 * i + 2])
    requires t[j] < t[i]
    requires OrderedOutside(t, n, i) && Bridged(t, n, i)
    ensures OrderedOutside(Swapped(t, i, j), n, j)
    ensures OrderedInto(Swapped(t, i, j), n, j)
    ensures Bridged(Swapped(t, i, j), n, j)
  {
    var s := Swapped(t, i, j);
    forall k | 0 < k < n && k != j && Parent(k) != j ensures s[Parent(k)] <= s[k] {
      if k == i {
        assert s[Parent(k)] == t[Parent(i)] && s[k] == t[j];
      } else if Parent(k) == i {
        assert s[Parent(k)] == t[j] && s[k] == t[k];
      }
    }
    forall k | 0 < k < n && Parent(k) == j ensures s[Parent(j)] <= s[k] {
      assert t[j] <= t[k];
    }
  }

  /**
   * down stops at a slot without children, or with no child earlier than
   * it: the edges out of it are ordered.
   */
  lemma DownDone(t: seq<int>, n: int, i: int)
    requires n <= |t| && 0 <= i < |t|
    requires 2 * i + 1 >= n
          || (2 * i + 1 < n && t[i] <= t[2 * i + 1] && (2 * i + 2 < n ==> t[i] <= t[2 * i + 2]))
    ensures OrderedFrom(t, n, i)
  {
  }

  /** A heap with one more time appended is ready for up from the new slot. */
  lemma PushReady(t: seq<int>, x: int)
    requires IsHeap(t, |t|)
    ensures OrderedOutside(t + [x], |t| + 1, |t|)
    ensures OrderedFrom(t + [x], |t| + 1, |t|)
    ensures Bridged(t + [x], |t| + 1, |t|)
  {
    var s := t + [x];
    forall k | 0 < k < |s| && k != |t| && Parent(k) != |t| ensures s[Parent(k)] <= s[k] {
      assert s[Parent(k)] == t[Parent(k)] && s[k] == t[k];
    }
  }

  /**
   * A heap whose root was swapped with its last slot is ready for down from
   * the root over all slots but the last.
   */
  lemma PopReady(t: seq<int>)
    requires |t| > 0 && IsHeap(t, |t|)
    ensures OrderedOutside(Swapped(t, 0, |t| - 1), |t| - 1, 0)
    ensures Bridged(Swapped(t, 0, |t| - 1), |t| - 1, 0)
  {
    var n := |t| - 1;
    var s := Swapped(t, 0, n);
    forall k | 0 < k < n && k != 0 && Parent(k) != 0 ensures s[Parent(k)] <= s[k] {
      assert s[Parent(k)] == t[Parent(k)] && s[k] == t[k];
    }
  }

  /**
   * A heap one of whose times changed is ready for Fix at that slot: the
   * edges not touching it are ordered, and its parent is no later than its
   * children.
   */
  lemma FixReady(t: seq<int>, p: int, v: int)
    requires IsHeap(t, |t|) && 0 <= p < |t|
    ensures OrderedOutside(t[p := v], |t|, p)
    ensures Bridged(t[p := v], |t|, p)
  {
    var s := t[p := v];
    if p > 0 {
      forall k | 0 < k < |t| && Parent(k) == p ensures s[Parent(p)] <= s[k] {
        assert t[Parent(p)] <= t[p] <= t[k];
      }
    }
  }

  /** The first n slots of a heap over more slots are a heap. */
  lemma HeapPrefix(t: seq<int>, n: int)
    requires 0 <= n <= |t| && IsHeap(t, n)
    ensures IsHeap(t[..n], n)
  {
  }
}
