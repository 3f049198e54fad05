/**
 * The consistent-hash ring of internal/consistentHash/consistentHash.go.
 *
 * A node owns `replicas` points on a ring of 32-bit hash values; the point of
 * replica i of node n is hash(n + string(i)).  `Add` appends the points of
 * every new node to `keys`, records each point's owner in `hashMap` and sorts
 * `keys`; `Get` hashes a key and returns the owner of the first point at or
 * after that hash, wrapping around to the smallest point.
 */
module Ring {

  /** A Go byte. */
  type byte = b: int | 0 <= b < 256

  /** The range of a Go uint32. */
  type uint32 = x: int | 0 <= x < 0x1_0000_0000

  /** A Go string is a sequence of bytes (no encoding is imposed on it). */
  type GoString = seq<byte>

  /** The pluggable hash function of the ring. */
  type Hash = GoString -> uint32

  datatype Option<T> = None | Some(value: T)

  /* ------------------------------------------------------------------ */
  /* Replica labels: Go's string(i) conversion                          */
  /* ------------------------------------------------------------------ */

  /** The replacement character Go substitutes for an invalid code point. */
  const RuneError: int := 0xFFFD
  /** The largest Unicode code point. */
  const MaxRune: int := 0x10FFFF

  /** A Unicode scalar value: a code point that is not a surrogate. */
  predicate ValidRune(r: int) {
    0 <= r <= MaxRune && !(0xD800 <= r <= 0xDFFF)
  }

  /**
   * Go's conversion string(r) of an integer r: the UTF-8 encoding of the
   * rune r, or of U+FFFD when r is not a valid code point.
   */
  function RuneString(r: int): (s: GoString)
    ensures 1 <= |s| <= 4
  {
    if !ValidRune(r) then [0xEF, 0xBF, 0xBD]
    else if r < 0x80 then [r]
    else if r < 0x800 then [0xC0 + r / 64, 0x80 + r % 64]
    else if r < 0x10000 then [0xE0 + r / 4096, 0x80 + (r / 64) % 64, 0x80 + r % 64]
    else [0xF0 + r / 262144, 0x80 + (r / 4096) % 64, 0x80 + (r / 64) % 64, 0x80 + r % 64]
  }

  /** Reads back the code point of a one-rune UTF-8 sequence. */
  function DecodeRune(s: GoString): int {
    if |s| == 1 then s[0]
    else if |s| == 2 then (s[0] as int - 0xC0) * 64 + (s[1] as int - 0x80)
    else if |s| == 3 then (s[0] as int - 0xE0) * 4096 + (s[1] as int - 0x80) * 64 + (s[2] as int - 0x80)
    else if |s| == 4 then
      (s[0] as int - 0xF0) * 262144 + (s[1] as int - 0x80) * 4096 + (s[2] as int - 0x80) * 64 + (s[3] as int - 0x80)
    else -1
  }

  /** Decoding undoes string(r) on every valid code point. */
  lemma RuneStringRoundTrip(r: int)
    requires ValidRune(r)
    ensures DecodeRune(RuneString(r)) == r
  {
    if r >= 0x800 {
      SixBitDigits(r);
    }
  }

  /** Cutting six bits at a time agrees with cutting twelve or eighteen at once. */
  lemma SixBitDigits(x: nat)
    ensures x / 4096 == x / 64 / 64 && x / 262144 == x / 4096 / 64
  {
    var a, b, c := x / 64, x / 64 / 64, x / 64 / 64 / 64;
    assert x == a * 64 + x % 64;
    assert a == b * 64 + a % 64;
    assert b == c * 64 + b % 64;
  }

  /**
   * The string hashed for replica i of node: node + string(i), the node
   * name followed by one to four bytes from which a valid index reads back.
   */
  function ReplicaKey(node: GoString, i: int): (k: GoString)
    ensures |node| < |k| <= |node| + 4 && k[..|node|] == node
    ensures ValidRune(i) ==> DecodeRune(k[|node|..]) == i
  {
    var k := node + RuneString(i);
    assert k[|node|..] == RuneString(i);
    if ValidRune(i) then RuneStringRoundTrip(i); k else k
  }

  /**
   * Two replicas of one node are hashed from different strings, as long as
   * both indices are valid code points (every index below 0xD800 is).
   */
  lemma ReplicaKeysDistinct(node: GoString, i: int, j: int)
    requires ValidRune(i) && ValidRune(j) && i != j
    ensures ReplicaKey(node, i) != ReplicaKey(node, j)
  {
    var ki, kj := ReplicaKey(node, i), ReplicaKey(node, j);
    assert DecodeRune(ki[|node|..]) != DecodeRune(kj[|node|..]);
  }

  /* ------------------------------------------------------------------ */
  /* The points Add creates and the owners it records                   */
  /* ------------------------------------------------------------------ */

  /** How many times the replica loop of Add runs per node. */
  function ReplicaCount(replicas: int): nat {
    if replicas < 0 then 0 else replicas
  }

  /** The points of one node, in the order Add appends them. */
  function NodePoints(hash: Hash, replicas: int, node: GoString): (p: seq<int>)
    ensures |p| == ReplicaCount(replicas)
  {
    seq(ReplicaCount(replicas), i => hash(ReplicaKey(node, i)))
  }

  /** The points of a list of nodes, in the order Add appends them. */
  function Points(hash: Hash, replicas: int, nodes: seq<GoString>): seq<int>
    decreases |nodes|
  {
    if nodes == [] then []
    else Points(hash, replicas, nodes[..|nodes| - 1]) + NodePoints(hash, replicas, nodes[|nodes| - 1])
  }

  /**
   * The owner map after recording the points of `nodes` in order on top of
   * m: each point is mapped to its node, a later node overwriting an earlier
   * one on a collision.
   */
  function Owners(m: map<int, GoString>, hash: Hash, replicas: int, nodes: seq<GoString>): map<int, GoString>
    decreases |nodes|
  {
    if nodes == [] then m
    else
      var last := nodes[|nodes| - 1];
      Assign(Owners(m, hash, replicas, nodes[..|nodes| - 1]), NodePoints(hash, replicas, last), last)
  }

  /** m with the points ps mapped to node one after the other. */
  function Assign(m: map<int, GoString>, ps: seq<int>, node: GoString): map<int, GoString>
    decreases |ps|
  {
    if ps == [] then m else Assign(m, ps[..|ps| - 1], node)[ps[|ps| - 1] := node]
  }

  /** Recording one more point, as the replica loop does. */
  lemma AssignSnoc(m: map<int, GoString>, ps: seq<int>, h: int, node: GoString)
    ensures Assign(m, ps + [h], node) == Assign(m, ps, node)[h := node]
  {
    assert (ps + [h])[..|ps|] == ps;
  }

  /** After Assign, the points of ps belong to node and the rest is m. */
  lemma {:induction false} AssignAt(m: map<int, GoString>, ps: seq<int>, node: GoString, h: int)
    ensures h in Assign(m, ps, node) <==> h in m || h in ps
    ensures h in ps ==> Assign(m, ps, node)[h] == node
    ensures h !in ps && h in m ==> Assign(m, ps, node)[h] == m[h]
    decreases |ps|
  {
    if ps != [] {
      var init := ps[..|ps| - 1];
      AssignAt(m, init, node, h);
      assert ps == init + [ps[|ps| - 1]];
    }
  }

  /** Growing a prefix by one element. */
  lemma PrefixSnoc<T>(s: seq<T>, n: nat)
    requires n < |s|
    ensures s[..n + 1] == s[..n] + [s[n]]
  {
  }

  /** One round of the replica loop extends the points and the owners by point i. */
  lemma ReplicaStep(keys0: seq<int>, m0: map<int, GoString>, points: seq<int>, i: nat, node: GoString)
    requires i < |points|
    ensures keys0 + points[..i] + [points[i]] == keys0 + points[..i + 1]
    ensures Assign(m0, points[..i], node)[points[i] := node] == Assign(m0, points[..i + 1], node)
  {
    PrefixSnoc(points, i);
    AssignSnoc(m0, points[..i], points[i], node);
  }

  /** Adding one more node adds its points and records its owners. */
  lemma OneNode(m: map<int, GoString>, hash: Hash, replicas: int, nodes: seq<GoString>, node: GoString)
    ensures Points(hash, replicas, nodes + [node]) == Points(hash, replicas, nodes) + NodePoints(hash, replicas, node)
    ensures Owners(m, hash, replicas, nodes + [node]) == Assign(Owners(m, hash, replicas, nodes), NodePoints(hash, replicas, node), node)
  {
    assert (nodes + [node])[..|nodes|] == nodes;
  }

  /** Every node contributes exactly ReplicaCount(replicas) points. */
  lemma {:induction false} PointsLength(hash: Hash, replicas: int, nodes: seq<GoString>)
    ensures |Points(hash, replicas, nodes)| == |nodes| * ReplicaCount(replicas)
    decreases |nodes|
  {
    if nodes != [] {
      var n := |nodes|;
      PointsLength(hash, replicas, nodes[..n - 1]);
      assert |Points(hash, replicas, nodes)|
          == (n - 1) * ReplicaCount(replicas) + ReplicaCount(replicas);
      assert (n - 1) * ReplicaCount(replicas) + ReplicaCount(replicas) == n * ReplicaCount(replicas);
    }
  }

  /** Adding two batches of nodes creates the points of both, in order. */
  lemma {:induction false} PointsAppend(hash: Hash, replicas: int, a: seq<GoString>, b: seq<GoString>)
    ensures Points(hash, replicas, a + b) == Points(hash, replicas, a) + Points(hash, replicas, b)
    decreases |b|
  {
    if b != [] {
      var n := |b|;
      assert (a + b)[..|a + b| - 1] == a + b[..n - 1];
      assert (a + b)[|a + b| - 1] == b[n - 1];
      PointsAppend(hash, replicas, a, b[..n - 1]);
    } else {
      assert a + b == a;
    }
  }

  /** Recording two batches of owners is recording the concatenation. */
  lemma {:induction false} OwnersAppend(m: map<int, GoString>, hash: Hash, replicas: int, a: seq<GoString>, b: seq<GoString>)
    ensures Owners(m, hash, replicas, a + b) == Owners(Owners(m, hash, replicas, a), hash, replicas, b)
    decreases |b|
  {
    if b != [] {
      var n := |b|;
      assert (a + b)[..|a + b| - 1] == a + b[..n - 1];
      assert (a + b)[|a + b| - 1] == b[n - 1];
      OwnersAppend(m, hash, replicas, a, b[..n - 1]);
    } else {
      assert a + b == a;
    }
  }

  /** The owner map covers exactly the old keys and the new points. */
  lemma {:induction false} OwnersKeys(m: map<int, GoString>, hash: Hash, replicas: int, nodes: seq<GoString>, h: int)
    ensures h in Owners(m, hash, replicas, nodes) <==> h in m || h in Points(hash, replicas, nodes)
    decreases |nodes|
  {
    if nodes != [] {
      var n := |nodes|;
      var init, last := nodes[..n - 1], nodes[n - 1];
      OwnersKeys(m, hash, replicas, init, h);
      AssignAt(Owners(m, hash, replicas, init), NodePoints(hash, replicas, last), last, h);
      assert Points(hash, replicas, nodes) == Points(hash, replicas, init) + NodePoints(hash, replicas, last);
    }
  }

  /** Every recorded owner is an old owner or one of the new nodes. */
  lemma {:induction false} OwnersValues(m: map<int, GoString>, hash: Hash, replicas: int, nodes: seq<GoString>, h: int)
    requires h in Owners(m, hash, replicas, nodes)
    ensures Owners(m, hash, replicas, nodes)[h] in m.Values || Owners(m, hash, replicas, nodes)[h] in nodes
    decreases |nodes|
  {
    if nodes != [] {
      var n := |nodes|;
      var init, last := nodes[..n - 1], nodes[n - 1];
      var before := Owners(m, hash, replicas, init);
      AssignAt(before, NodePoints(hash, replicas, last), last, h);
      if h !in NodePoints(hash, replicas, last) {
        OwnersValues(m, hash, replicas, init, h);
        var o := before[h];
        if o in init {
          var k :| 0 <= k < |init| && init[k] == o;
          assert nodes[k] == o;
        }
      }
    }
  }

  /**
   * On a collision the node processed later wins: a point is owned by the
   * last node, in the order given to Add, that has that point.
   */
  lemma {:induction false} LaterNodeWins(m: map<int, GoString>, hash: Hash, replicas: int, nodes: seq<GoString>, j: nat, h: int)
    requires j < |nodes| && h in NodePoints(hash, replicas, nodes[j])
    requires forall k :: j < k < |nodes| ==> h !in NodePoints(hash, replicas, nodes[k])
    ensures h in Owners(m, hash, replicas, nodes) && Owners(m, hash, replicas, nodes)[h] == nodes[j]
    decreases |nodes|
  {
    var n := |nodes|;
    var init, last := nodes[..n - 1], nodes[n - 1];
    var before := Owners(m, hash, replicas, init);
    AssignAt(before, NodePoints(hash, replicas, last), last, h);
    if j < n - 1 {
      assert h !in NodePoints(hash, replicas, last);
      assert init[j] == nodes[j];
      forall k | j < k < |init| ensures h !in NodePoints(hash, replicas, init[k]) {
        assert init[k] == nodes[k];
      }
      LaterNodeWins(m, hash, replicas, init, j, h);
    }
  }

  /* ------------------------------------------------------------------ */
  /* Sorting and searching the points                                   */
  /* ------------------------------------------------------------------ */

  predicate IsSorted(s: seq<int>) {
    forall i, j :: 0 <= i < j < |s| ==> s[i] <= s[j]
  }

  /** Inserts x into a sorted sequence before the first element not below it. */
  function Insert(x: int, s: seq<int>): seq<int>
  {
    if s == [] || x <= s[0] then [x] + s else [s[0]] + Insert(x, s[1..])
  }

  /** Insert keeps a sorted sequence sorted and adds exactly x to it. */
  lemma {:induction false} InsertSorted(x: int, s: seq<int>)
    requires IsSorted(s)
    ensures IsSorted(Insert(x, s))
    ensures multiset(Insert(x, s)) == multiset(s) + multiset{x}
  {
    if s == [] || x <= s[0] {
      assert Insert(x, s) == [x] + s;
      SortedCons(x, s);
    } else {
      var rest := Insert(x, s[1..]);
      assert Insert(x, s) == [s[0]] + rest;
      InsertSorted(x, s[1..]);
      assert s == [s[0]] + s[1..];
      assert rest[0] == x || rest[0] == s[1];
      SortedCons(s[0], rest);
    }
  }
  lemma SortedCons(x: int, s: seq<int>)
    requires IsSorted(s) && (|s| > 0 ==> x <= s[0])
    ensures IsSorted([x] + s)
  {
    forall i, j | 0 <= i < j < |s| + 1 ensures ([x] + s)[i] <= ([x] + s)[j] {
      if i > 0 {
        assert ([x] + s)[i] == s[i - 1] && ([x] + s)[j] == s[j - 1];
      } else {
        assert ([x] + s)[j] == s[j - 1] && s[0] <= s[j - 1];
      }
    }
  }

  /** Go's sort.Ints: the points in ascending order. */
  method SortInts(s: seq<int>) returns (r: seq<int>)
    ensures IsSorted(r)
    ensures multiset(r) == multiset(s)
  {
    r := [];
    var i := 0;
    while i < |s|
      invariant 0 <= i <= |s|
      invariant IsSorted(r)
      invariant multiset(r) == multiset(s[..i])
    {
      assert s[..i + 1] == s[..i] + [s[i]];
      InsertSorted(s[i], r);
      r := Insert(s[i], r);
      i := i + 1;
    }
    assert s[..i] == s;
  }

  /** The head of a sorted sequence is its least element. */
  lemma SortedHeadIsLeast(s: seq<int>, x: int)
    requires IsSorted(s) && x in multiset(s)
    ensures s != [] && s[0] <= x
  {
    var i :| 0 <= i < |s| && s[i] == x;
  }

  /** A sorted arrangement of a multiset of points is unique. */
  lemma {:induction false} SortedPermutationUnique(a: seq<int>, b: seq<int>)
    requires IsSorted(a) && IsSorted(b) && multiset(a) == multiset(b)
    ensures a == b
    decreases |a|
  {
    if a == [] {
      assert |b| == |multiset(b)| == 0;
    } else {
      assert a[0] in multiset(a);
      SortedHeadIsLeast(b, a[0]);
      assert b[0] in multiset(b);
      SortedHeadIsLeast(a, b[0]);
      assert a[0] == b[0];
      assert a == [a[0]] + a[1..];
      assert b == [b[0]] + b[1..];
      assert multiset(a[1..]) == multiset(a) - multiset{a[0]};
      assert multiset(b[1..]) == multiset(b) - multiset{b[0]};
      SortedPermutationUnique(a[1..], b[1..]);
    }
  }

  /** The least index whose point is at or after h, or |keys| if none is. */
  function FirstAtLeast(keys: seq<int>, h: int): (i: nat)
    ensures i <= |keys|
    ensures forall k :: 0 <= k < i ==> keys[k] < h
    ensures i < |keys| ==> keys[i] >= h
  {
    if keys == [] then 0
    else if keys[0] >= h then 0
    else 1 + FirstAtLeast(keys[1..], h)
  }

  /**
   * Go's sort.Search(len(keys), func(i) { keys[i] >= h }), the binary search
   * for the first point at or after h.
   */
  method SearchAtLeast(keys: seq<int>, h: int) returns (idx: nat)
    requires IsSorted(keys)
    ensures idx == FirstAtLeast(keys, h)
  {
    var i, j := 0, |keys|;
    while i < j
      invariant 0 <= i <= j <= |keys|
      invariant forall k :: 0 <= k < i ==> keys[k] < h
      invariant forall k :: j <= k < |keys| ==> keys[k] >= h
    {
      var mid := (i + j) / 2;
      if keys[mid] < h {
        i := mid + 1;
      } else {
        j := mid;
      }
    }
    idx := i;
    ghost var f := FirstAtLeast(keys, h);
    assert f < |keys| ==> keys[f] >= h;
    assert idx < |keys| ==> keys[idx] >= h;
  }

  /**
   * The node a key with hash h maps to: the owner of the first point at or
   * after h, or of the first point when h is past every point; "" on an
   * empty ring.
   */
  function RingOwner(keys: seq<int>, hashMap: map<int, GoString>, h: int): GoString
    requires forall k :: 0 <= k < |keys| ==> keys[k] in hashMap
  {
    if keys == [] then []
    else
      var idx := FirstAtLeast(keys, h);
      hashMap[keys[if idx == |keys| then 0 else idx]]
  }

  /**
   * An index-free reading of the lookup: the owner is that of the smallest
   * point at or after h or, when every point lies before h, of the smallest
   * point of all.
   */
  lemma OwnerIsClockwiseSuccessor(keys: seq<int>, hashMap: map<int, GoString>, h: int, p: int)
    requires IsSorted(keys)
    requires forall k :: 0 <= k < |keys| ==> keys[k] in hashMap
    requires p in keys
    requires (p >= h && forall x :: x in keys && x >= h ==> p <= x)
          || ((forall x :: x in keys ==> x < h) && forall x :: x in keys ==> p <= x)
    ensures RingOwner(keys, hashMap, h) == hashMap[p]
  {
    var idx := FirstAtLeast(keys, h);
    var pi :| 0 <= pi < |keys| && keys[pi] == p;
    if idx < |keys| {
      assert keys[idx] in keys;
      assert idx <= pi;
    } else {
      assert keys[0] in keys;
    }
  }

  /* ------------------------------------------------------------------ */
  /* The ring object                                                    */
  /* ------------------------------------------------------------------ */

  class ConsistentHash {
    const hash: Hash
    const replicas: int
    /** The ring points, kept sorted. */
    var keys: seq<int>
    /** The owner of every point. */
    var hashMap: map<int, GoString>
    /** Every node passed to Add so far, in order (possibly repeated). */
    ghost var nodes: seq<GoString>

    /**
     * The points are the sorted points of every added node, and the owner
     * map is what recording those nodes in order leaves.
     */
    ghost predicate Valid()
      reads this
    {
      && IsSorted(keys)
      && multiset(keys) == multiset(Points(hash, replicas, nodes))
      && hashMap == Owners(map[], hash, replicas, nodes)
    }

    /**
     * New: the ring uses fn, or the CRC-32 (IEEE) checksum when fn is nil;
     * it starts with no points and no owners.
     */
    constructor New(replicas: int, fn: Option<Hash>, checksumIEEE: Hash)
      ensures Valid()
      ensures hash == (if fn.None? then checksumIEEE else fn.value)
      ensures this.replicas == replicas
      ensures keys == [] && hashMap == map[] && nodes == []
    {
      var f: Hash := if fn.None? then checksumIEEE else fn.value;
      hash := f;
      this.replicas := replicas;
      keys := [];
      hashMap := map[];
      nodes := [];
    }

    /**
     * Add appends replicas points per node, records their owners (a later
     * node winning a collision) and sorts the points.  Nothing prevents a
     * node from being added twice, which duplicates its points.
     */
    method Add(newNodes: seq<GoString>)
      requires Valid()
      modifies this
      ensures Valid()
      ensures nodes == old(nodes) + newNodes
      ensures IsSorted(keys)
      ensures multiset(keys) == multiset(old(keys)) + multiset(Points(hash, replicas, newNodes))
      ensures |keys| == |old(keys)| + |newNodes| * ReplicaCount(replicas)
      ensures hashMap == Owners(old(hashMap), hash, replicas, newNodes)
    {
      AddNodes(newNodes);
      keys := SortInts(keys);
      AddKeepsRing(hash, replicas, nodes, newNodes, old(keys), keys);
      nodes := nodes + newNodes;
    }

    /**
     * The node loop of Add: appends the points of every node in order and
     * records their owners, before the points are sorted.
     */
    method AddNodes(newNodes: seq<GoString>)
      modifies this`keys, this`hashMap
      ensures keys == old(keys) + Points(hash, replicas, newNodes)
      ensures hashMap == Owners(old(hashMap), hash, replicas, newNodes)
    {
      var n := 0;
      while n < |newNodes|
        invariant 0 <= n <= |newNodes|
        invariant keys == old(keys) + Points(hash, replicas, newNodes[..n])
        invariant hashMap == Owners(old(hashMap), hash, replicas, newNodes[..n])
      {
        var node := newNodes[n];
        AddReplicas(node);
        PrefixSnoc(newNodes, n);
        OneNode(old(hashMap), hash, replicas, newNodes[..n], node);
        n := n + 1;
      }
      assert newNodes[..n] == newNodes;
    }

    /**
     * The replica loop of Add for one node: appends the node's points in
     * order and maps each of them to the node.
     */
    method AddReplicas(node: GoString)
      modifies this`keys, this`hashMap
      ensures keys == old(keys) + NodePoints(hash, replicas, node)
      ensures hashMap == Assign(old(hashMap), NodePoints(hash, replicas, node), node)
    {
      ghost var points := NodePoints(hash, replicas, node);
      var i := 0;
      while i < replicas
        invariant 0 <= i <= ReplicaCount(replicas)
        invariant keys == old(keys) + points[..i]
        invariant hashMap == Assign(old(hashMap), points[..i], node)
      {
        var h := hash(ReplicaKey(node, i));
        ReplicaStep(old(keys), old(hashMap), points, i, node);
        keys := keys + [h];
        hashMap := hashMap[h := node];
        i := i + 1;
      }
      assert points[..i] == points;
    }

    /**
     * Get: "" on an empty ring; otherwise the owner of the first point at or
     * after hash(key), wrapping to the first point.  The owner is always a
     * node that was passed to Add.
     */
    method Get(key: GoString) returns (node: GoString)
      requires Valid()
      ensures forall k :: 0 <= k < |keys| ==> keys[k] in hashMap
      ensures node == RingOwner(keys, hashMap, hash(key))
      ensures keys == [] ==> node == []
      ensures keys != [] ==> node in nodes
    {
      RingFacts(hash, replicas, nodes, keys);
      if |keys| == 0 {
        return [];
      }
      var h := hash(key);
      var idx := SearchAtLeast(keys, h);
      if idx == |keys| {
        idx := 0;
      }
      node := hashMap[keys[idx]];
      assert keys[idx] in multiset(keys);
    }

  }

  /**
   * The points of a ring grown by newNodes, sorted, are those of every node
   * added, and there are replicas more of them per new node.
   */
  lemma AddKeepsRing(hash: Hash, replicas: int, nodes: seq<GoString>, newNodes: seq<GoString>,
                     keys0: seq<int>, keys: seq<int>)
    requires multiset(keys0) == multiset(Points(hash, replicas, nodes))
    requires multiset(keys) == multiset(keys0 + Points(hash, replicas, newNodes))
    ensures multiset(keys) == multiset(Points(hash, replicas, nodes + newNodes))
    ensures |keys| == |keys0| + |newNodes| * ReplicaCount(replicas)
    ensures Owners(map[], hash, replicas, nodes + newNodes)
            == Owners(Owners(map[], hash, replicas, nodes), hash, replicas, newNodes)
  {
    PointsLength(hash, replicas, newNodes);
    PointsAppend(hash, replicas, nodes, newNodes);
    OwnersAppend(map[], hash, replicas, nodes, newNodes);
    assert |keys| == |multiset(keys)|;
  }

  /**
   * What Valid gives a ring: every point has an owner, every owner is a node
   * passed to Add, and there are replicas points per added node.
   */
  lemma RingFacts(hash: Hash, replicas: int, nodes: seq<GoString>, keys: seq<int>)
    requires multiset(keys) == multiset(Points(hash, replicas, nodes))
    ensures forall k :: 0 <= k < |keys| ==> keys[k] in Owners(map[], hash, replicas, nodes)
    ensures forall h :: h in Owners(map[], hash, replicas, nodes) ==> Owners(map[], hash, replicas, nodes)[h] in nodes
    ensures |keys| == |nodes| * ReplicaCount(replicas)
  {
    PointsLength(hash, replicas, nodes);
    assert |keys| == |multiset(keys)|;
    forall k | 0 <= k < |keys| ensures keys[k] in Owners(map[], hash, replicas, nodes) {
      assert keys[k] in multiset(keys);
      OwnersKeys(map[], hash, replicas, nodes, keys[k]);
    }
    forall h | h in Owners(map[], hash, replicas, nodes) ensures Owners(map[], hash, replicas, nodes)[h] in nodes {
      OwnersValues(map[], hash, replicas, nodes, h);
    }
  }
}
