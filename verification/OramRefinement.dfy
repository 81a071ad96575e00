/** Every access of the oblivious store behaves like the same access of a plain map (crates/oram/src/lib.rs). */
module OramRefinement {
  import opened Wrappers
  import opened Permuted
  import opened Sequences
  import opened OramTree
  import opened OramSpec

  datatype State<V> = State(positions: Positions, stash: seq<Block<V>>, buckets: seq<Bucket<V>>)

  // ----- buckets -----

  ghost predicate PathIn(path: seq<nat>, size: nat) {
    && (forall i :: 0 <= i < |path| ==> 1 <= path[i] < size)
    && NoRepeats(path)
  }

  lemma {:induction false} PrefixIn(path: seq<nat>, k: nat, size: nat)
    requires PathIn(path, size) && k < |path|
    ensures PathIn(path[..k], size) && path[k] !in path[..k]
    decreases |path|
  {
    var n := |path| - 1;
    if k < n {
      PrefixIn(path[..n], k, size);
      assert path[..n][..k] == path[..k];
    }
  }

  function Gather<T>(buckets: seq<T>, path: seq<nat>): (r: seq<T>)
    requires forall i :: 0 <= i < |path| ==> path[i] < |buckets|
    ensures |r| == |path| && forall i :: 0 <= i < |path| ==> r[i] == buckets[path[i]]
  {
    seq(|path|, i requires 0 <= i < |path| => buckets[path[i]])
  }

  function Place<T>(buckets: seq<T>, path: seq<nat>, placed: seq<T>): (r: seq<T>)
    requires |placed| == |path| && forall i :: 0 <= i < |path| ==> path[i] < |buckets|
    ensures |r| == |buckets|
    decreases |path|
  {
    if path == [] then buckets
    else
      var n := |path| - 1;
      Place(buckets, path[..n], placed[..n])[path[n] := placed[n]]
  }

  lemma {:induction false} PlaceElsewhere<T>(buckets: seq<T>, path: seq<nat>, placed: seq<T>, node: nat)
    requires |placed| == |path| && PathIn(path, |buckets|) && node < |buckets| && node !in path
    ensures Place(buckets, path, placed)[node] == buckets[node]
    decreases |path|
  {
    if path != [] {
      PlaceElsewhere(buckets, path[..|path| - 1], placed[..|path| - 1], node);
    }
  }

  lemma {:induction false} PlaceAt<T>(buckets: seq<T>, path: seq<nat>, placed: seq<T>, i: nat)
    requires |placed| == |path| && PathIn(path, |buckets|) && i < |path|
    ensures Place(buckets, path, placed)[path[i]] == placed[i]
    decreases |path|
  {
    if i < |path| - 1 {
      PlaceAt(buckets, path[..|path| - 1], placed[..|path| - 1], i);
    }
  }

  ghost function BucketsSum<V>(buckets: seq<Bucket<V>>): multiset<Block<V>> {
    multiset(Flatten(buckets))
  }

  lemma {:induction false} SumUpdate<V>(buckets: seq<Bucket<V>>, i: nat, bucket: Bucket<V>)
    requires i < |buckets|
    ensures BucketsSum(buckets[i := bucket]) + multiset(buckets[i]) == BucketsSum(buckets) + multiset(bucket)
    decreases |buckets|
  {
    var n := |buckets| - 1;
    if i == n {
      assert buckets[i := bucket][..n] == buckets[..n];
    } else {
      SumUpdate(buckets[..n], i, bucket);
      assert buckets[i := bucket][..n] == buckets[..n][i := bucket];
      SwapLast(BucketsSum(buckets[..n][i := bucket]), multiset(buckets[i]), BucketsSum(buckets[..n]),
          multiset(bucket), multiset(buckets[n]));
    }
  }

  lemma {:induction false} SwapLast<T>(a: multiset<T>, b: multiset<T>, c: multiset<T>, d: multiset<T>, x: multiset<T>)
    requires a + b == c + d
    ensures a + x + b == c + x + d
  {
    assert a + x + b == a + b + x && c + x + d == c + d + x;
  }

  /** Writing a path exchanges what it held for what is placed, and nothing else. */
  lemma {:induction false} PlaceConserves<V>(buckets: seq<Bucket<V>>, path: seq<nat>, placed: seq<Bucket<V>>)
    requires |placed| == |path| && PathIn(path, |buckets|)
    ensures BucketsSum(Place(buckets, path, placed)) + multiset(Flatten(Gather(buckets, path)))
            == BucketsSum(buckets) + multiset(Flatten(placed))
    decreases |path|
  {
    if path != [] {
      var n := |path| - 1;
      PlaceConserves(buckets, path[..n], placed[..n]);
      assert Gather(buckets, path)[..n] == Gather(buckets, path[..n]);
      var before := Place(buckets, path[..n], placed[..n]);
      PlaceElsewhere(buckets, path[..n], placed[..n], path[n]);
      SumUpdate(before, path[n], placed[n]);
      Exchange(BucketsSum(before), multiset(Flatten(Gather(buckets, path[..n]))), BucketsSum(buckets),
          multiset(Flatten(placed[..n])),
               BucketsSum(Place(buckets, path, placed)), multiset(buckets[path[n]]), multiset(placed[n]));
    }
  }

  lemma {:induction false} Exchange<T>(a: multiset<T>, b: multiset<T>, c: multiset<T>, d: multiset<T>,
      a': multiset<T>, x: multiset<T>, y: multiset<T>)
    requires a + b == c + d && a' + x == a + y
    ensures a' + (b + x) == c + (d + y)
  {
    assert a' + (b + x) == (a' + x) + b;
    assert (a + y) + b == (a + b) + y;
    assert (c + d) + y == c + (d + y);
  }

  lemma {:induction false} InFlatten<T>(parts: seq<seq<T>>, x: T)
    ensures x in Flatten(parts) <==> exists i :: 0 <= i < |parts| && x in parts[i]
    decreases |parts|
  {
    if parts != [] {
      var n := |parts| - 1;
      InFlatten(parts[..n], x);
      assert forall i :: 0 <= i < n ==> parts[..n][i] == parts[i];
    }
  }

  // ----- one access -----

  function FirstIndex<V(!new)>(stash: seq<Block<V>>, id: BlockId): (r: Option<nat>)
    ensures r.Some? ==> r.value < |stash| && stash[r.value].id == id && forall b :: b in stash[..r.value] ==> b.id != id
    ensures r.None? ==> forall b :: b in stash ==> b.id != id
    decreases |stash|
  {
    if stash == [] then None
    else
      var n := |stash| - 1;
      var before := FirstIndex(stash[..n], id);
      assert stash == stash[..n] + [stash[n]] && (before.Some? ==> stash[..n][..before.value] == stash[..before.value]);
      if before.Some? then before else if stash[n].id == id then Some(n) else None
  }

  /** The stash after the access has read or written its block, and the value it found. */
  function Touch<V(!new)>(stash: seq<Block<V>>, id: BlockId, newValue: Option<V>): (seq<Block<V>>, Option<V>) {
    match (FirstIndex(stash, id), newValue)
    case (Some(i), Some(v)) => (stash[i := Block(id, v)], Some(stash[i].value))
    case (Some(i), None) => (stash, Some(stash[i].value))
    case (None, Some(v)) => (stash + [Block(id, v)], None)
    case (None, None) => (stash, None)
  }

  function LeafOf(positions: Positions, id: BlockId, fallback: nat): nat {
    if id in positions then positions[id] else fallback
  }

  /** Sizes are right and every stored block has a position. */
  ghost predicate Shape<V>(numLeaves: nat, s: State<V>) {
    && numLeaves >= 1 && |s.buckets| == 2 * numLeaves
    && (forall id :: id in s.positions ==> s.positions[id] < numLeaves)
    && AllMapped(s.positions, s.stash)
    && (forall node :: 0 <= node < |s.buckets| ==> AllMapped(s.positions, s.buckets[node]))
  }

  lemma {:induction false} PathNoRepeats(n: nat, m: nat)
    requires n >= 1 && m <= |PathFrom(n)|
    ensures NoRepeats(PathFrom(n)[..m])
    decreases m
  {
    if m > 0 {
      PathNoRepeats(n, m - 1);
      assert PathFrom(n)[..m][..m - 1] == PathFrom(n)[..m - 1];
      forall i | 0 <= i < m - 1 ensures PathFrom(n)[i] != PathFrom(n)[m - 1] {
        PathDecreases(n, i, m - 1);
      }
    }
  }

  lemma {:induction false} LeafPathIn(numLeaves: nat, leaf: nat)
    requires leaf < numLeaves
    ensures PathIn(PathFrom(numLeaves + leaf), 2 * numLeaves)
  {
    var path := PathFrom(numLeaves + leaf);
    PathNoRepeats(numLeaves + leaf, |path|);
    assert path[..|path|] == path;
    forall i | 0 <= i < |path| ensures 1 <= path[i] < 2 * numLeaves {
      PathSuffix(numLeaves + leaf, i);
      if i > 0 { PathDecreases(numLeaves + leaf, 0, i); }
    }
  }

  /** Remapping an id keeps the sizes right. */
  lemma {:induction false} RemappedShape<V>(numLeaves: nat, s: State<V>, id: BlockId, newLeaf: nat)
    requires Shape(numLeaves, s) && newLeaf < numLeaves
    ensures Shape(numLeaves, s.(positions := s.positions[id := newLeaf]))
  {
    var positions := s.positions[id := newLeaf];
    MappedMore(s.positions, positions, s.stash);
    forall node | 0 <= node < |s.buckets| ensures AllMapped(positions, s.buckets[node]) {
      MappedMore(s.positions, positions, s.buckets[node]);
    }
  }

  /** Everything the access holds in the stash before evicting. */
  function Gathered<V>(numLeaves: nat, s: State<V>, leaf: nat): seq<Block<V>>
    requires leaf < numLeaves && |s.buckets| == 2 * numLeaves
  {
    LeafPathIn(numLeaves, leaf);
    s.stash + Flatten(Gather(s.buckets, PathFrom(numLeaves + leaf)))
  }

  lemma {:induction false} GatheredMapped<V(!new)>(numLeaves: nat, s: State<V>, leaf: nat, id: BlockId,
      newValue: Option<V>, newLeaf: nat)
    requires Shape(numLeaves, s) && leaf < numLeaves
    ensures AllMapped(s.positions[id := newLeaf], Touch(Gathered(numLeaves, s, leaf), id, newValue).0)
  {
    LeafPathIn(numLeaves, leaf);
    var gathered := Gathered(numLeaves, s, leaf);
    var parts := Gather(s.buckets, PathFrom(numLeaves + leaf));
    forall k | 0 <= k < |gathered|
      ensures Mapped(s.positions, gathered[k])
    {
      if k >= |s.stash| {
        assert gathered[k] in Flatten(parts);
        InFlatten(parts, gathered[k]);
      }
    }
  }

  /** One access: remap, read the old path, touch the block, evict onto the old path. */
  function Access<V(!new)>(numLeaves: nat, capacity: nat, s: State<V>, id: BlockId, newValue: Option<V>,
      fallback: nat, newLeaf: nat)
      : (State<V>, Option<V>)
    requires Shape(numLeaves, s) && fallback < numLeaves && newLeaf < numLeaves
  {
    var leaf := LeafOf(s.positions, id, fallback);
    LeafPathIn(numLeaves, leaf);
    GatheredMapped(numLeaves, s, leaf, id, newValue, newLeaf);
    var positions, path := s.positions[id := newLeaf], PathFrom(numLeaves + leaf);
    var (stash, found) := Touch(Gathered(numLeaves, s, leaf), id, newValue);
    var (placed, left) := EvictAll(numLeaves, positions, path, capacity, stash);
    (State(positions, left, Place(s.buckets, path, placed)), found)
  }

  /** The access from its parts. */
  lemma {:induction false} AccessIs<V(!new)>(
      numLeaves: nat, capacity: nat, s: State<V>, id: BlockId, newValue: Option<V>, fallback: nat, newLeaf: nat,
      leaf: nat, positions: Positions, path: seq<nat>, touched: (seq<Block<V>>, Option<V>),
          evicted: (seq<Bucket<V>>, seq<Block<V>>))
    requires Shape(numLeaves, s) && fallback < numLeaves && newLeaf < numLeaves
    requires leaf == LeafOf(s.positions, id, fallback) && positions == s.positions[id := newLeaf]
    requires path == PathFrom(numLeaves + leaf) && PathIn(path, |s.buckets|)
    requires touched == Touch(Gathered(numLeaves, s, leaf), id, newValue) && AllMapped(positions, touched.0)
    requires evicted == EvictAll(numLeaves, positions, path, capacity, touched.0)
    ensures Access(numLeaves, capacity, s, id, newValue, fallback, newLeaf)
            == (State(positions, evicted.1, Place(s.buckets, path, evicted.0)), touched.1)
  {
  }

  // ----- the invariant -----

  ghost function AllBlocks<V>(s: State<V>): multiset<Block<V>> {
    multiset(s.stash) + BucketsSum(s.buckets)
  }

  /** The blocks are exactly the entries of the map, each stored once. */
  ghost predicate Holds<V(!new)>(blocks: multiset<Block<V>>, m: map<BlockId, V>) {
    forall b :: blocks[b] == if b.id in m && m[b.id] == b.value then 1 else 0
  }

  /** Every block in the tree is on the path to its leaf. */
  ghost predicate Located<V>(numLeaves: nat, s: State<V>)
    requires Shape(numLeaves, s)
  {
    forall node :: 0 <= node < |s.buckets| ==> BucketLocated(numLeaves, s.positions, node, s.buckets[node])
  }

  ghost predicate BucketLocated<V>(numLeaves: nat, positions: Positions, node: nat, bucket: Bucket<V>)
    requires numLeaves >= 1 && AllMapped(positions, bucket)
  {
    forall k :: 0 <= k < |bucket| ==> Eligible(numLeaves, positions, node, bucket[k])
  }

  ghost predicate Inv<V(!new)>(numLeaves: nat, capacity: nat, s: State<V>, m: map<BlockId, V>) {
    && Shape(numLeaves, s)
    && Located(numLeaves, s)
    && (forall node :: 0 <= node < |s.buckets| ==> |s.buckets[node]| <= capacity)
    && Holds(AllBlocks(s), m)
  }

  function Expected<V>(m: map<BlockId, V>, id: BlockId): Option<V> {
    if id in m then Some(m[id]) else None
  }

  function Written<V>(m: map<BlockId, V>, id: BlockId, newValue: Option<V>): map<BlockId, V> {
    match newValue
    case Some(v) => m[id := v]
    case None => m
  }

  /** The block of a stored id is in hand once its path has been read. */
  lemma {:induction false} TargetGathered<V(!new)>(numLeaves: nat, capacity: nat, s: State<V>, m: map<BlockId, V>,
      id: BlockId, leaf: nat)
    requires Inv(numLeaves, capacity, s, m) && leaf < numLeaves && (id in s.positions ==> leaf == s.positions[id])
             && id in m
    ensures Block(id, m[id]) in Gathered(numLeaves, s, leaf)
  {
    var b := Block(id, m[id]);
    LeafPathIn(numLeaves, leaf);
    if b !in s.stash {
      var node := StoredAt(s, m, b);
      OnPath(numLeaves, s, node, b, leaf);
      FromPath(s.buckets, PathFrom(numLeaves + leaf), node, b);
    }
  }

  /** A block the map vouches for is in the stash or in some bucket. */
  lemma {:induction false} StoredAt<V(!new)>(s: State<V>, m: map<BlockId, V>, b: Block<V>) returns (node: nat)
    requires Holds(AllBlocks(s), m) && b.id in m && m[b.id] == b.value && b !in s.stash
    ensures node < |s.buckets| && b in s.buckets[node]
  {
    assert AllBlocks(s)[b] == 1;
    assert b !in multiset(s.stash);
    assert b in BucketsSum(s.buckets);
    assert b in Flatten(s.buckets);
    InFlatten(s.buckets, b);
    node :| 0 <= node < |s.buckets| && b in s.buckets[node];
  }

  lemma {:induction false} FromPath<V>(buckets: seq<Bucket<V>>, path: seq<nat>, node: nat, b: Block<V>)
    requires PathIn(path, |buckets|) && node in path && node < |buckets| && b in buckets[node]
    ensures b in Flatten(Gather(buckets, path))
  {
    var i :| 0 <= i < |path| && path[i] == node;
    assert b in Gather(buckets, path)[i];
    InFlatten(Gather(buckets, path), b);
  }

  /** A block stored at a node has that node on the path of its leaf. */
  lemma {:induction false} OnPath<V>(numLeaves: nat, s: State<V>, node: nat, b: Block<V>, leaf: nat)
    requires Shape(numLeaves, s) && Located(numLeaves, s) && node < |s.buckets| && b in s.buckets[node]
    requires b.id in s.positions ==> leaf == s.positions[b.id]
    ensures node in PathFrom(numLeaves + leaf)
  {
    var k :| 0 <= k < |s.buckets[node]| && s.buckets[node][k] == b;
    assert BucketLocated(numLeaves, s.positions, node, s.buckets[node]);
    assert Mapped(s.positions, b) && Eligible(numLeaves, s.positions, node, b);
    PathIsAncestors(numLeaves + leaf, node);
  }

  /** Touching a block held in hand answers and updates like the map. */
  lemma {:induction false} TouchRefines<V(!new)>(stash: seq<Block<V>>, rest: multiset<Block<V>>, m: map<BlockId, V>,
      id: BlockId, newValue: Option<V>)
    requires Holds(multiset(stash) + rest, m) && (id in m ==> Block(id, m[id]) in stash)
    ensures Touch(stash, id, newValue).1 == Expected(m, id)
    ensures Holds(multiset(Touch(stash, id, newValue).0) + rest, Written(m, id, newValue))
  {
    match FirstIndex(stash, id) {
      case Some(i) =>
        assert stash[i] in multiset(stash);
        assert (multiset(stash) + rest)[stash[i]] > 0;
        if newValue.Some? {
          TouchOverwrites(stash, rest, m, i, newValue.value);
        }
      case None =>
        assert id !in m;
        if newValue.Some? {
          TouchAppends(stash, rest, m, id, newValue.value);
        }
    }
  }

  lemma {:induction false} TouchOverwrites<V(!new)>(stash: seq<Block<V>>, rest: multiset<Block<V>>,
      m: map<BlockId, V>, i: nat, v: V)
    requires Holds(multiset(stash) + rest, m) && i < |stash|
    ensures Holds(multiset(stash[i := Block(stash[i].id, v)]) + rest, m[stash[i].id := v])
  {
    var id, before, after := stash[i].id, stash[i], Block(stash[i].id, v);
    var all := multiset(stash) + rest;
    assert multiset(stash[i := after]) == multiset(stash) - multiset{before} + multiset{after};
    assert before in multiset(stash) && all[before] == 1;
    forall b: Block<V>
      ensures (multiset(stash[i := after]) + rest)[b] == if b.id in m[id := v] && m[id := v][b.id] == b.value then 1
              else 0
    {
      assert all[b] == if b.id in m && m[b.id] == b.value then 1 else 0;
    }
  }

  lemma {:induction false} TouchAppends<V(!new)>(stash: seq<Block<V>>, rest: multiset<Block<V>>, m: map<BlockId, V>,
      id: BlockId, v: V)
    requires Holds(multiset(stash) + rest, m) && id !in m
    ensures Holds(multiset(stash + [Block(id, v)]) + rest, m[id := v])
  {
    forall b: Block<V>
      ensures (multiset(stash + [Block(id, v)]) + rest)[b] == if b.id in m[id := v]
              && m[id := v][b.id] == b.value then 1 else 0
    {
      assert (multiset(stash) + rest)[b] == if b.id in m && m[b.id] == b.value then 1 else 0;
    }
  }

  /** Buckets off the path keep their blocks, and the remapped block is in none of them. */
  lemma {:induction false} OffPathLocated<V>(numLeaves: nat, s: State<V>, id: BlockId, leaf: nat, newLeaf: nat,
      node: nat)
    requires Shape(numLeaves, s) && Located(numLeaves, s) && node < |s.buckets|
    requires id in s.positions ==> leaf == s.positions[id]
    requires node !in PathFrom(numLeaves + leaf)
    ensures AllMapped(s.positions[id := newLeaf], s.buckets[node])
    ensures BucketLocated(numLeaves, s.positions[id := newLeaf], node, s.buckets[node])
  {
    var positions, bucket := s.positions[id := newLeaf], s.buckets[node];
    assert BucketLocated(numLeaves, s.positions, node, bucket);
    MappedMore(s.positions, positions, bucket);
    forall k | 0 <= k < |bucket|
      ensures Mapped(positions, bucket[k]) && Eligible(numLeaves, positions, node, bucket[k])
    {
      if bucket[k].id == id {
        OnPath(numLeaves, s, node, bucket[k], leaf);
      }
      assert Mapped(s.positions, bucket[k]) && Eligible(numLeaves, s.positions, node, bucket[k]);
    }
  }

  /** Each bucket after an eviction onto a path. */
  lemma {:induction false} BucketAfter<V(!new)>(
      numLeaves: nat, capacity: nat, s: State<V>, m: map<BlockId, V>, id: BlockId, leaf: nat, newLeaf: nat,
          stash: seq<Block<V>>, node: nat)
    requires Inv(numLeaves, capacity, s, m) && leaf < numLeaves && newLeaf < numLeaves
             && (id in s.positions ==> leaf == s.positions[id])
    requires AllMapped(s.positions[id := newLeaf], stash) && node < |s.buckets|
    requires PathIn(PathFrom(numLeaves + leaf), |s.buckets|)
    ensures var positions, path := s.positions[id := newLeaf], PathFrom(numLeaves + leaf);
            var bucket := Place(s.buckets, path, EvictAll(numLeaves, positions, path, capacity, stash).0)[node];
            BucketFine(numLeaves, capacity, positions, node, bucket)
  {
    var positions, path := s.positions[id := newLeaf], PathFrom(numLeaves + leaf);
    var placed := EvictAll(numLeaves, positions, path, capacity, stash).0;
    if node in path {
      var i :| 0 <= i < |path| && path[i] == node;
      PlaceAt(s.buckets, path, placed, i);
      EvictFits(numLeaves, positions, path, capacity, stash, i);
    } else {
      PlaceElsewhere(s.buckets, path, placed, node);
      OffPathLocated(numLeaves, s, id, leaf, newLeaf, node);
    }
  }

  /** Reading a path and writing it back keeps the blocks together. */
  lemma {:induction false} BlocksAfter<V>(numLeaves: nat, s: State<V>, leaf: nat, placed: seq<Bucket<V>>,
      stash: seq<Block<V>>, left: seq<Block<V>>, rest: multiset<Block<V>>)
    requires leaf < numLeaves && |s.buckets| == 2 * numLeaves && |placed| == |PathFrom(numLeaves + leaf)|
    requires PathIn(PathFrom(numLeaves + leaf), |s.buckets|)
    requires multiset(Flatten(placed)) + multiset(left) == multiset(stash)
    requires BucketsSum(s.buckets) == multiset(Flatten(Gather(s.buckets, PathFrom(numLeaves + leaf)))) + rest
    ensures multiset(left) + BucketsSum(Place(s.buckets, PathFrom(numLeaves + leaf), placed)) == multiset(stash) + rest
  {
    var path := PathFrom(numLeaves + leaf);
    PlaceConserves(s.buckets, path, placed);
    CancelLeft(multiset(Flatten(Gather(s.buckets, path))), BucketsSum(Place(s.buckets, path, placed)),
        rest + multiset(Flatten(placed)));
  }

  lemma {:induction false} CancelLeft<T>(a: multiset<T>, b: multiset<T>, c: multiset<T>)
    requires b + a == a + c
    ensures b == c
  {
    assert b == b + a - a && c == a + c - a;
  }

  /** The blocks off the path are the difference. */
  lemma {:induction false} OffPathBlocks<V>(buckets: seq<Bucket<V>>, path: seq<nat>) returns (rest: multiset<Block<V>>)
    requires PathIn(path, |buckets|)
    ensures BucketsSum(buckets) == multiset(Flatten(Gather(buckets, path))) + rest
  {
    var empties := Empties<Block<V>>(|path|);
    PlaceConserves(buckets, path, empties);
    FlattenEmpties<Block<V>>(|path|);
    rest := BucketsSum(Place(buckets, path, empties));
    assert multiset(Flatten(empties)) == multiset{};
    assert BucketsSum(buckets) == BucketsSum(buckets) + multiset{} == rest + multiset(Flatten(Gather(buckets, path)));
  }

  function Empties<T>(n: nat): (r: seq<seq<T>>)
    ensures |r| == n && forall k :: 0 <= k < n ==> r[k] == []
  {
    seq(n, _ => [])
  }

  lemma {:induction false} FlattenEmpties<T>(n: nat)
    ensures Flatten(Empties<T>(n)) == []
  {
    if n > 0 {
      FlattenEmpties<T>(n - 1);
      assert Empties<T>(n)[..n - 1] == Empties<T>(n - 1);
    }
  }

  /** One access answers what the map holds, and leaves the map's access behind. */
  lemma {:induction false} AccessRefines<V(!new)>(
      numLeaves: nat, capacity: nat, s: State<V>, m: map<BlockId, V>, id: BlockId, newValue: Option<V>, fallback: nat,
          newLeaf: nat)
    requires Inv(numLeaves, capacity, s, m) && fallback < numLeaves && newLeaf < numLeaves
    ensures var (s', found) := Access(numLeaves, capacity, s, id, newValue, fallback, newLeaf);
            && found == Expected(m, id)
            && Inv(numLeaves, capacity, s', Written(m, id, newValue))
            && s'.positions == s.positions[id := newLeaf]
  {
    var leaf := LeafOf(s.positions, id, fallback);
    LeafPathIn(numLeaves, leaf);
    GatheredMapped(numLeaves, s, leaf, id, newValue, newLeaf);
    var rest := AccessTouches(numLeaves, capacity, s, m, id, newValue, leaf);
    var positions, path := s.positions[id := newLeaf], PathFrom(numLeaves + leaf);
    var stash := Touch(Gathered(numLeaves, s, leaf), id, newValue).0;
    var (placed, left) := EvictAll(numLeaves, positions, path, capacity, stash);
    var next := State(positions, left, Place(s.buckets, path, placed));
    EvictedInv(numLeaves, capacity, s, m, id, leaf, newLeaf, stash, rest, Written(m, id, newValue), positions, path,
        placed, left, next.buckets);
    AccessIs(numLeaves, capacity, s, id, newValue, fallback, newLeaf, leaf, positions, path,
        Touch(Gathered(numLeaves, s, leaf), id, newValue), (placed, left));
    assert Access(numLeaves, capacity, s, id, newValue, fallback, newLeaf) == (next, Expected(m, id));
  }

  /** Evicting what is in hand onto the emptied path restores the invariant. */
  lemma {:induction false} EvictedInv<V(!new)>(
      numLeaves: nat, capacity: nat, s: State<V>, m: map<BlockId, V>, id: BlockId, leaf: nat, newLeaf: nat,
      stash: seq<Block<V>>, rest: multiset<Block<V>>, m': map<BlockId, V>,
      positions: Positions, path: seq<nat>, placed: seq<Bucket<V>>, left: seq<Block<V>>, after: seq<Bucket<V>>)
    requires Inv(numLeaves, capacity, s, m) && leaf < numLeaves && newLeaf < numLeaves
             && (id in s.positions ==> leaf == s.positions[id])
    requires positions == s.positions[id := newLeaf] && path == PathFrom(numLeaves + leaf) && PathIn(path, |s.buckets|)
    requires AllMapped(positions, stash) && (placed, left) == EvictAll(numLeaves, positions, path, capacity, stash)
    requires after == Place(s.buckets, path, placed)
    requires BucketsSum(s.buckets) == multiset(Flatten(Gather(s.buckets, path))) + rest
    requires Holds(multiset(stash) + rest, m')
    ensures Inv(numLeaves, capacity, State(positions, left, after), m')
  {
    BlocksHold(numLeaves, positions, capacity, s, leaf, stash, rest, m');
    BucketsFine(numLeaves, capacity, s, m, id, leaf, newLeaf, stash);
    InvFromParts(numLeaves, capacity, State(positions, left, after), m');
  }

  lemma {:induction false} BlocksHold<V(!new)>(
      numLeaves: nat, positions: Positions, capacity: nat, s: State<V>, leaf: nat, stash: seq<Block<V>>,
          rest: multiset<Block<V>>, m': map<BlockId, V>)
    requires leaf < numLeaves && |s.buckets| == 2 * numLeaves && AllMapped(positions, stash)
             && PathIn(PathFrom(numLeaves + leaf), |s.buckets|)
    requires BucketsSum(s.buckets) == multiset(Flatten(Gather(s.buckets, PathFrom(numLeaves + leaf)))) + rest
    requires Holds(multiset(stash) + rest, m')
    ensures var (placed, left) := EvictAll(numLeaves, positions, PathFrom(numLeaves + leaf), capacity, stash);
            Holds(multiset(left) + BucketsSum(Place(s.buckets, PathFrom(numLeaves + leaf), placed)), m')
  {
    var path := PathFrom(numLeaves + leaf);
    EvictConserves(numLeaves, positions, path, capacity, stash);
    var (placed, left) := EvictAll(numLeaves, positions, path, capacity, stash);
    BlocksAfter(numLeaves, s, leaf, placed, stash, left, rest);
  }

  lemma {:induction false} BucketsFine<V(!new)>(
      numLeaves: nat, capacity: nat, s: State<V>, m: map<BlockId, V>, id: BlockId, leaf: nat, newLeaf: nat,
          stash: seq<Block<V>>)
    requires Inv(numLeaves, capacity, s, m) && leaf < numLeaves && newLeaf < numLeaves
             && (id in s.positions ==> leaf == s.positions[id])
    requires AllMapped(s.positions[id := newLeaf], stash) && PathIn(PathFrom(numLeaves + leaf), |s.buckets|)
    ensures var positions, path := s.positions[id := newLeaf], PathFrom(numLeaves + leaf);
            var placed := EvictAll(numLeaves, positions, path, capacity, stash).0;
            forall node :: 0 <= node < |s.buckets|
                ==> BucketFine(numLeaves, capacity, positions, node, Place(s.buckets, path, placed)[node])
  {
    var positions, path := s.positions[id := newLeaf], PathFrom(numLeaves + leaf);
    var after := Place(s.buckets, path, EvictAll(numLeaves, positions, path, capacity, stash).0);
    forall node | 0 <= node < |s.buckets|
      ensures BucketFine(numLeaves, capacity, positions, node, after[node])
    {
      BucketAfter(numLeaves, capacity, s, m, id, leaf, newLeaf, stash, node);
    }
  }

  /** The blocks in hand after the touch, with those off the path, are the written map's. */
  lemma {:induction false} AccessTouches<V(!new)>(
      numLeaves: nat, capacity: nat, s: State<V>, m: map<BlockId, V>, id: BlockId, newValue: Option<V>,
          leaf: nat) returns (rest: multiset<Block<V>>)
    requires Inv(numLeaves, capacity, s, m) && leaf < numLeaves && (id in s.positions ==> leaf == s.positions[id])
    requires PathIn(PathFrom(numLeaves + leaf), |s.buckets|)
    ensures BucketsSum(s.buckets) == multiset(Flatten(Gather(s.buckets, PathFrom(numLeaves + leaf)))) + rest
    ensures Touch(Gathered(numLeaves, s, leaf), id, newValue).1 == Expected(m, id)
    ensures Holds(multiset(Touch(Gathered(numLeaves, s, leaf), id, newValue).0) + rest, Written(m, id, newValue))
  {
    var path := PathFrom(numLeaves + leaf);
    var gathered := Gathered(numLeaves, s, leaf);
    rest := OffPathBlocks(s.buckets, path);
    assert AllBlocks(s) == multiset(gathered) + rest;
    if id in m { TargetGathered(numLeaves, capacity, s, m, id, leaf); }
    TouchRefines(gathered, rest, m, id, newValue);
  }

  ghost predicate BucketFine<V>(numLeaves: nat, capacity: nat, positions: Positions, node: nat, bucket: Bucket<V>)
    requires numLeaves >= 1
  {
    |bucket| <= capacity && AllMapped(positions, bucket) && BucketLocated(numLeaves, positions, node, bucket)
  }

  lemma {:induction false} InvFromParts<V(!new)>(numLeaves: nat, capacity: nat, s: State<V>, m: map<BlockId, V>)
    requires numLeaves >= 1 && |s.buckets| == 2 * numLeaves && AllMapped(s.positions, s.stash)
    requires forall id :: id in s.positions ==> s.positions[id] < numLeaves
    requires forall node :: 0 <= node < |s.buckets|
                 ==> BucketFine(numLeaves, capacity, s.positions, node, s.buckets[node])
    requires Holds(AllBlocks(s), m)
    ensures Inv(numLeaves, capacity, s, m)
  {
  }

  // ----- runs -----

  /** One operation with the leaves the random source hands it. */
  datatype Op<V> = Op(id: BlockId, newValue: Option<V>, fallback: nat, newLeaf: nat)

  ghost predicate LeavesIn<V>(ops: seq<Op<V>>, numLeaves: nat) {
    forall k :: 0 <= k < |ops| ==> ops[k].fallback < numLeaves && ops[k].newLeaf < numLeaves
  }

  function Empty<V>(numLeaves: nat): State<V> {
    State(map[], [], Empties(2 * numLeaves))
  }

  lemma {:induction false} EmptyInv<V(!new)>(numLeaves: nat, capacity: nat)
    requires numLeaves >= 1
    ensures Inv(numLeaves, capacity, Empty<V>(numLeaves), map[])
  {
    FlattenEmpties<Block<V>>(2 * numLeaves);
  }

  /** A run from a given state: the final state and every answer. */
  ghost predicate RunsTo<V(!new)>(numLeaves: nat, capacity: nat, s: State<V>, ops: seq<Op<V>>,
      answers: seq<Option<V>>, final: State<V>)
    requires LeavesIn(ops, numLeaves)
    decreases |ops|
  {
    if ops == [] then answers == [] && final == s
    else
      var op := ops[0];
      && Shape(numLeaves, s) && answers != []
      && var (s', found) := Access(numLeaves, capacity, s, op.id, op.newValue, op.fallback, op.newLeaf);
         answers[0] == found && RunsTo(numLeaves, capacity, s', ops[1..], answers[1..], final)
  }

  function MapAnswers<V>(m: map<BlockId, V>, ops: seq<Op<V>>): (r: seq<Option<V>>)
    ensures |r| == |ops|
    decreases |ops|
  {
    if ops == [] then [] else [Expected(m, ops[0].id)] + MapAnswers(Written(m, ops[0].id, ops[0].newValue), ops[1..])
  }

  function MapAfter<V>(m: map<BlockId, V>, ops: seq<Op<V>>): map<BlockId, V>
    decreases |ops|
  {
    if ops == [] then m else MapAfter(Written(m, ops[0].id, ops[0].newValue), ops[1..])
  }

  /** Every run, whatever leaves are drawn, answers exactly as the map does and keeps the invariant. */
  lemma {:induction false} RunRefines<V(!new)>(
      numLeaves: nat, capacity: nat, s: State<V>, m: map<BlockId, V>,
          ops: seq<Op<V>>) returns (answers: seq<Option<V>>, final: State<V>)
    requires Inv(numLeaves, capacity, s, m) && LeavesIn(ops, numLeaves)
    ensures RunsTo(numLeaves, capacity, s, ops, answers, final)
    ensures answers == MapAnswers(m, ops) && Inv(numLeaves, capacity, final, MapAfter(m, ops))
    decreases |ops|
  {
    if ops == [] {
      answers, final := [], s;
    } else {
      var op := ops[0];
      AccessRefines(numLeaves, capacity, s, m, op.id, op.newValue, op.fallback, op.newLeaf);
      var (s', found) := Access(numLeaves, capacity, s, op.id, op.newValue, op.fallback, op.newLeaf);
      var rest, end := RunRefines(numLeaves, capacity, s', Written(m, op.id, op.newValue), ops[1..]);
      answers, final := [found] + rest, end;
    }
  }
}
