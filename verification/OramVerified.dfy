/**
 Verified accesses against a server that may change buckets and hashes arbitrarily
 between accesses (crates/oram/src/lib.rs).
 */
module OramVerified {
  import opened Powers
  import opened Wrappers
  import opened Sequences
  import opened OramTree
  import opened OramSpec
  import opened OramRefinement
  import opened OramMerkle

  datatype IntegrityError = IntegrityError

  /** What the server holds. */
  datatype Store<V> = Store(buckets: seq<Bucket<V>>, hashes: seq<Hash<V>>)

  ghost predicate Sized<V>(numLeaves: nat, store: Store<V>) {
    |store.buckets| == |store.hashes| == 2 * numLeaves
  }

  function TreeHashes<V>(numLeaves: nat, buckets: seq<Bucket<V>>, path: seq<nat>): (r: seq<Hash<V>>)
    requires numLeaves >= 1 && |buckets| == 2 * numLeaves && forall i :: 0 <= i < |path|
                                                                 ==> 1 <= path[i] < 2 * numLeaves
    ensures |r| == |path| && forall i :: 0 <= i < |path| ==> r[i] == TreeHash(numLeaves, buckets, path[i])
  {
    seq(|path|, i requires 0 <= i < |path| => TreeHash(numLeaves, buckets, path[i]))
  }

  /** The server holds the honest buckets on the path and the honest hashes beside it. */
  ghost predicate HonestOn<V>(numLeaves: nat, path: seq<nat>, honest: seq<Bucket<V>>, store: Store<V>)
    requires PathIn(path, 2 * numLeaves) && numLeaves >= 1 && Sized(numLeaves, store) && |honest| == 2 * numLeaves
  {
    Gather(store.buckets, path) == Gather(honest, path) && SiblingsHonest(numLeaves, path, store.hashes, honest)
  }

  /** Names one operation; always true. */
  ghost predicate Named<V>(op: Op<V>) { true }

  /** The access of the other module, unfolded only where a proof names the operation. */
  ghost predicate AccessedTo<V(!new)>(numLeaves: nat, capacity: nat, s: State<V>, op: Op<V>, s': State<V>,
      found: Option<V>)
    requires Shape(numLeaves, s) && op.fallback < numLeaves && op.newLeaf < numLeaves
  {
    forall o {:trigger Named(o)} :: o == op
        ==> (s', found) == Access(numLeaves, capacity, s, o.id, o.newValue, o.fallback, o.newLeaf)
  }

  /** The path an operation reads and rewrites: that of its block's leaf, or of the drawn one. */
  ghost predicate OpPath<V>(numLeaves: nat, s: State<V>, op: Op<V>, path: seq<nat>) {
    LeafPath(numLeaves, path) && PathIn(path, 2 * numLeaves)
        && path[0] == numLeaves + LeafOf(s.positions, op.id, op.fallback)
  }

  /** One access: what the server held before it, what came back, and what both sides hold after it. */
  datatype Visit<V> =
    Visit(op: Op<V>, path: seq<nat>, store: Store<V>, result: Result<Option<V>, IntegrityError>, after: State<V>,
        storeAfter: Store<V>)

  /** The inputs of an access fit together. */
  ghost predicate Begins<V>(numLeaves: nat, s: State<V>, v: Visit<V>) {
    && Shape(numLeaves, s) && Sized(numLeaves, v.store) && v.op.fallback < numLeaves && v.op.newLeaf < numLeaves
    && OpPath(numLeaves, s, v.op, v.path) && |v.after.buckets| == 2 * numLeaves
  }

  /**
   One verified access. `s` is the client's state with the tree as the client itself
   last wrote it, which only its root remembers; `v.store` is whatever the server holds.
   */
  ghost predicate Visits<V(!new)>(numLeaves: nat, capacity: nat, s: State<V>, v: Visit<V>) {
    && Begins(numLeaves, s, v)
    && (v.result.Ok? <==> HonestOn(numLeaves, v.path, s.buckets, v.store))
    && (v.result.Ok? ==>
          && AccessedTo(numLeaves, capacity, s, v.op, v.after, v.result.value)
          && v.storeAfter == Store(Place(v.store.buckets, v.path, Gather(v.after.buckets, v.path)),
                                   Place(v.store.hashes, v.path, TreeHashes(numLeaves, v.after.buckets, v.path))))
    && (v.result.Err? ==> v.after == s.(positions := s.positions[v.op.id := v.op.newLeaf]) && v.storeAfter == v.store)
  }

  /** The server holds exactly the client's tree and its hashes. */
  ghost predicate Honest<V>(numLeaves: nat, s: State<V>, store: Store<V>)
    requires numLeaves >= 1 && |s.buckets| == 2 * numLeaves
  {
    && Sized(numLeaves, store) && store.buckets == s.buckets
    && forall node :: 1 <= node < 2 * numLeaves ==> store.hashes[node] == TreeHash(numLeaves, s.buckets, node)
  }

  lemma {:induction false} OperationPath<V>(depth: nat, numLeaves: nat, s: State<V>, op: Op<V>)
    requires numLeaves == Pow2(depth) && Shape(numLeaves, s) && op.fallback < numLeaves
    ensures OpPath(numLeaves, s, op, PathFrom(numLeaves + LeafOf(s.positions, op.id, op.fallback)))
  {
    LeafPathIs(depth, numLeaves, LeafOf(s.positions, op.id, op.fallback));
    LeafPathIn(numLeaves, LeafOf(s.positions, op.id, op.fallback));
  }

  /** The access from its parts, along the operation's path. */
  lemma {:induction false} AccessedIs<V(!new)>(
      numLeaves: nat, capacity: nat, s: State<V>, op: Op<V>, positions: Positions, path: seq<nat>,
      touched: (seq<Block<V>>, Option<V>), evicted: (seq<Bucket<V>>, seq<Block<V>>))
    requires Shape(numLeaves, s) && op.fallback < numLeaves && op.newLeaf < numLeaves && OpPath(numLeaves, s, op, path)
    requires positions == s.positions[op.id := op.newLeaf]
    requires touched == Touch(s.stash + Flatten(Gather(s.buckets, path)), op.id, op.newValue)
             && AllMapped(positions, touched.0)
    requires evicted == EvictAll(numLeaves, positions, path, capacity, touched.0)
    ensures Access(numLeaves, capacity, s, op.id, op.newValue, op.fallback, op.newLeaf)
            == (State(positions, evicted.1, Place(s.buckets, path, evicted.0)), touched.1)
  {
    LeafPathFrom(numLeaves, path);
    var leaf := LeafOf(s.positions, op.id, op.fallback);
    AccessIs(numLeaves, capacity, s, op.id, op.newValue, op.fallback, op.newLeaf, leaf, positions, path, touched,
        evicted);
  }

  lemma {:induction false} TouchedMapped<V(!new)>(numLeaves: nat, s: State<V>, op: Op<V>, path: seq<nat>)
    requires Shape(numLeaves, s) && op.fallback < numLeaves && op.newLeaf < numLeaves && OpPath(numLeaves, s, op, path)
    ensures AllMapped(s.positions[op.id := op.newLeaf],
            Touch(s.stash + Flatten(Gather(s.buckets, path)), op.id, op.newValue).0)
  {
    LeafPathFrom(numLeaves, path);
    GatheredMapped(numLeaves, s, LeafOf(s.positions, op.id, op.fallback), op.id, op.newValue, op.newLeaf);
  }

  /** Only path buckets differ after an access. */
  lemma {:induction false} AccessElsewhere<V(!new)>(numLeaves: nat, capacity: nat, s: State<V>, op: Op<V>,
      s': State<V>, path: seq<nat>)
    requires Shape(numLeaves, s) && op.fallback < numLeaves && op.newLeaf < numLeaves && OpPath(numLeaves, s, op, path)
    requires s' == Access(numLeaves, capacity, s, op.id, op.newValue, op.fallback, op.newLeaf).0
    ensures |s'.buckets| == 2 * numLeaves
    ensures s'.buckets == Place(s.buckets, path, Gather(s'.buckets, path))
  {
    TouchedMapped(numLeaves, s, op, path);
    var positions := s.positions[op.id := op.newLeaf];
    var touched := Touch(s.stash + Flatten(Gather(s.buckets, path)), op.id, op.newValue);
    var evicted := EvictAll(numLeaves, positions, path, capacity, touched.0);
    AccessedIs(numLeaves, capacity, s, op, positions, path, touched, evicted);
    PlaceBack(s.buckets, path, evicted.0);
  }

  lemma {:induction false} PlaceBack<T>(buckets: seq<T>, path: seq<nat>, placed: seq<T>)
    requires |placed| == |path| && PathIn(path, |buckets|)
    ensures Gather(Place(buckets, path, placed), path) == placed
  {
    forall i | 0 <= i < |path| ensures Gather(Place(buckets, path, placed), path)[i] == placed[i] {
      PlaceAt(buckets, path, placed, i);
    }
  }

  /** An access keeps the sizes right and every block mapped, even of a state that stores no map. */
  lemma {:induction false} AccessShape<V(!new)>(
      numLeaves: nat, capacity: nat, s: State<V>, op: Op<V>, path: seq<nat>, positions: Positions, stash: seq<Block<V>>,
      evicted: (seq<Bucket<V>>, seq<Block<V>>))
    requires Shape(numLeaves, s) && op.newLeaf < numLeaves && PathIn(path, 2 * numLeaves)
    requires positions == s.positions[op.id := op.newLeaf] && AllMapped(positions, stash)
    requires evicted == EvictAll(numLeaves, positions, path, capacity, stash)
    ensures Shape(numLeaves, State(positions, evicted.1, Place(s.buckets, path, evicted.0)))
  {
    forall node | 0 <= node < 2 * numLeaves
      ensures AllMapped(positions, Place(s.buckets, path, evicted.0)[node])
    {
      MappedAfter(numLeaves, capacity, s, positions, path, stash, node);
    }
  }

  lemma {:induction false} MappedAfter<V>(numLeaves: nat, capacity: nat, s: State<V>, positions: Positions,
      path: seq<nat>, stash: seq<Block<V>>, node: nat)
    requires Shape(numLeaves, s) && s.positions.Keys <= positions.Keys && PathIn(path, 2 * numLeaves)
             && node < 2 * numLeaves
    requires AllMapped(positions, stash)
    ensures AllMapped(positions, Place(s.buckets, path, EvictAll(numLeaves, positions, path, capacity, stash).0)[node])
  {
    var placed := EvictAll(numLeaves, positions, path, capacity, stash).0;
    if node in path {
      var i :| 0 <= i < |path| && path[i] == node;
      PlaceAt(s.buckets, path, placed, i);
      EvictFits(numLeaves, positions, path, capacity, stash, i);
    } else {
      PlaceElsewhere(s.buckets, path, placed, node);
      MappedMore(s.positions, positions, s.buckets[node]);
    }
  }

  /** A node that is not on the path has no path node below it. */
  lemma {:induction false} OffPathHash<V>(numLeaves: nat, path: seq<nat>, a: seq<Bucket<V>>, placed: seq<Bucket<V>>,
      node: nat)
    requires LeafPath(numLeaves, path) && PathIn(path, 2 * numLeaves) && |a| == 2 * numLeaves && |placed| == |path|
    requires 1 <= node < 2 * numLeaves && node !in path
    ensures TreeHash(numLeaves, Place(a, path, placed), node) == TreeHash(numLeaves, a, node)
  {
    forall n | 1 <= n < 2 * numLeaves && IsAncestor(node, n)
      ensures Place(a, path, placed)[n] == a[n]
    {
      NotAbove(numLeaves, path, node, n);
      PlaceElsewhere(a, path, placed, n);
    }
    TreeHashAgrees(numLeaves, Place(a, path, placed), a, node);
  }

  lemma {:induction false} NotAbove(numLeaves: nat, path: seq<nat>, node: nat, n: nat)
    requires LeafPath(numLeaves, path) && n >= 1 && IsAncestor(node, n) && node !in path
    ensures n !in path
  {
    LeafPathFrom(numLeaves, path);
    PathIsAncestors(path[0], n);
    PathIsAncestors(path[0], node);
    if n in path {
      AncestorTransitive(node, n, path[0]);
    }
  }

  lemma {:induction false} HonestSiblings<V>(numLeaves: nat, path: seq<nat>, s: State<V>, store: Store<V>)
    requires LeafPath(numLeaves, path) && PathIn(path, 2 * numLeaves) && |s.buckets| == 2 * numLeaves
             && Honest(numLeaves, s, store)
    ensures HonestOn(numLeaves, path, s.buckets, store)
  {
    forall i | 0 <= i < |path| - 1
      ensures SiblingHonest(numLeaves, path[i], store.hashes, s.buckets)
    {
      SiblingsIn(numLeaves, path, i);
    }
  }

  /** Rewriting a path and its hashes keeps every stored hash the tree's own. */
  lemma {:induction false} HashesAfter<V>(numLeaves: nat, path: seq<nat>, a: seq<Bucket<V>>, placed: seq<Bucket<V>>,
      b: seq<Bucket<V>>, hashes: seq<Hash<V>>, node: nat)
    requires |a| == |hashes| == 2 * numLeaves
    requires LeafPath(numLeaves, path) && PathIn(path, 2 * numLeaves) && |placed| == |path|
             && b == Place(a, path, placed)
    requires 1 <= node < 2 * numLeaves && hashes[node] == TreeHash(numLeaves, a, node)
    ensures Place(hashes, path, TreeHashes(numLeaves, b, path))[node] == TreeHash(numLeaves, b, node)
  {
    if node in path {
      var i :| 0 <= i < |path| && path[i] == node;
      PlaceAt(hashes, path, TreeHashes(numLeaves, b, path), i);
    } else {
      PlaceElsewhere(hashes, path, TreeHashes(numLeaves, b, path), node);
      OffPathHash(numLeaves, path, a, placed, node);
    }
  }

  lemma {:induction false} HonestAfter<V>(
      numLeaves: nat, path: seq<nat>, s: State<V>, store: Store<V>, placed: seq<Bucket<V>>, s': State<V>,
          store': Store<V>)
    requires |s.buckets| == |s'.buckets| == 2 * numLeaves && numLeaves >= 1 && Honest(numLeaves, s, store)
    requires LeafPath(numLeaves, path) && PathIn(path, 2 * numLeaves) && |placed| == |path|
    requires s'.buckets == Place(s.buckets, path, placed) && store'.buckets == s'.buckets
    requires store'.hashes == Place(store.hashes, path, TreeHashes(numLeaves, s'.buckets, path))
    ensures Honest(numLeaves, s', store')
  {
    forall node | 1 <= node < 2 * numLeaves
      ensures store'.hashes[node] == TreeHash(numLeaves, s'.buckets, node)
    {
      HashesAfter(numLeaves, path, s.buckets, placed, s'.buckets, store.hashes, node);
    }
  }

  // ----- runs -----

  /**
   An access that succeeds answers like the map and keeps the client's tree in step with it, whatever the
   server did.
   */
  lemma {:induction false} VisitRefines<V(!new)>(numLeaves: nat, capacity: nat, s: State<V>, m: map<BlockId, V>,
      v: Visit<V>)
    requires Inv(numLeaves, capacity, s, m) && Visits(numLeaves, capacity, s, v)
    ensures v.result.Err? || (v.result.value == Expected(m, v.op.id)
            && Inv(numLeaves, capacity, v.after, Written(m, v.op.id, v.op.newValue)))
  {
    assert Named(v.op);
    AccessRefines(numLeaves, capacity, s, m, v.op.id, v.op.newValue, v.op.fallback, v.op.newLeaf);
  }

  /** A run in which every access before the last succeeded, with the server free to hold anything before each. */
  ghost predicate VerifiedRun<V(!new)>(numLeaves: nat, capacity: nat, s: State<V>, visits: seq<Visit<V>>)
    decreases |visits|
  {
    visits == [] || (
      && Visits(numLeaves, capacity, s, visits[0])
      && (visits[0].result.Ok? || |visits| == 1)
      && VerifiedRun(numLeaves, capacity, visits[0].after, visits[1..]))
  }

  function FinalState<V>(s: State<V>, visits: seq<Visit<V>>): State<V>
    decreases |visits|
  {
    if visits == [] then s else FinalState(visits[0].after, visits[1..])
  }

  ghost predicate NoneRefused<V>(visits: seq<Visit<V>>)
    decreases |visits|
  {
    visits == [] || (visits[0].result.Ok? && NoneRefused(visits[1..]))
  }

  /** Every access answers as the map does, except that the last may be refused. */
  ghost predicate AnswersAsMap<V>(m: map<BlockId, V>, visits: seq<Visit<V>>)
    decreases |visits|
  {
    if visits == [] then true
    else
      var v := visits[0];
      || (v.result == Ok(Expected(m, v.op.id)) && AnswersAsMap(Written(m, v.op.id, v.op.newValue), visits[1..]))
      || (v.result.Err? && |visits| == 1)
  }

  function MapThrough<V>(m: map<BlockId, V>, visits: seq<Visit<V>>): map<BlockId, V>
    decreases |visits|
  {
    if visits == [] then m else MapThrough(Written(m, visits[0].op.id, visits[0].op.newValue), visits[1..])
  }

  /**
   Integrity over whole runs. Whatever the server does between accesses, every access
   up to the first error returns the map's answer, and without an error the client's
   tree still stores the map.
   */
  lemma {:induction false} RunTrusted<V(!new)>(
      numLeaves: nat, capacity: nat, s: State<V>, m: map<BlockId, V>,
          visits: seq<Visit<V>>) returns (end: map<BlockId, V>)
    requires Inv(numLeaves, capacity, s, m) && VerifiedRun(numLeaves, capacity, s, visits)
    ensures AnswersAsMap(m, visits) && end == MapThrough(m, visits)
    ensures NoneRefused(visits) ==> Inv(numLeaves, capacity, FinalState(s, visits), end)
    decreases |visits|
  {
    if visits == [] {
      end := m;
    } else {
      var v := visits[0];
      VisitRefines(numLeaves, capacity, s, m, v);
      if v.result.Ok? {
        end := RunTrusted(numLeaves, capacity, v.after, Written(m, v.op.id, v.op.newValue), visits[1..]);
        assert FinalState(s, visits) == FinalState(v.after, visits[1..]);
      } else {
        end := MapThrough(m, visits);
      }
    }
  }

  // ----- an honest server -----

  lemma {:induction false} AcceptedWrites<V(!new)>(numLeaves: nat, capacity: nat, s: State<V>, v: Visit<V>)
    requires Begins(numLeaves, s, v) && v.result.Ok?
             && AccessedTo(numLeaves, capacity, s, v.op, v.after, v.result.value)
    ensures v.after.buckets == Place(s.buckets, v.path, Gather(v.after.buckets, v.path))
  {
    assert Named(v.op);
    AccessElsewhere(numLeaves, capacity, s, v.op, v.after, v.path);
  }

  /** An honest server is not refused, and stays honest. */
  lemma {:induction false} HonestAccepted<V(!new)>(numLeaves: nat, capacity: nat, s: State<V>, v: Visit<V>)
    requires Visits(numLeaves, capacity, s, v) && Honest(numLeaves, s, v.store)
    ensures v.result.Ok? && Honest(numLeaves, v.after, v.storeAfter)
  {
    HonestSiblings(numLeaves, v.path, s, v.store);
    AcceptedWrites(numLeaves, capacity, s, v);
    HonestAfter(numLeaves, v.path, s, v.store, Gather(v.after.buckets, v.path), v.after, v.storeAfter);
  }

  /** The server changes nothing between accesses. */
  ghost predicate Untouched<V>(store: Store<V>, visits: seq<Visit<V>>)
    decreases |visits|
  {
    visits == [] || (visits[0].store == store && Untouched(visits[0].storeAfter, visits[1..]))
  }

  /** Against a server that was honest and changes nothing itself, no access of any run is ever refused. */
  lemma {:induction false} HonestRun<V(!new)>(numLeaves: nat, capacity: nat, s: State<V>, store: Store<V>,
      visits: seq<Visit<V>>)
    requires VerifiedRun(numLeaves, capacity, s, visits) && Untouched(store, visits)
    requires numLeaves >= 1 && |s.buckets| == 2 * numLeaves && Honest(numLeaves, s, store)
    ensures NoneRefused(visits)
    decreases |visits|
  {
    if visits != [] {
      HonestAccepted(numLeaves, capacity, s, visits[0]);
      HonestRun(numLeaves, capacity, visits[0].after, visits[0].storeAfter, visits[1..]);
    }
  }

  // ----- after a rejection -----

  ghost predicate HasBlock<V>(blocks: seq<Block<V>>, id: BlockId) {
    exists k :: 0 <= k < |blocks| && blocks[k].id == id
  }

  /** The block lies at a node above both the leaf it is mapped to and another one. */
  ghost predicate AboveBoth<V>(numLeaves: nat, s: State<V>, id: BlockId, other: nat)
    requires numLeaves >= 1 && |s.buckets| == 2 * numLeaves && id in s.positions
  {
    exists node :: 1 <= node < 2 * numLeaves && Under(node, numLeaves, s.positions[id])
                   && Under(node, numLeaves, other) && HasBlock(s.buckets[node], id)
  }

  /**
   A rejected access has already remapped its block. If the server then serves the
   honest tree again, retrying the read answers correctly exactly when there is
   nothing to find, or the block is in the stash or at a node above both the leaf it
   was mapped to and the leaf the rejected access drew.
   */
  lemma {:induction false} RetryAfterRejection<V(!new)>(
      numLeaves: nat, capacity: nat, s: State<V>, m: map<BlockId, V>, id: BlockId, drawn: nat, fallback: nat,
          newLeaf: nat)
    requires Inv(numLeaves, capacity, s, m) && drawn < numLeaves && fallback < numLeaves && newLeaf < numLeaves
    ensures id in m ==> id in s.positions
    ensures var rejected := s.(positions := s.positions[id := drawn]);
            && Shape(numLeaves, rejected)
            && (Access(numLeaves, capacity, rejected, id, None, fallback, newLeaf).1 == Expected(m, id)
                <==> id in m ==> HasBlock(s.stash, id) || AboveBoth(numLeaves, s, id, drawn))
  {
    var rejected := s.(positions := s.positions[id := drawn]);
    var gathered := Gathered(numLeaves, s, drawn);
    forall k | 0 <= k < |gathered|
      ensures gathered[k].id in m && m[gathered[k].id] == gathered[k].value
    {
      GatheredStored(numLeaves, s, m, drawn, k);
    }
    TouchFinds(gathered, m, id);
    RejectedAnswer(numLeaves, capacity, s, rejected, id, drawn, fallback, newLeaf);
    if id in m {
      StoredMapped(numLeaves, capacity, s, m, id);
      GatheredExactly(numLeaves, capacity, s, m, id, drawn);
    }
  }

  /** A block of the map is stored somewhere, so its id is mapped to a leaf. */
  lemma {:induction false} StoredMapped<V(!new)>(numLeaves: nat, capacity: nat, s: State<V>, m: map<BlockId, V>,
      id: BlockId)
    requires Inv(numLeaves, capacity, s, m) && id in m
    ensures id in s.positions
  {
    var b := Block(id, m[id]);
    assert AllBlocks(s)[b] == 1;
    InFlatten(s.buckets, b);
    assert multiset(s.stash)[b] > 0 || multiset(Flatten(s.buckets))[b] > 0;
    if b in s.stash {
      var k :| 0 <= k < |s.stash| && s.stash[k] == b;
      assert Mapped(s.positions, s.stash[k]);
    } else {
      var i :| 0 <= i < |s.buckets| && b in s.buckets[i];
      var k :| 0 <= k < |s.buckets[i]| && s.buckets[i][k] == b;
      assert AllMapped(s.positions, s.buckets[i]);
      assert Mapped(s.positions, s.buckets[i][k]);
    }
  }

  /** Reading a leaf's path gathers a block of the map exactly if it is in the stash or above that leaf as well. */
  lemma {:induction false} GatheredExactly<V(!new)>(numLeaves: nat, capacity: nat, s: State<V>, m: map<BlockId, V>,
      id: BlockId, leaf: nat)
    requires Inv(numLeaves, capacity, s, m) && id in m && id in s.positions && leaf < numLeaves
    ensures Block(id, m[id]) in Gathered(numLeaves, s, leaf)
            <==> HasBlock(s.stash, id) || AboveBoth(numLeaves, s, id, leaf)
  {
    if Block(id, m[id]) in Gathered(numLeaves, s, leaf) {
      GatheredAbove(numLeaves, s, Block(id, m[id]), leaf);
    }
    if HasBlock(s.stash, id) {
      var k :| 0 <= k < |s.stash| && s.stash[k].id == id;
      StoredValue(numLeaves, s, m, s.stash[k]);
    }
    if AboveBoth(numLeaves, s, id, leaf) {
      var node :| 1 <= node < 2 * numLeaves && Under(node, numLeaves, s.positions[id])
                  && Under(node, numLeaves, leaf) && HasBlock(s.buckets[node], id);
      var k :| 0 <= k < |s.buckets[node]| && s.buckets[node][k].id == id;
      AboveGathered(numLeaves, s, s.buckets[node][k], node, leaf);
      StoredValue(numLeaves, s, m, s.buckets[node][k]);
    }
  }

  lemma {:induction false} GatheredAbove<V(!new)>(numLeaves: nat, s: State<V>, b: Block<V>, leaf: nat)
    requires Shape(numLeaves, s) && Located(numLeaves, s) && leaf < numLeaves && b.id in s.positions
    requires b in Gathered(numLeaves, s, leaf)
    ensures HasBlock(s.stash, b.id) || AboveBoth(numLeaves, s, b.id, leaf)
  {
    var path := PathFrom(numLeaves + leaf);
    LeafPathIn(numLeaves, leaf);
    var parts := Gather(s.buckets, path);
    if b !in s.stash {
      InFlatten(parts, b);
      var i :| 0 <= i < |parts| && b in parts[i];
      PathIsAncestors(numLeaves + leaf, path[i]);
      HeldAbove(numLeaves, s, b, path[i]);
    }
  }

  /** A stored block lies above its own leaf. */
  lemma {:induction false} HeldAbove<V(!new)>(numLeaves: nat, s: State<V>, b: Block<V>, node: nat)
    requires Shape(numLeaves, s) && Located(numLeaves, s) && b.id in s.positions && node < 2 * numLeaves
    requires b in s.buckets[node]
    ensures HasBlock(s.buckets[node], b.id) && Under(node, numLeaves, s.positions[b.id])
  {
    var k :| 0 <= k < |s.buckets[node]| && s.buckets[node][k] == b;
    assert BucketLocated(numLeaves, s.positions, node, s.buckets[node]);
  }

  lemma {:induction false} AboveGathered<V(!new)>(numLeaves: nat, s: State<V>, b: Block<V>, node: nat, leaf: nat)
    requires |s.buckets| == 2 * numLeaves && leaf < numLeaves && node < 2 * numLeaves
    requires b in s.buckets[node] && Under(node, numLeaves, leaf)
    ensures b in Gathered(numLeaves, s, leaf) && b in Flatten(s.buckets)
  {
    var path := PathFrom(numLeaves + leaf);
    LeafPathIn(numLeaves, leaf);
    PathIsAncestors(numLeaves + leaf, node);
    var parts := Gather(s.buckets, path);
    var i :| 0 <= i < |path| && path[i] == node;
    assert b in parts[i];
    InFlatten(parts, b);
    InFlatten(s.buckets, b);
  }

  /** Whatever is stored is the map's entry for its id. */
  lemma {:induction false} StoredValue<V(!new)>(numLeaves: nat, s: State<V>, m: map<BlockId, V>, b: Block<V>)
    requires Holds(AllBlocks(s), m) && (b in s.stash || b in Flatten(s.buckets))
    ensures b.id in m && m[b.id] == b.value
  {
    assert b in multiset(s.stash) || b in multiset(Flatten(s.buckets));
    assert AllBlocks(s)[b] > 0;
  }

  lemma {:induction false} RejectedAnswer<V(!new)>(numLeaves: nat, capacity: nat, s: State<V>, rejected: State<V>,
      id: BlockId, drawn: nat, fallback: nat, newLeaf: nat)
    requires Shape(numLeaves, s) && drawn < numLeaves && fallback < numLeaves && newLeaf < numLeaves
    requires rejected == s.(positions := s.positions[id := drawn])
    ensures Shape(numLeaves, rejected)
    ensures Access(numLeaves, capacity, rejected, id, None, fallback, newLeaf).1
            == Touch(Gathered(numLeaves, s, drawn), id, None).1
  {
    var path, positions := PathFrom(numLeaves + drawn), rejected.positions[id := newLeaf];
    LeafPathIn(numLeaves, drawn);
    RemappedShape(numLeaves, s, id, drawn);
    GatheredMapped(numLeaves, rejected, drawn, id, None, newLeaf);
    var touched := Touch(Gathered(numLeaves, s, drawn), id, None);
    assert Gathered(numLeaves, rejected, drawn) == Gathered(numLeaves, s, drawn);
    AccessIs(numLeaves, capacity, rejected, id, None, fallback, newLeaf, drawn, positions, path, touched,
             EvictAll(numLeaves, positions, path, capacity, touched.0));
  }

  /** Among blocks that all agree with the map, a read answers like the map exactly when it has the block it needs. */
  lemma {:induction false} TouchFinds<V(!new)>(stash: seq<Block<V>>, m: map<BlockId, V>, id: BlockId)
    requires forall k :: 0 <= k < |stash| ==> stash[k].id in m && m[stash[k].id] == stash[k].value
    ensures Touch(stash, id, None).1 == Expected(m, id) <==> id in m ==> Block(id, m[id]) in stash
  {
    var i := FirstIndex(stash, id);
    if i.Some? {
      assert stash[i.value] == Block(id, m[id]);
    }
  }

  lemma {:induction false} GatheredStored<V(!new)>(numLeaves: nat, s: State<V>, m: map<BlockId, V>, leaf: nat, k: nat)
    requires |s.buckets| == 2 * numLeaves && leaf < numLeaves && Holds(AllBlocks(s), m)
             && k < |Gathered(numLeaves, s, leaf)|
    ensures var b := Gathered(numLeaves, s, leaf)[k]; b.id in m && m[b.id] == b.value
  {
    LeafPathIn(numLeaves, leaf);
    var b := Gathered(numLeaves, s, leaf)[k];
    var parts := Gather(s.buckets, PathFrom(numLeaves + leaf));
    if k >= |s.stash| {
      assert b in Flatten(parts);
      InFlatten(parts, b);
      var i :| 0 <= i < |parts| && b in parts[i];
      assert b in s.buckets[PathFrom(numLeaves + leaf)[i]];
      InFlatten(s.buckets, b);
    }
    StoredValue(numLeaves, s, m, b);
  }

  // ----- a block lost to a refused access -----

  /** A single block that fits the first node of a path goes there, and nothing is left. */
  lemma {:induction false} EvictSingle<V>(numLeaves: nat, positions: Positions, path: seq<nat>, capacity: nat,
      b: Block<V>)
    requires numLeaves >= 1 && capacity >= 1 && path != [] && AllMapped(positions, [b])
    requires Mapped(positions, b) && Eligible(numLeaves, positions, path[0], b)
    ensures var (placed, left) := EvictAll(numLeaves, positions, path, capacity, [b]);
            left == [] && placed[0] == [b] && forall k :: 1 <= k < |path| ==> placed[k] == []
    decreases |path|
  {
    var n := |path| - 1;
    if n == 0 {
      assert path[..n] == [];
      SelectSingle(numLeaves, positions, path[0], capacity, b);
    } else {
      EvictSingle(numLeaves, positions, path[..n], capacity, b);
      assert Select<V>(numLeaves, positions, path[n], capacity, []) == ([], []);
    }
  }

  lemma {:induction false} SelectSingle<V>(numLeaves: nat, positions: Positions, node: nat, capacity: nat, b: Block<V>)
    requires numLeaves >= 1 && capacity >= 1 && AllMapped(positions, [b])
    requires Mapped(positions, b) && Eligible(numLeaves, positions, node, b)
    ensures Select(numLeaves, positions, node, capacity, [b]) == ([b], [])
  {
    assert [b][1..] == [] && [b] + [] == [b];
    assert Select<V>(numLeaves, positions, node, capacity - 1, []) == ([], []);
  }

  /** One leaf's node is on no other leaf's path. */
  lemma {:induction false} LeafOffPath(numLeaves: nat, home: nat, other: nat)
    requires home < numLeaves && other < numLeaves && home != other
    ensures numLeaves + home !in PathFrom(numLeaves + other)
  {
    PathIsAncestors(numLeaves + other, numLeaves + home);
    if IsAncestor(numLeaves + home, (numLeaves + other) / 2) {
      AncestorBounds(numLeaves + home, (numLeaves + other) / 2);
    }
  }

  /** With one block, in its leaf's bucket, every other leaf's path is empty. */
  lemma {:induction false} OtherPathEmpty<V>(numLeaves: nat, home: nat, other: nat, placed: seq<Bucket<V>>)
    requires home < numLeaves && other < numLeaves && home != other
    requires PathIn(PathFrom(numLeaves + home), 2 * numLeaves) && PathIn(PathFrom(numLeaves + other), 2 * numLeaves)
    requires |placed| == |PathFrom(numLeaves + home)| && forall k :: 1 <= k < |placed| ==> placed[k] == []
    ensures Flatten(Gather(Place(Empties(2 * numLeaves), PathFrom(numLeaves + home), placed),
                           PathFrom(numLeaves + other)))
            == []
  {
    var path, buckets := PathFrom(numLeaves + other), Place(Empties(2 * numLeaves), PathFrom(numLeaves + home), placed);
    forall i | 0 <= i < |path|
      ensures buckets[path[i]] == []
    {
      LeafOffPath(numLeaves, home, other);
      assert path[i] in path;
      if path[i] in PathFrom(numLeaves + home) {
        var k :| 0 <= k < |PathFrom(numLeaves + home)| && PathFrom(numLeaves + home)[k] == path[i];
        PlaceAt(Empties(2 * numLeaves), PathFrom(numLeaves + home), placed, k);
      } else {
        PlaceElsewhere(Empties(2 * numLeaves), PathFrom(numLeaves + home), placed, path[i]);
      }
    }
    assert Gather(buckets, path) == Empties(|path|);
    FlattenEmpties<Block<V>>(|path|);
  }

  /** The first write to an empty store leaves the block in its leaf's bucket. */
  lemma {:induction false} FirstWrite<V(!new)>(numLeaves: nat, capacity: nat, id: BlockId, value: V, home: nat)
      returns (placed: seq<Bucket<V>>)
    requires home < numLeaves && capacity >= 1
    ensures Shape(numLeaves, Empty<V>(numLeaves)) && PathIn(PathFrom(numLeaves + home), 2 * numLeaves)
    ensures |placed| == |PathFrom(numLeaves + home)| && forall k :: 1 <= k < |placed| ==> placed[k] == []
    ensures Access(numLeaves, capacity, Empty(numLeaves), id, Some(value), home, home).0
            == State(map[id := home], [], Place(Empties(2 * numLeaves), PathFrom(numLeaves + home), placed))
  {
    var s0 := Empty<V>(numLeaves);
    LeafPathIn(numLeaves, home);
    var path, positions, b := PathFrom(numLeaves + home), map[id := home], Block(id, value);
    assert Gather(s0.buckets, path) == Empties(|path|);
    FlattenEmpties<Block<V>>(|path|);
    assert Gathered(numLeaves, s0, home) == [] && [] + [b] == [b];
    assert Mapped(positions, b);
    EvictSingle(numLeaves, positions, path, capacity, b);
    placed := EvictAll(numLeaves, positions, path, capacity, [b]).0;
    AccessIs(numLeaves, capacity, s0, id, Some(value), home, home, home, positions, path, ([b], None), (placed, []));
  }

  /**
   A refused access does lose answers: write one block to an empty store and let the
   next access of it be refused after drawing any other leaf; the retry then finds
   nothing, though the map holds the value.
   */
  lemma {:induction false} RefusalLosesBlock<V(!new)>(numLeaves: nat, capacity: nat, id: BlockId, value: V, home: nat,
      drawn: nat, fallback: nat, newLeaf: nat)
    requires home < numLeaves && drawn < numLeaves && home != drawn && capacity >= 1
    requires fallback < numLeaves && newLeaf < numLeaves
    ensures Shape(numLeaves, Empty<V>(numLeaves))
    ensures var s := Access(numLeaves, capacity, Empty(numLeaves), id, Some(value), home, home).0;
            var rejected := s.(positions := s.positions[id := drawn]);
            && Inv(numLeaves, capacity, s, map[id := value]) && Shape(numLeaves, rejected)
            && Access(numLeaves, capacity, rejected, id, None, fallback, newLeaf).1 == None
  {
    EmptyInv<V>(numLeaves, capacity);
    AccessRefines(numLeaves, capacity, Empty(numLeaves), map[], id, Some(value), home, home);
    var placed := FirstWrite(numLeaves, capacity, id, value, home);
    LeafPathIn(numLeaves, drawn);
    OtherPathEmpty(numLeaves, home, drawn, placed);
    var s := Access(numLeaves, capacity, Empty(numLeaves), id, Some(value), home, home).0;
    assert Gathered(numLeaves, s, drawn) == [];
    RejectedAnswer(numLeaves, capacity, s, s.(positions := s.positions[id := drawn]), id, drawn, fallback, newLeaf);
  }
}
