/** The client and its server as objects (crates/oram/src/lib.rs), proved against the functions of the other modules. */
module OramClient {
  import opened Powers
  import opened Wrappers
  import opened Sequences
  import opened OramTree
  import opened OramSpec
  import opened OramRefinement
  import opened OramMerkle
  import opened OramVerified

  /** In-process bucket storage with one hash per node. */
  class Server<V(!new)> {
    const capacity: nat
    var buckets: seq<Bucket<V>>
    var hashes: seq<Hash<V>>

    constructor (numNodes: nat, capacity: nat)
      ensures this.capacity == capacity && buckets == Empties(numNodes) && |hashes| == numNodes
      ensures forall k :: 0 <= k < numNodes ==> hashes[k] == EmptyChild
    {
      this.capacity := capacity;
      buckets := Empties(numNodes);
      hashes := seq(numNodes, _ => EmptyChild);
    }

    method ReadAndClear(node: nat) returns (blocks: Bucket<V>)
      requires node < |buckets|
      modifies this`buckets
      ensures blocks == old(buckets)[node] && buckets == old(buckets)[node := []]
    {
      blocks := buckets[node];
      buckets := buckets[node := []];
    }

    method Write(node: nat, blocks: Bucket<V>)
      requires node < |buckets|
      modifies this`buckets
      ensures buckets == old(buckets)[node := blocks]
    {
      buckets := buckets[node := blocks];
    }

    method SetNodeHash(node: nat, hash: Hash<V>)
      requires node < |hashes|
      modifies this`hashes
      ensures hashes == old(hashes)[node := hash]
    {
      hashes := hashes[node := hash];
    }
  }

  // ----- facts about the loops -----

  /** The selection with some blocks already chosen and some already passed over. */
  function SelectFrom<V>(
      numLeaves: nat, positions: Positions, node: nat, room: nat, chosen: Bucket<V>, passed: seq<Block<V>>,
          rest: seq<Block<V>>): (Bucket<V>, seq<Block<V>>)
    requires numLeaves >= 1 && AllMapped(positions, rest)
  {
    var r := Select(numLeaves, positions, node, room, rest);
    (chosen + r.0, passed + r.1)
  }

  /** One turn of the selection loop. */
  lemma {:induction false} SelectTurn<V>(numLeaves: nat, positions: Positions, node: nat, room: nat,
      chosen: Bucket<V>, passed: seq<Block<V>>, rest: seq<Block<V>>)
    requires numLeaves >= 1 && AllMapped(positions, rest) && rest != [] && room > 0
    ensures AllMapped(positions, rest[1..])
    ensures SelectFrom(numLeaves, positions, node, room, chosen, passed, rest)
            == if Eligible(numLeaves, positions, node, rest[0])
               then SelectFrom(numLeaves, positions, node, room - 1, chosen + [rest[0]], passed, rest[1..])
               else SelectFrom(numLeaves, positions, node, room, chosen, passed + [rest[0]], rest[1..])
  {
    var fits := Eligible(numLeaves, positions, node, rest[0]);
    var r := Select(numLeaves, positions, node, if fits then room - 1 else room, rest[1..]);
    assert chosen + [rest[0]] + r.0 == chosen + ([rest[0]] + r.0);
    assert passed + [rest[0]] + r.1 == passed + ([rest[0]] + r.1);
  }

  lemma {:induction false} SelectStarts<V>(numLeaves: nat, positions: Positions, node: nat, room: nat,
      stash: seq<Block<V>>)
    requires numLeaves >= 1 && AllMapped(positions, stash)
    ensures SelectFrom(numLeaves, positions, node, room, [], stash[..0], stash[0..])
            == Select(numLeaves, positions, node, room, stash)
  {
    var r := Select(numLeaves, positions, node, room, stash);
    assert stash[0..] == stash && [] + r.0 == r.0 && stash[..0] + r.1 == r.1;
  }

  lemma {:induction false} SelectEnds<V>(numLeaves: nat, positions: Positions, node: nat, room: nat,
      chosen: Bucket<V>, stash: seq<Block<V>>, i: nat)
    requires numLeaves >= 1 && AllMapped(positions, stash) && i <= |stash| && (i == |stash| || room == 0)
    ensures SelectFrom(numLeaves, positions, node, room, chosen, stash[..i], stash[i..]) == (chosen, stash)
  {
    assert chosen + [] == chosen && stash[..i] + stash[i..] == stash;
  }

  /** A loop that appends the parts one by one. */
  lemma {:induction false} AppendPart<T>(start: seq<T>, parts: seq<seq<T>>, k: nat)
    requires k < |parts|
    ensures start + Flatten(parts[..k]) + parts[k] == start + Flatten(parts[..k + 1])
  {
    assert parts[..k + 1][..k] == parts[..k];
    assert start + Flatten(parts[..k]) + parts[k] == start + (Flatten(parts[..k]) + parts[k]);
  }

  lemma {:induction false} PlaceSnoc<T>(items: seq<T>, path: seq<nat>, placed: seq<T>, k: nat)
    requires |placed| == |path| && (forall i :: 0 <= i < |path| ==> path[i] < |items|) && k < |path|
    ensures Place(items, path[..k + 1], placed[..k + 1]) == Place(items, path[..k], placed[..k])[path[k] := placed[k]]
  {
    assert path[..k + 1][..k] == path[..k] && placed[..k + 1][..k] == placed[..k];
  }

  /** Writing over what was already rewritten leaves only the second writing. */
  lemma {:induction false} PlaceTwice<T>(items: seq<T>, path: seq<nat>, first: seq<T>, second: seq<T>)
    requires |first| == |second| == |path| && PathIn(path, |items|)
    ensures Place(Place(items, path, first), path, second) == Place(items, path, second)
  {
    var a, b := Place(Place(items, path, first), path, second), Place(items, path, second);
    forall node | 0 <= node < |items|
      ensures a[node] == b[node]
    {
      if node in path {
        var i :| 0 <= i < |path| && path[i] == node;
        PlaceAt(Place(items, path, first), path, second, i);
        PlaceAt(items, path, second, i);
      } else {
        PlaceElsewhere(Place(items, path, first), path, second, node);
        PlaceElsewhere(items, path, first, node);
        PlaceElsewhere(items, path, second, node);
      }
    }
  }

  /** Writing back what was read changes nothing. */
  lemma {:induction false} PlaceRead<T>(items: seq<T>, path: seq<nat>)
    requires PathIn(path, |items|)
    ensures Place(items, path, Gather(items, path)) == items
  {
    var a := Place(items, path, Gather(items, path));
    forall node | 0 <= node < |items|
      ensures a[node] == items[node]
    {
      if node in path {
        var i :| 0 <= i < |path| && path[i] == node;
        PlaceAt(items, path, Gather(items, path), i);
      } else {
        PlaceElsewhere(items, path, Gather(items, path), node);
      }
    }
  }

  lemma {:induction false} EvictSnoc<V>(numLeaves: nat, positions: Positions, path: seq<nat>, capacity: nat,
      stash: seq<Block<V>>, k: nat)
    requires numLeaves >= 1 && AllMapped(positions, stash) && k < |path|
    ensures var (placed, left) := EvictAll(numLeaves, positions, path[..k], capacity, stash);
            EvictAll(numLeaves, positions, path[..k + 1], capacity, stash)
            == var r := Select(numLeaves, positions, path[k], capacity, left); (placed + [r.0], r.1)
  {
    assert path[..k + 1][..k] == path[..k];
  }

  lemma {:induction false} SiblingsFitPath<V>(numLeaves: nat, path: seq<nat>, hashes: seq<Hash<V>>)
    requires LeafPath(numLeaves, path) && |hashes| == 2 * numLeaves
    ensures SiblingsFit(path, hashes)
  {
    forall i | 0 <= i < |path| - 1 ensures path[i] >= 2 && Sibling(path[i]) < |hashes| {
      SiblingsIn(numLeaves, path, i);
    }
  }

  /** The recomputed chain holds the rewritten tree's hashes, its last the new root's. */
  lemma {:induction false} NewHashes<V>(
      numLeaves: nat, path: seq<nat>, placed: seq<Bucket<V>>, hashes: seq<Hash<V>>, before: seq<Bucket<V>>,
          after: seq<Bucket<V>>, chain: seq<Hash<V>>)
    requires LeafPath(numLeaves, path) && PathIn(path, 2 * numLeaves) && |hashes| == |before| == 2 * numLeaves
             && SiblingsFit(path, hashes)
    requires SiblingsHonest(numLeaves, path, hashes, before) && |placed| == |path| == |chain|
             && after == Place(before, path, placed)
    requires forall k {:trigger chain[k]} :: 0 <= k < |path| ==> chain[k] == ChainHash(path, placed, hashes, k)
    ensures chain == TreeHashes(numLeaves, after, path) && chain[|chain| - 1] == TreeHash(numLeaves, after, 1)
  {
    forall k | 0 <= k < |path| ensures chain[k] == TreeHash(numLeaves, after, path[k]) {
      NewChain(numLeaves, path, placed, hashes, before, after, k);
    }
  }

  lemma {:induction false} RefusedVisit<V(!new)>(numLeaves: nat, capacity: nat, s: State<V>, op: Op<V>,
      path: seq<nat>, store: Store<V>, after: State<V>)
    requires Shape(numLeaves, s) && Sized(numLeaves, store) && op.fallback < numLeaves && op.newLeaf < numLeaves
    requires OpPath(numLeaves, s, op, path) && !HonestOn(numLeaves, path, s.buckets, store)
    requires after == s.(positions := s.positions[op.id := op.newLeaf])
    ensures Shape(numLeaves, after)
            && Visits(numLeaves, capacity, s, Visit(op, path, store, Err(IntegrityError), after, store))
  {
    RemappedShape(numLeaves, s, op.id, op.newLeaf);
  }

  /** An access, assembled from what its steps computed. */
  lemma {:induction false} AccessMade<V(!new)>(numLeaves: nat, capacity: nat, s: State<V>, op: Op<V>, leaf: nat,
      positions: Positions, path: seq<nat>, touched: (seq<Block<V>>, Option<V>),
      evicted: (seq<Bucket<V>>, seq<Block<V>>))
    requires Shape(numLeaves, s) && op.fallback < numLeaves && op.newLeaf < numLeaves
    requires leaf == LeafOf(s.positions, op.id, op.fallback) && positions == s.positions[op.id := op.newLeaf]
    requires path == PathFrom(numLeaves + leaf) && PathIn(path, |s.buckets|)
    requires touched == Touch(Gathered(numLeaves, s, leaf), op.id, op.newValue) && AllMapped(positions, touched.0)
    requires evicted == EvictAll(numLeaves, positions, path, capacity, touched.0)
    ensures AccessedTo(numLeaves, capacity, s, op, State(positions, evicted.1, Place(s.buckets, path, evicted.0)),
                       touched.1)
  {
    AccessIs(numLeaves, capacity, s, op.id, op.newValue, op.fallback, op.newLeaf, leaf, positions, path, touched,
        evicted);
  }

  /** An accepted access, assembled from what its steps computed. */
  lemma {:induction false} AcceptedVisit<V(!new)>(
      numLeaves: nat, capacity: nat, s: State<V>, op: Op<V>, path: seq<nat>, store: Store<V>, positions: Positions,
      touched: (seq<Block<V>>, Option<V>), evicted: (seq<Bucket<V>>, seq<Block<V>>), after: State<V>,
          storeAfter: Store<V>)
    requires Shape(numLeaves, s) && Sized(numLeaves, store) && op.fallback < numLeaves && op.newLeaf < numLeaves
    requires OpPath(numLeaves, s, op, path) && HonestOn(numLeaves, path, s.buckets, store)
             && positions == s.positions[op.id := op.newLeaf]
    requires touched == Touch(s.stash + Flatten(Gather(s.buckets, path)), op.id, op.newValue)
             && AllMapped(positions, touched.0)
    requires evicted == EvictAll(numLeaves, positions, path, capacity, touched.0)
    requires after == State(positions, evicted.1, Place(s.buckets, path, evicted.0))
    requires storeAfter == Store(Place(store.buckets, path, evicted.0),
             Place(store.hashes, path, TreeHashes(numLeaves, after.buckets, path)))
    ensures Shape(numLeaves, after)
    ensures Visits(numLeaves, capacity, s, Visit(op, path, store, Ok(touched.1), after, storeAfter))
  {
    AccessedIs(numLeaves, capacity, s, op, positions, path, touched, evicted);
    AccessShape(numLeaves, capacity, s, op, path, positions, touched.0, evicted);
    PlaceBack(s.buckets, path, evicted.0);
  }

  /** One more hash of a chain. */
  lemma {:induction false} ChainStep<V>(numLeaves: nat, path: seq<nat>, contents: seq<Bucket<V>>,
      hashes: seq<Hash<V>>, k: nat)
    requires LeafPath(numLeaves, path) && |contents| == |path| && k < |path| && SiblingsFit(path, hashes)
    ensures path[k] >= numLeaves <==> k == 0
    ensures ChainHash(path, contents, hashes, k)
            == if k == 0 then NodeHash(contents[0], EmptyChild, EmptyChild)
               else if path[k - 1] % 2 == 0 then NodeHash(contents[k], ChainHash(path, contents, hashes, k - 1),
                   hashes[Sibling(path[k - 1])])
               else NodeHash(contents[k], hashes[Sibling(path[k - 1])], ChainHash(path, contents, hashes, k - 1))
  {
    RisingAt(numLeaves, path, k);
  }

  class Client<V(==, !new)> {
    const depth: nat
    const numLeaves: nat
    const server: Server<V>
    var positions: Positions
    var stash: seq<Block<V>>
    var root: Hash<V>
    /** The tree as this client last wrote it. */
    ghost var trusted: seq<Bucket<V>>

    constructor (depth: nat, server: Server<V>)
      ensures this.depth == depth && numLeaves == Pow2(depth) && this.server == server
      ensures positions == map[] && stash == [] && root == EmptyChild
    {
      this.depth := depth;
      numLeaves := Pow2(depth);
      this.server := server;
      positions := map[];
      stash := [];
      root := EmptyChild;
    }

    /** Sizes match; what `new` and every method keep. */
    ghost predicate Fits()
      reads this, server
    {
      numLeaves == Pow2(depth) && |server.buckets| == |server.hashes| == 2 * numLeaves
    }

    /** The state with the server's buckets as they are. */
    ghost function View(): State<V>
      reads this, server
    {
      State(positions, stash, server.buckets)
    }

    /** The state with the tree the root vouches for. */
    ghost function TrustedView(): State<V>
      reads this
    {
      State(positions, stash, trusted)
    }

    ghost function ServerStore(): Store<V>
      reads server
    {
      Store(server.buckets, server.hashes)
    }

    /** Takes from the stash, front to back, the blocks that fit a node, up to its capacity. */
    method SelectFor(node: nat) returns (chosen: Bucket<V>)
      requires numLeaves >= 1 && AllMapped(positions, stash)
      modifies this`stash
      ensures (chosen, stash) == Select(numLeaves, positions, node, server.capacity, old(stash))
    {
      chosen := [];
      var i := 0;
      SelectStarts(numLeaves, positions, node, server.capacity, stash);
      while i < |stash| && |chosen| < server.capacity
        invariant 0 <= i <= |stash| && |chosen| <= server.capacity && AllMapped(positions, stash)
        invariant SelectFrom(numLeaves, positions, node, server.capacity - |chosen|, chosen, stash[..i], stash[i..])
                  == Select(numLeaves, positions, node, server.capacity, old(stash))
        decreases |stash| - i
      {
        SelectTurn(numLeaves, positions, node, server.capacity - |chosen|, chosen, stash[..i], stash[i..]);
        assert stash[i..][1..] == stash[i + 1..] && stash[..i] + [stash[i]] == stash[..i + 1];
        assert Mapped(positions, stash[i]);
        var fits := IsAncestorOfLeaf(numLeaves, node, positions[stash[i].id]);
        if fits {
          chosen := chosen + [stash[i]];
          ghost var passed, rest := stash[..i], stash[i + 1..];
          stash := stash[..i] + stash[i + 1..];
          assert stash[..i] == passed && stash[i..] == rest;
        } else {
          i := i + 1;
        }
      }
      SelectEnds(numLeaves, positions, node, server.capacity - |chosen|, chosen, stash, i);
    }

    /** Reads and clears the given buckets into the stash. */
    method ReadNodes(path: seq<nat>)
      requires |server.buckets| == 2 * numLeaves && PathIn(path, 2 * numLeaves)
      modifies this`stash, server`buckets
      ensures stash == old(stash) + Flatten(Gather(old(server.buckets), path))
      ensures server.buckets == Place(old(server.buckets), path, Empties(|path|))
    {
      ghost var parts := Gather(server.buckets, path);
      ghost var empties := Empties<Block<V>>(|path|);
      for k := 0 to |path|
        invariant |server.buckets| == 2 * numLeaves
        invariant server.buckets == Place(old(server.buckets), path[..k], empties[..k])
        invariant stash == old(stash) + Flatten(parts[..k])
      {
        PrefixIn(path, k, 2 * numLeaves);
        PlaceElsewhere(old(server.buckets), path[..k], empties[..k], path[k]);
        PlaceSnoc(old(server.buckets), path, empties, k);
        AppendPart(old(stash), parts, k);
        var blocks := server.ReadAndClear(path[k]);
        assert blocks == parts[k];
        stash := stash + blocks;
      }
      assert parts[..|path|] == parts && path[..|path|] == path && empties[..|path|] == empties;
    }

    /** Reads and clears every bucket on a leaf's path into the stash. */
    method ReadPathIntoStash(leaf: nat)
      requires Fits() && leaf < numLeaves
      modifies this`stash, server`buckets
      ensures PathIn(PathFrom(numLeaves + leaf), 2 * numLeaves)
      ensures stash == old(Gathered(numLeaves, View(), leaf))
      ensures server.buckets == Place(old(server.buckets), PathFrom(numLeaves + leaf),
              Empties(|PathFrom(numLeaves + leaf)|))
    {
      LeafPathIn(numLeaves, leaf);
      var path := PathNodes(numLeaves, leaf);
      ReadNodes(path);
    }

    /** Greedily evicts the stash onto a path, deepest bucket first. */
    method EvictPath(leaf: nat)
      requires Fits() && leaf < numLeaves && AllMapped(positions, stash)
      modifies this`stash, server`buckets
      ensures PathIn(PathFrom(numLeaves + leaf), 2 * numLeaves)
      ensures var (placed, left) := EvictAll(numLeaves, positions, PathFrom(numLeaves + leaf), server.capacity,
              old(stash));
              stash == left && server.buckets == Place(old(server.buckets), PathFrom(numLeaves + leaf), placed)
    {
      LeafPathIn(numLeaves, leaf);
      var path := PathNodes(numLeaves, leaf);
      ghost var placed: seq<Bucket<V>> := [];
      for k := 0 to |path|
        invariant |server.buckets| == 2 * numLeaves && |placed| == k && AllMapped(positions, stash)
        invariant (placed, stash) == EvictAll(numLeaves, positions, path[..k], server.capacity, old(stash))
        invariant server.buckets == Place(old(server.buckets), path[..k], placed)
      {
        EvictSnoc(numLeaves, positions, path, server.capacity, old(stash), k);
        var chosen := SelectFor(path[k]);
        placed := placed + [chosen];
        assert path[..k + 1][..k] == path[..k] && placed[..k] == placed[..|placed| - 1];
        server.Write(path[k], chosen);
      }
      assert path[..|path|] == path;
    }

    /** Reads or writes one block of the stash. */
    method TouchBlock(id: BlockId, newValue: Option<V>) returns (found: Option<V>)
      modifies this`stash
      ensures (stash, found) == Touch(old(stash), id, newValue)
    {
      var existing := FirstIndex(stash, id);
      found := if existing.Some? then Some(stash[existing.value].value) else None;
      if existing.Some? && newValue.Some? {
        stash := stash[existing.value := Block(id, newValue.value)];
      } else if newValue.Some? {
        stash := stash + [Block(id, newValue.value)];
      }
    }

    /** The rest of an access once its path has been read: touch the block, evict onto the path. */
    method TouchAndEvict(id: BlockId, newValue: Option<V>, leaf: nat, ghost path: seq<nat>,
        ghost whole: seq<Bucket<V>>) returns (found: Option<V>)
      requires Fits() && leaf < numLeaves && path == PathFrom(numLeaves + leaf) && PathIn(path, 2 * numLeaves)
      requires |whole| == 2 * numLeaves && server.buckets == Place(whole, path, Empties(|path|))
      requires AllMapped(positions, Touch(stash, id, newValue).0)
      modifies this`stash, server`buckets
      ensures var touched := Touch(old(stash), id, newValue);
              var evicted := EvictAll(numLeaves, positions, path, server.capacity, touched.0);
              found == touched.1 && stash == evicted.1 && server.buckets == Place(whole, path, evicted.0)
    {
      found := TouchBlock(id, newValue);
      ghost var evicted := EvictAll(numLeaves, positions, path, server.capacity, stash);
      EvictPath(leaf);
      PlaceTwice(whole, path, Empties(|path|), evicted.0);
    }

    /** One access, given the leaf drawn for an unknown id and the leaf drawn for the remapping. */
    method Access(id: BlockId, newValue: Option<V>, fallback: nat, newLeaf: nat) returns (found: Option<V>)
      requires Fits() && Shape(numLeaves, View()) && fallback < numLeaves && newLeaf < numLeaves
      modifies this`positions, this`stash, server`buckets
      ensures Fits()
      ensures (View(), found) == OramRefinement.Access(numLeaves, server.capacity, old(View()), id, newValue,
              fallback, newLeaf)
    {
      ghost var op := Op(id, newValue, fallback, newLeaf);
      found := Perform(id, newValue, fallback, newLeaf, op);
      assert Named(op);
    }

    method Perform(id: BlockId, newValue: Option<V>, fallback: nat, newLeaf: nat,
        ghost op: Op<V>) returns (found: Option<V>)
      requires Fits() && Shape(numLeaves, View()) && fallback < numLeaves && newLeaf < numLeaves
      requires op == Op(id, newValue, fallback, newLeaf)
      modifies this`positions, this`stash, server`buckets
      ensures Fits() && AccessedTo(numLeaves, server.capacity, old(View()), op, View(), found)
    {
      ghost var before := View();
      var leaf := LeafOf(positions, id, fallback);
      GatheredMapped(numLeaves, before, leaf, id, newValue, newLeaf);
      positions := positions[id := newLeaf];
      ReadPathIntoStash(leaf);
      ghost var path := PathFrom(numLeaves + leaf);
      assert stash == Gathered(numLeaves, before, leaf) && |before.buckets| == 2 * numLeaves;
      ghost var touched := Touch(stash, id, newValue);
      assert AllMapped(positions, touched.0);
      found := TouchAndEvict(id, newValue, leaf, path, before.buckets);
      AccessMade(numLeaves, server.capacity, before, op, leaf, positions, path, touched,
          EvictAll(numLeaves, positions, path, server.capacity, touched.0));
    }

    // ----- the verified variant -----

    /** The hashes along a path over the given contents, deepest first, with the siblings' hashes from the server. */
    method RecomputePathHashes(path: seq<nat>, contents: seq<Bucket<V>>) returns (result: seq<Hash<V>>)
      requires LeafPath(numLeaves, path) && |contents| == |path| && |server.hashes| == 2 * numLeaves
               && SiblingsFit(path, server.hashes)
      ensures |result| == |path| && forall k {:trigger result[k]} :: 0 <= k < |path|
                                        ==> result[k] == ChainHash(path, contents, server.hashes, k)
    {
      result := [];
      var current: Option<Hash<V>> := None;
      for k := 0 to |path|
        invariant |result| == k && forall j {:trigger result[j]} :: 0 <= j < k
                                       ==> result[j] == ChainHash(path, contents, server.hashes, j)
        invariant k > 0 ==> current == Some(result[k - 1])
      {
        ChainStep(numLeaves, path, contents, server.hashes, k);
        var node := path[k];
        var hash;
        if node >= numLeaves {
          hash := NodeHash(contents[k], EmptyChild, EmptyChild);
        } else {
          var previous := path[k - 1];
          var sibling := server.hashes[Sibling(previous)];
          hash := if previous % 2 == 0 then NodeHash(contents[k], current.value, sibling)
              else NodeHash(contents[k], sibling, current.value);
        }
        assert hash == ChainHash(path, contents, server.hashes, k);
        result := result + [hash];
        current := Some(hash);
      }
    }

    /** Reads and clears a path, keeping each bucket apart. */
    method TakePath(path: seq<nat>) returns (contents: seq<Bucket<V>>)
      requires |server.buckets| == 2 * numLeaves && PathIn(path, 2 * numLeaves)
      modifies server`buckets
      ensures contents == Gather(old(server.buckets), path)
      ensures server.buckets == Place(old(server.buckets), path, Empties(|path|))
    {
      contents := [];
      ghost var empties := Empties<Block<V>>(|path|);
      for k := 0 to |path|
        invariant |server.buckets| == 2 * numLeaves
                  && server.buckets == Place(old(server.buckets), path[..k], empties[..k])
        invariant |contents| == k && forall j :: 0 <= j < k ==> contents[j] == old(server.buckets)[path[j]]
      {
        PrefixIn(path, k, 2 * numLeaves);
        PlaceElsewhere(old(server.buckets), path[..k], empties[..k], path[k]);
        PlaceSnoc(old(server.buckets), path, empties, k);
        var blocks := server.ReadAndClear(path[k]);
        contents := contents + [blocks];
      }
      assert path[..|path|] == path && empties[..|path|] == empties;
    }

    /** Writes buckets back along a path. */
    method PutPath(path: seq<nat>, contents: seq<Bucket<V>>)
      requires |server.buckets| == 2 * numLeaves && PathIn(path, 2 * numLeaves) && |contents| == |path|
      modifies server`buckets
      ensures server.buckets == Place(old(server.buckets), path, contents)
    {
      for k := 0 to |path|
        invariant |server.buckets| == 2 * numLeaves
                  && server.buckets == Place(old(server.buckets), path[..k], contents[..k])
      {
        PlaceSnoc(old(server.buckets), path, contents, k);
        server.Write(path[k], contents[k]);
      }
      assert path[..|path|] == path && contents[..|path|] == contents;
    }

    /** Writes buckets and their new hashes along a path. */
    method PutPathHashed(path: seq<nat>, contents: seq<Bucket<V>>, newHashes: seq<Hash<V>>)
      requires |server.buckets| == |server.hashes| == 2 * numLeaves && PathIn(path, 2 * numLeaves)
               && |contents| == |newHashes| == |path|
      modifies server`buckets, server`hashes
      ensures server.buckets == Place(old(server.buckets), path, contents)
      ensures server.hashes == Place(old(server.hashes), path, newHashes)
    {
      for k := 0 to |path|
        invariant |server.buckets| == 2 * numLeaves
                  && server.buckets == Place(old(server.buckets), path[..k], contents[..k])
        invariant |server.hashes| == 2 * numLeaves
                  && server.hashes == Place(old(server.hashes), path[..k], newHashes[..k])
      {
        PlaceSnoc(old(server.buckets), path, contents, k);
        PlaceSnoc(old(server.hashes), path, newHashes, k);
        server.Write(path[k], contents[k]);
        server.SetNodeHash(path[k], newHashes[k]);
      }
      assert path[..|path|] == path && contents[..|path|] == contents && newHashes[..|path|] == newHashes;
    }

    /** Chooses what each bucket of a path receives. */
    method ChoosePath(path: seq<nat>) returns (placed: seq<Bucket<V>>)
      requires numLeaves >= 1 && AllMapped(positions, stash)
      modifies this`stash
      ensures (placed, stash) == EvictAll(numLeaves, positions, path, server.capacity, old(stash))
    {
      placed := [];
      for k := 0 to |path|
        invariant |placed| == k && AllMapped(positions, stash)
        invariant (placed, stash) == EvictAll(numLeaves, positions, path[..k], server.capacity, old(stash))
      {
        EvictSnoc(numLeaves, positions, path, server.capacity, old(stash), k);
        var chosen := SelectFor(path[k]);
        placed := placed + [chosen];
      }
      assert path[..|path|] == path;
    }

    /** Appends the buckets of a path to the stash. */
    method Absorb(contents: seq<Bucket<V>>)
      modifies this`stash
      ensures stash == old(stash) + Flatten(contents)
    {
      for k := 0 to |contents|
        invariant stash == old(stash) + Flatten(contents[..k])
      {
        AppendPart(old(stash), contents, k);
        stash := stash + contents[k];
      }
      assert contents[..|contents|] == contents;
    }

    /** The invariant of verified use: the root is the trusted tree's. */
    ghost predicate RootTrusted()
      reads this, server
    {
      Fits() && Shape(numLeaves, TrustedView()) && root == TreeHash(numLeaves, trusted, 1)
    }

    /**
     The checked part of a verified access: takes the path and compares its chain with the root, putting all
     back on a mismatch.
     */
    method TakeChecked(path: seq<nat>) returns (contents: Option<seq<Bucket<V>>>)
      requires |server.buckets| == |server.hashes| == |trusted| == 2 * numLeaves
      requires LeafPath(numLeaves, path) && PathIn(path, 2 * numLeaves) && root == TreeHash(numLeaves, trusted, 1)
      modifies server`buckets
      ensures contents.Some? <==> HonestOn(numLeaves, path, trusted, old(ServerStore()))
      ensures contents.Some? ==> contents.value == Gather(trusted, path)
                                 && server.buckets == Place(old(server.buckets), path, Empties(|path|))
      ensures contents.None? ==> server.buckets == old(server.buckets)
    {
      SiblingsFitPath(numLeaves, path, server.hashes);
      var taken := TakePath(path);
      var meets := MeetsRoot(path, taken);
      if !meets {
        PutPath(path, taken);
        PlaceTwice(old(server.buckets), path, Empties(|path|), taken);
        PlaceRead(old(server.buckets), path);
        return None;
      }
      return Some(taken);
    }

    /** Whether the hash chain over the given contents ends in the trusted root. */
    method MeetsRoot(path: seq<nat>, contents: seq<Bucket<V>>) returns (meets: bool)
      requires |server.hashes| == |trusted| == 2 * numLeaves && |contents| == |path|
      requires LeafPath(numLeaves, path) && PathIn(path, 2 * numLeaves) && SiblingsFit(path, server.hashes)
      requires root == TreeHash(numLeaves, trusted, 1)
      ensures meets <==> contents == Gather(trusted, path) && SiblingsHonest(numLeaves, path, server.hashes, trusted)
    {
      var chain := RecomputePathHashes(path, contents);
      RootPins(numLeaves, path, contents, server.hashes, trusted);
      meets := chain[|chain| - 1] == root;
    }

    /** The writing part: the chosen buckets, their hashes and the new root. */
    method PutChecked(path: seq<nat>, placed: seq<Bucket<V>>)
      requires |server.buckets| == |server.hashes| == |trusted| == 2 * numLeaves && |placed| == |path|
      requires LeafPath(numLeaves, path) && PathIn(path, 2 * numLeaves)
      requires SiblingsHonest(numLeaves, path, server.hashes, trusted)
      modifies this`root, this`trusted, server`buckets, server`hashes
      ensures trusted == Place(old(trusted), path, placed) && root == TreeHash(numLeaves, trusted, 1)
      ensures server.buckets == Place(old(server.buckets), path, placed)
      ensures server.hashes == Place(old(server.hashes), path, TreeHashes(numLeaves, trusted, path))
    {
      SiblingsFitPath(numLeaves, path, server.hashes);
      var chain := RecomputePathHashes(path, placed);
      ghost var before := trusted;
      trusted := Place(trusted, path, placed);
      NewHashes(numLeaves, path, placed, server.hashes, before, trusted, chain);
      root := chain[|chain| - 1];
      PutPathHashed(path, placed, chain);
    }

    /** From the checked contents of a path to the rewritten one: absorb, touch the block, choose, write back. */
    method Rewrite(id: BlockId, newValue: Option<V>, path: seq<nat>,
        contents: seq<Bucket<V>>) returns (found: Option<V>, placed: seq<Bucket<V>>)
      requires |server.buckets| == |server.hashes| == |trusted| == 2 * numLeaves
      requires LeafPath(numLeaves, path) && PathIn(path, 2 * numLeaves)
               && SiblingsHonest(numLeaves, path, server.hashes, trusted)
      requires AllMapped(positions, Touch(stash + Flatten(contents), id, newValue).0)
      modifies this`stash, this`root, this`trusted, server`buckets, server`hashes
      ensures var touched := Touch(old(stash) + Flatten(contents), id, newValue);
              found == touched.1 && (placed, stash) == EvictAll(numLeaves, positions, path, server.capacity, touched.0)
      ensures trusted == Place(old(trusted), path, placed) && root == TreeHash(numLeaves, trusted, 1)
      ensures server.buckets == Place(old(server.buckets), path, placed)
      ensures server.hashes == Place(old(server.hashes), path, TreeHashes(numLeaves, trusted, path))
    {
      Absorb(contents);
      found := TouchBlock(id, newValue);
      placed := ChoosePath(path);
      PutChecked(path, placed);
    }

    /** The rest of a verified access once the path has been taken and found honest. */
    method Accept(ghost before: State<V>, ghost store: Store<V>, op: Op<V>, path: seq<nat>,
        contents: seq<Bucket<V>>) returns (found: Option<V>)
      requires Shape(numLeaves, before) && op.fallback < numLeaves && op.newLeaf < numLeaves && Sized(numLeaves, store)
      requires OpPath(numLeaves, before, op, path) && HonestOn(numLeaves, path, before.buckets, store)
               && contents == Gather(before.buckets, path)
      requires positions == before.positions[op.id := op.newLeaf] && stash == before.stash && trusted == before.buckets
      requires server.buckets == Place(store.buckets, path, Empties(|path|)) && server.hashes == store.hashes
      modifies this`stash, this`root, this`trusted, server`buckets, server`hashes
      ensures Shape(numLeaves, TrustedView()) && Sized(numLeaves, ServerStore())
              && root == TreeHash(numLeaves, trusted, 1)
      ensures Visits(numLeaves, server.capacity, before,
              Visit(op, path, store, Ok(found), TrustedView(), ServerStore()))
    {
      TouchedMapped(numLeaves, before, op, path);
      ghost var touched := Touch(before.stash + Flatten(contents), op.id, op.newValue);
      var placed;
      found, placed := Rewrite(op.id, op.newValue, path, contents);
      PlaceTwice(store.buckets, path, Empties(|path|), placed);
      AcceptedVisit(numLeaves, server.capacity, before, op, path, store, positions, touched, (placed, stash),
          TrustedView(), ServerStore());
    }

    /** The nodes an operation visits. */
    method OperationNodes(op: Op<V>) returns (path: seq<nat>)
      requires Fits() && Shape(numLeaves, TrustedView()) && op.fallback < numLeaves
      ensures OpPath(numLeaves, TrustedView(), op, path)
    {
      OperationPath(depth, numLeaves, TrustedView(), op);
      path := PathNodes(numLeaves, LeafOf(positions, op.id, op.fallback));
    }

    /** One verified access against whatever the server now holds. */
    method VerifiedAccess(id: BlockId, newValue: Option<V>, fallback: nat, newLeaf: nat)
        returns (result: Result<Option<V>, IntegrityError>, ghost path: seq<nat>)
      requires RootTrusted() && fallback < numLeaves && newLeaf < numLeaves
      modifies this`positions, this`stash, this`root, this`trusted, server`buckets, server`hashes
      ensures RootTrusted()
      ensures Visits(numLeaves, server.capacity, old(TrustedView()),
                     Visit(Op(id, newValue, fallback, newLeaf), path, old(ServerStore()), result, TrustedView(),
                         ServerStore()))
    {
      var op := Op(id, newValue, fallback, newLeaf);
      ghost var before, store := TrustedView(), ServerStore();
      var nodes := OperationNodes(op);
      path := nodes;
      positions := positions[id := newLeaf];
      assert ServerStore() == store;
      var taken := TakeChecked(nodes);
      if taken.None? {
        RefusedVisit(numLeaves, server.capacity, before, op, path, store, TrustedView());
        result := Err(IntegrityError);
      } else {
        var found := Accept(before, store, op, nodes, taken.value);
        result := Ok(found);
      }
    }

    /** Seeds every hash of an empty tree and the root. */
    method InitEmptyRoot()
      requires Fits()
      modifies this`root, this`trusted, server`hashes
      ensures Fits() && trusted == Empties(2 * numLeaves) && root == TreeHash(numLeaves, trusted, 1)
      ensures forall node :: 1 <= node < 2 * numLeaves ==> server.hashes[node] == TreeHash(numLeaves, trusted, node)
    {
      trusted := Empties(2 * numLeaves);
      var node := numLeaves;
      while node < 2 * numLeaves
        invariant numLeaves <= node <= 2 * numLeaves && |server.hashes| == 2 * numLeaves
                  && trusted == Empties(2 * numLeaves)
        invariant forall n :: numLeaves <= n < node ==> server.hashes[n] == TreeHash(numLeaves, trusted, n)
      {
        server.SetNodeHash(node, NodeHash([], EmptyChild, EmptyChild));
        node := node + 1;
      }
      node := numLeaves;
      while node > 1
        invariant 1 <= node <= numLeaves && |server.hashes| == 2 * numLeaves && trusted == Empties(2 * numLeaves)
        invariant forall n :: node <= n < 2 * numLeaves ==> server.hashes[n] == TreeHash(numLeaves, trusted, n)
      {
        node := node - 1;
        server.SetNodeHash(node, NodeHash([], server.hashes[2 * node], server.hashes[2 * node + 1]));
      }
      root := server.hashes[1];
    }
  }

  /** A store for at least `leaves` leaves over a fresh server, ready for verified use. */
  method NewVerified<V(==, !new)>(leaves: nat, capacity: nat) returns (client: Client<V>)
    requires 1 <= leaves <= Pow2(MAX_DEPTH) && capacity >= 1
    ensures fresh(client) && fresh(client.server) && client.server.capacity == capacity && leaves <= client.numLeaves
    ensures client.RootTrusted() && Honest(client.numLeaves, client.TrustedView(), client.ServerStore())
    ensures Inv(client.numLeaves, capacity, client.TrustedView(), map[])
  {
    var depth := DepthForCapacity(leaves);
    var server := new Server<V>(2 * Pow2(depth), capacity);
    client := new Client<V>(depth, server);
    client.InitEmptyRoot();
    EmptyInv<V>(client.numLeaves, capacity);
    assert client.TrustedView() == Empty(client.numLeaves);
  }
}
