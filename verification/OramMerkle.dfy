/**
 The Merkle tree over the bucket tree (crates/oram/src/lib.rs). Hashes are free
 terms: equal hashes have equal contents.
 */
module OramMerkle {
  import opened Wrappers
  import opened Powers
  import opened OramTree
  import opened OramSpec
  import opened OramRefinement

  /** The all-zero sentinel, a node's hash, or any other 32 bytes. */
  datatype Hash<V> = EmptyChild | NodeHash(bucket: Bucket<V>, left: Hash<V>, right: Hash<V>) | Foreign(tag: nat)

  /** The hash of the subtree below a node. */
  function TreeHash<V>(numLeaves: nat, buckets: seq<Bucket<V>>, node: nat): Hash<V>
    requires numLeaves >= 1 && |buckets| == 2 * numLeaves && 1 <= node < 2 * numLeaves
    decreases 2 * numLeaves - node
  {
    if node >= numLeaves then NodeHash(buckets[node], EmptyChild, EmptyChild)
    else NodeHash(buckets[node], TreeHash(numLeaves, buckets, 2 * node), TreeHash(numLeaves, buckets, 2 * node + 1))
  }

  /** The hash chain along a path: its buckets' contents, and the sibling hashes from `hashes`. */
  function ChainHash<V>(path: seq<nat>, contents: seq<Bucket<V>>, hashes: seq<Hash<V>>, k: nat): Hash<V>
    requires k < |path| == |contents|
    requires forall i :: 0 <= i < |path| - 1 ==> path[i] >= 2 && Sibling(path[i]) < |hashes|
  {
    if k == 0 then NodeHash(contents[0], EmptyChild, EmptyChild)
    else
      var current, sibling := ChainHash(path, contents, hashes, k - 1), hashes[Sibling(path[k - 1])];
      if path[k - 1] % 2 == 0 then NodeHash(contents[k], current, sibling) else NodeHash(contents[k], sibling, current)
  }

  predicate Parent(child: nat, node: nat) {
    child >= 2 && node == child / 2
  }

  /** A walk that starts at a leaf and goes to a parent at each step. */
  ghost predicate Rising(numLeaves: nat, path: seq<nat>)
    decreases |path|
  {
    var last := |path| - 1;
    && path != []
    && if last == 0 then numLeaves <= path[0] < 2 * numLeaves
       else 1 <= path[last] < numLeaves && Parent(path[last - 1], path[last]) && Rising(numLeaves, path[..last])
  }

  /** The path of a leaf. */
  ghost predicate LeafPath(numLeaves: nat, path: seq<nat>) {
    numLeaves >= 1 && Rising(numLeaves, path) && path[|path| - 1] == 1
  }

  lemma {:induction false} RisingAt(numLeaves: nat, path: seq<nat>, k: nat)
    requires Rising(numLeaves, path) && k < |path| && numLeaves >= 1
    ensures 1 <= path[k] < 2 * numLeaves && (path[k] >= numLeaves <==> k == 0)
    ensures k > 0 ==> Parent(path[k - 1], path[k])
    ensures path[k] == Rise(path[0], k)
    decreases |path|
  {
    var last := |path| - 1;
    if k < last {
      RisingAt(numLeaves, path[..last], k);
    } else if last > 0 {
      RisingAt(numLeaves, path[..last], last - 1);
    }
  }

  lemma {:induction false} HeightIs(n: nat, k: nat)
    requires n >= 1 && Rise(n, k) == 1 && forall j :: 0 <= j < k ==> Rise(n, j) >= 2
    ensures Height(n) == k + 1
    decreases k
  {
    if k > 0 {
      assert Rise(n, 0) >= 2;
      forall j | 0 <= j < k ensures Rise(n, j + 1) == Rise(n / 2, j) {
        RiseFront(n, j);
      }
      assert forall j :: 0 <= j < k - 1 ==> Rise(n / 2, j) == Rise(n, j + 1);
      HeightIs(n / 2, k - 1);
    }
  }

  /** A leaf's path is determined by the leaf. */
  lemma {:induction false} LeafPathFrom(numLeaves: nat, path: seq<nat>)
    requires LeafPath(numLeaves, path)
    ensures path[0] >= 1 && path == PathFrom(path[0]) && PathIn(path, 2 * numLeaves)
  {
    var last := |path| - 1;
    forall k | 0 <= k < |path| ensures path[k] == Rise(path[0], k) && 1 <= path[k] < 2 * numLeaves
        && (k < last ==> path[k] >= 2) {
      RisingAt(numLeaves, path, k);
      if k < last { RisingAt(numLeaves, path, k + 1); }
    }
    HeightIs(path[0], last);
    LeafPathIn(numLeaves, path[0] - numLeaves) by { RisingAt(numLeaves, path, 0); }
  }

  lemma {:induction false} PathRises(numLeaves: nat, n: nat, m: nat)
    requires numLeaves >= 1 && numLeaves <= n < 2 * numLeaves && 0 < m <= |PathFrom(n)|
    requires forall k :: 0 < k < |PathFrom(n)| ==> 1 <= PathFrom(n)[k] < numLeaves
    ensures Rising(numLeaves, PathFrom(n)[..m])
    decreases m
  {
    if m > 1 {
      PathHalves(n, m - 2);
      PathRises(numLeaves, n, m - 1);
      assert PathFrom(n)[..m][..m - 1] == PathFrom(n)[..m - 1];
    }
  }

  lemma {:induction false} LeafPathIs(depth: nat, numLeaves: nat, leaf: nat)
    requires numLeaves == Pow2(depth) && leaf < numLeaves
    ensures LeafPath(numLeaves, PathFrom(numLeaves + leaf))
  {
    var path := PathFrom(numLeaves + leaf);
    PathLength(depth, numLeaves + leaf);
    forall k | 0 < k < |path| ensures 1 <= path[k] < numLeaves {
      PathSuffix(numLeaves + leaf, k);
    }
    PathRises(numLeaves, numLeaves + leaf, |path|);
    assert path[..|path|] == path;
  }

  lemma {:induction false} SiblingsIn(numLeaves: nat, path: seq<nat>, i: nat)
    requires LeafPath(numLeaves, path) && i < |path| - 1
    ensures path[i] >= 2 && Sibling(path[i]) < 2 * numLeaves
  {
    RisingAt(numLeaves, path, i + 1);
    RisingAt(numLeaves, path, i);
  }

  ghost predicate SiblingsFit<V>(path: seq<nat>, hashes: seq<Hash<V>>) {
    forall i :: 0 <= i < |path| - 1 ==> path[i] >= 2 && Sibling(path[i]) < |hashes|
  }

  /** The sibling hashes are those of the honest tree. */
  ghost predicate SiblingsHonest<V>(numLeaves: nat, path: seq<nat>, hashes: seq<Hash<V>>, honest: seq<Bucket<V>>)
    requires |hashes| == |honest| == 2 * numLeaves && numLeaves >= 1
  {
    forall i :: 0 <= i < |path| - 1 ==> SiblingHonest(numLeaves, path[i], hashes, honest)
  }

  ghost predicate SiblingHonest<V>(numLeaves: nat, node: nat, hashes: seq<Hash<V>>, honest: seq<Bucket<V>>)
    requires |hashes| == |honest| == 2 * numLeaves && numLeaves >= 1
  {
    && node >= 2 && Sibling(node) < 2 * numLeaves
    && hashes[Sibling(node)] == TreeHash(numLeaves, honest, Sibling(node))
  }

  /** A node's tree hash from its two children on a path and its sibling. */
  lemma {:induction false} HashFromChild<V>(numLeaves: nat, honest: seq<Bucket<V>>, child: nat)
    requires numLeaves >= 1 && |honest| == 2 * numLeaves && 2 <= child < 2 * numLeaves && child / 2 < numLeaves
    ensures Sibling(child) < 2 * numLeaves
    ensures TreeHash(numLeaves, honest, child / 2)
            == if child % 2 == 0 then NodeHash(honest[child / 2], TreeHash(numLeaves, honest, child),
                TreeHash(numLeaves, honest, Sibling(child)))
               else NodeHash(honest[child / 2], TreeHash(numLeaves, honest, Sibling(child)),
                   TreeHash(numLeaves, honest, child))
  {
  }

  /** The chain has reached the honest hash of its `k`-th node; the hashes are looked into one link at a time. */
  ghost predicate Reaches<V>(numLeaves: nat, path: seq<nat>, contents: seq<Bucket<V>>, hashes: seq<Hash<V>>,
      honest: seq<Bucket<V>>, k: nat)
    requires LeafPath(numLeaves, path) && PathIn(path, 2 * numLeaves) && |hashes| == |honest| == 2 * numLeaves
             && SiblingsFit(path, hashes) && k < |path| == |contents|
  {
    forall u: nat {:trigger LookInto(u)} :: u == k ==>
      ChainHash(path, contents, hashes, u) == TreeHash(numLeaves, honest, path[u])
  }

  /** One link of the chain pins its bucket, the sibling beside the child, and the child's hash. */
  lemma {:induction false} LinkPins<V>(
      numLeaves: nat, path: seq<nat>, contents: seq<Bucket<V>>, hashes: seq<Hash<V>>, honest: seq<Bucket<V>>, k: nat)
    requires LeafPath(numLeaves, path) && PathIn(path, 2 * numLeaves) && |hashes| == |honest| == 2 * numLeaves
             && SiblingsFit(path, hashes) && 0 < k < |path| == |contents|
    requires Reaches(numLeaves, path, contents, hashes, honest, k)
    ensures contents[k] == honest[path[k]]
    ensures SiblingHonest(numLeaves, path[k - 1], hashes, honest)
    ensures Reaches(numLeaves, path, contents, hashes, honest, k - 1)
  {
    assert LookInto(k);
    RisingAt(numLeaves, path, k);
    RisingAt(numLeaves, path, k - 1);
    HashFromChild(numLeaves, honest, path[k - 1]);
  }

  /** A chain that reaches the honest hash of a node pins the path below it and every sibling beside it. */
  lemma {:induction false} ChainPins<V>(
      numLeaves: nat, path: seq<nat>, contents: seq<Bucket<V>>, hashes: seq<Hash<V>>, honest: seq<Bucket<V>>, k: nat)
    requires LeafPath(numLeaves, path) && PathIn(path, 2 * numLeaves) && |hashes| == |honest| == 2 * numLeaves
             && SiblingsFit(path, hashes) && k < |path| == |contents|
    requires Reaches(numLeaves, path, contents, hashes, honest, k)
    ensures forall i :: 0 <= i <= k ==> contents[i] == honest[path[i]]
    ensures forall i :: 0 <= i < k ==> SiblingHonest(numLeaves, path[i], hashes, honest)
    decreases k
  {
    if k > 0 {
      LinkPins(numLeaves, path, contents, hashes, honest, k);
      ChainPins(numLeaves, path, contents, hashes, honest, k - 1);
    } else {
      assert LookInto(0);
      RisingAt(numLeaves, path, 0);
    }
  }

  /** One link over an honest child and sibling is the node's own hash. */
  lemma {:induction false} LinkBuilds<V>(
      numLeaves: nat, path: seq<nat>, contents: seq<Bucket<V>>, hashes: seq<Hash<V>>, honest: seq<Bucket<V>>, k: nat)
    requires LeafPath(numLeaves, path) && PathIn(path, 2 * numLeaves) && |hashes| == |honest| == 2 * numLeaves
             && SiblingsFit(path, hashes) && 0 < k < |path| == |contents|
    requires contents[k] == honest[path[k]] && SiblingHonest(numLeaves, path[k - 1], hashes, honest)
    requires ChainHash(path, contents, hashes, k - 1) == TreeHash(numLeaves, honest, path[k - 1])
    ensures ChainHash(path, contents, hashes, k) == TreeHash(numLeaves, honest, path[k])
  {
    RisingAt(numLeaves, path, k);
    RisingAt(numLeaves, path, k - 1);
    HashFromChild(numLeaves, honest, path[k - 1]);
  }

  /** With honest siblings the chain of a tree's own contents is the tree's hash. */
  lemma {:induction false} ChainIsTree<V>(
      numLeaves: nat, path: seq<nat>, contents: seq<Bucket<V>>, hashes: seq<Hash<V>>, honest: seq<Bucket<V>>, k: nat)
    requires LeafPath(numLeaves, path) && PathIn(path, 2 * numLeaves) && |hashes| == |honest| == 2 * numLeaves
             && SiblingsFit(path, hashes) && k < |path| == |contents|
    requires forall i :: 0 <= i < |path| ==> contents[i] == honest[path[i]]
    requires SiblingsHonest(numLeaves, path, hashes, honest)
    ensures ChainHash(path, contents, hashes, k) == TreeHash(numLeaves, honest, path[k])
    decreases k
  {
    if k > 0 {
      ChainIsTree(numLeaves, path, contents, hashes, honest, k - 1);
      LinkBuilds(numLeaves, path, contents, hashes, honest, k);
    } else {
      RisingAt(numLeaves, path, 0);
    }
  }

  /** Trees that agree below a node have the same hash there. */
  lemma {:induction false} TreeHashAgrees<V>(numLeaves: nat, a: seq<Bucket<V>>, b: seq<Bucket<V>>, node: nat)
    requires numLeaves >= 1 && |a| == |b| == 2 * numLeaves && 1 <= node < 2 * numLeaves
    requires forall n :: 1 <= n < 2 * numLeaves && IsAncestor(node, n) ==> a[n] == b[n]
    ensures TreeHash(numLeaves, a, node) == TreeHash(numLeaves, b, node)
    decreases 2 * numLeaves - node
  {
    assert IsAncestor(node, node);
    if node < numLeaves {
      forall child, n | child in {2 * node, 2 * node + 1} && 1 <= n < 2 * numLeaves && IsAncestor(child, n)
        ensures IsAncestor(node, n)
      {
        assert IsAncestor(node, child);
        AncestorTransitive(node, child, n);
      }
      TreeHashAgrees(numLeaves, a, b, 2 * node);
      TreeHashAgrees(numLeaves, a, b, 2 * node + 1);
    }
  }

  /** Rewriting a leaf's path leaves every sibling subtree, hence its hash, as it was. */
  lemma {:induction false} SiblingUntouched<V>(numLeaves: nat, path: seq<nat>, honest: seq<Bucket<V>>,
      placed: seq<Bucket<V>>, i: nat)
    requires LeafPath(numLeaves, path) && PathIn(path, 2 * numLeaves) && |honest| == 2 * numLeaves
             && |placed| == |path| && i < |path| - 1
    ensures path[i] >= 2 && Sibling(path[i]) < 2 * numLeaves
    ensures TreeHash(numLeaves, Place(honest, path, placed), Sibling(path[i]))
            == TreeHash(numLeaves, honest, Sibling(path[i]))
  {
    SiblingsIn(numLeaves, path, i);
    var sibling := Sibling(path[i]);
    forall n | 1 <= n < 2 * numLeaves && IsAncestor(sibling, n)
      ensures Place(honest, path, placed)[n] == honest[n]
    {
      OffSibling(numLeaves, path, i, n);
      PlaceElsewhere(honest, path, placed, n);
    }
    TreeHashAgrees(numLeaves, Place(honest, path, placed), honest, sibling);
  }

  lemma {:induction false} OffSibling(numLeaves: nat, path: seq<nat>, i: nat, n: nat)
    requires LeafPath(numLeaves, path) && i < |path| - 1 && n >= 1
    requires path[i] >= 2 && IsAncestor(Sibling(path[i]), n)
    ensures n !in path
  {
    LeafPathFrom(numLeaves, path);
    if n in path {
      var j :| 0 <= j < |path| && path[j] == n;
      SiblingOffPath(path[0], i, j);
    }
  }

  /** An access whose chain meets the trusted root read exactly the honest buckets and honest siblings. */
  lemma {:induction false} RootPins<V>(numLeaves: nat, path: seq<nat>, contents: seq<Bucket<V>>, hashes: seq<Hash<V>>,
      honest: seq<Bucket<V>>)
    requires LeafPath(numLeaves, path) && PathIn(path, 2 * numLeaves) && |hashes| == |honest| == 2 * numLeaves
    requires SiblingsFit(path, hashes) && |contents| == |path|
    ensures ChainHash(path, contents, hashes, |path| - 1) == TreeHash(numLeaves, honest, 1)
            <==> contents == Gather(honest, path) && SiblingsHonest(numLeaves, path, hashes, honest)
  {
    var last := |path| - 1;
    if ChainHash(path, contents, hashes, last) == TreeHash(numLeaves, honest, path[last]) {
      assert Reaches(numLeaves, path, contents, hashes, honest, last);
      ChainPins(numLeaves, path, contents, hashes, honest, last);
    }
    if contents == Gather(honest, path) && SiblingsHonest(numLeaves, path, hashes, honest) {
      ChainIsTree(numLeaves, path, contents, hashes, honest, last);
    }
  }

  /** The chain recomputed over the new contents is the rewritten tree's own, at every node of the path. */
  lemma {:induction false} NewChain<V>(numLeaves: nat, path: seq<nat>, placed: seq<Bucket<V>>, hashes: seq<Hash<V>>,
      honest: seq<Bucket<V>>, after: seq<Bucket<V>>, k: nat)
    requires LeafPath(numLeaves, path) && PathIn(path, 2 * numLeaves) && |hashes| == |honest| == 2 * numLeaves
             && SiblingsFit(path, hashes)
    requires SiblingsHonest(numLeaves, path, hashes, honest) && k < |placed| == |path|
             && after == Place(honest, path, placed)
    ensures ChainHash(path, placed, hashes, k) == TreeHash(numLeaves, after, path[k])
  {
    forall i | 0 <= i < |path| - 1
      ensures SiblingHonest(numLeaves, path[i], hashes, after)
    {
      assert SiblingHonest(numLeaves, path[i], hashes, honest);
      SiblingUntouched(numLeaves, path, honest, placed, i);
    }
    forall i | 0 <= i < |path| ensures placed[i] == after[path[i]] {
      PlaceAt(honest, path, placed, i);
    }
    ChainIsTree(numLeaves, path, placed, hashes, after, k);
  }
}
