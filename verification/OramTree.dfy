/** The bucket tree of the oblivious store: heap numbering with the root at 1 (crates/oram/src/lib.rs). */
module OramTree {
  import opened Powers

  const MAX_DEPTH: nat := 40

  function RoundedUp(leaves: nat): (depth: nat)
    ensures leaves <= Pow2(depth) && (depth > 0 ==> Pow2(depth - 1) < leaves)
    decreases leaves
  {
    if leaves <= 1 then 0 else 1 + RoundedUp((leaves + 1) / 2)
  }

  /** The depth of the smallest tree with at least the given number of leaves; asking for more than fit panics. */
  function DepthForCapacity(leaves: nat): (depth: nat)
    requires leaves <= Pow2(MAX_DEPTH)
    ensures leaves <= Pow2(depth) && (depth > 0 ==> Pow2(depth - 1) < leaves) && depth <= MAX_DEPTH
  {
    var depth := RoundedUp(leaves);
    assert depth <= MAX_DEPTH by {
      if depth - 1 > MAX_DEPTH { Pow2Below(MAX_DEPTH, depth - 1); }
    }
    depth
  }

  /** The node `k` levels above. */
  function Rise(node: nat, k: nat): nat {
    if k == 0 then node else Rise(node, k - 1) / 2
  }

  /** How many nodes there are from `node` to the root. */
  function Height(node: nat): (h: nat)
    requires node >= 1
    ensures h >= 1
  {
    if node == 1 then 1 else 1 + Height(node / 2)
  }

  lemma {:induction false} RiseFront(node: nat, k: nat)
    ensures Rise(node, k + 1) == Rise(node / 2, k)
    decreases k
  {
    if k > 0 {
      RiseFront(node, k - 1);
    }
  }

  lemma {:induction false} RiseTop(node: nat)
    requires node >= 1
    ensures Rise(node, Height(node) - 1) == 1
    decreases node
  {
    if node > 1 {
      RiseTop(node / 2);
      RiseFront(node, Height(node / 2) - 1);
    }
  }

  /** The nodes from `node` up to the root. */
  function PathFrom(node: nat): (path: seq<nat>)
    requires node >= 1
    ensures |path| == Height(node) && path[0] == node && path[|path| - 1] == 1
  {
    RiseTop(node);
    seq(Height(node), k requires 0 <= k < Height(node) => Rise(node, k))
  }

  lemma {:induction false} PathTail(node: nat)
    requires node > 1
    ensures PathFrom(node) == [node] + PathFrom(node / 2)
  {
    forall k | 0 <= k < Height(node / 2) ensures Rise(node, k + 1) == Rise(node / 2, k) {
      RiseFront(node, k);
    }
    assert forall k :: 0 < k < Height(node) ==> PathFrom(node)[k] == Rise(node, (k - 1) + 1);
  }

  predicate IsAncestor(node: nat, of: nat)
    requires of >= 1
    decreases of
  {
    of == node || (of > 1 && IsAncestor(node, of / 2))
  }

  /** The same walk, looking for one node. */
  method IsAncestorOfLeaf(numLeaves: nat, node: nat, leaf: nat) returns (found: bool)
    requires numLeaves >= 1
    ensures found <==> IsAncestor(node, numLeaves + leaf)
  {
    var n := numLeaves + leaf;
    while true
      invariant n >= 1 && (IsAncestor(node, numLeaves + leaf) <==> IsAncestor(node, n))
      decreases n
    {
      if n == node {
        return true;
      }
      if n == 1 {
        return false;
      }
      n := n / 2;
    }
  }

  // ----- geometry -----

  lemma {:induction false} PathSuffix(n: nat, k: nat)
    requires n >= 1 && k < |PathFrom(n)|
    ensures PathFrom(n)[k] >= 1 && PathFrom(n)[k..] == PathFrom(PathFrom(n)[k])
    decreases k
  {
    if k > 0 {
      PathTail(n);
      PathSuffix(n / 2, k - 1);
      assert PathFrom(n)[k..] == PathFrom(n / 2)[k - 1..];
    }
  }

  lemma {:induction false} PathHalves(n: nat, k: nat)
    requires n >= 1 && k + 1 < |PathFrom(n)|
    ensures PathFrom(n)[k] > 1 && PathFrom(n)[k + 1] == PathFrom(n)[k] / 2
    decreases k
  {
    PathTail(n);
    if k > 0 {
      PathHalves(n / 2, k - 1);
    }
  }

  /** The walk from a leaf to the root. */
  method PathNodes(numLeaves: nat, leaf: nat) returns (path: seq<nat>)
    requires numLeaves >= 1
    ensures path == PathFrom(numLeaves + leaf)
  {
    var node := numLeaves + leaf;
    ghost var whole := PathFrom(node);
    path := [node];
    while node > 1
      invariant 1 <= |path| <= |whole| && forall k :: 0 <= k < |path| ==> path[k] == whole[k]
      invariant node == whole[|path| - 1] >= 1
      decreases node
    {
      PathStep(numLeaves + leaf, |path| - 1);
      PathSuffix(numLeaves + leaf, |path|);
      node := node / 2;
      path := path + [node];
    }
    PathStep(numLeaves + leaf, |path| - 1);
  }

  /** The root, and only the root, ends a path. */
  lemma {:induction false} PathStep(n: nat, k: nat)
    requires n >= 1 && k < |PathFrom(n)|
    ensures k + 1 == |PathFrom(n)| <==> PathFrom(n)[k] == 1
    ensures k + 1 < |PathFrom(n)| ==> PathFrom(n)[k + 1] == PathFrom(n)[k] / 2
  {
    if k + 1 < |PathFrom(n)| {
      PathHalves(n, k);
    }
  }

  lemma {:induction false} PathDecreases(n: nat, i: nat, j: nat)
    requires n >= 1 && i < j < |PathFrom(n)|
    ensures PathFrom(n)[j] < PathFrom(n)[i]
    decreases j
  {
    PathHalves(n, j - 1);
    if i < j - 1 {
      PathDecreases(n, i, j - 1);
    }
  }

  /** The path holds exactly the ancestors. */
  lemma {:induction false} PathIsAncestors(n: nat, node: nat)
    requires n >= 1
    ensures node in PathFrom(n) <==> IsAncestor(node, n)
    decreases n
  {
    if n > 1 {
      PathIsAncestors(n / 2, node);
      PathTail(n);
    }
  }

  lemma {:induction false} AncestorTransitive(a: nat, b: nat, c: nat)
    requires b >= 1 && c >= 1 && IsAncestor(a, b) && IsAncestor(b, c)
    ensures IsAncestor(a, c)
    decreases c
  {
    if b != c {
      AncestorTransitive(a, b, c / 2);
    }
  }

  lemma {:induction false} AncestorBounds(a: nat, n: nat)
    requires n >= 1 && IsAncestor(a, n)
    ensures 1 <= a <= n
    decreases n
  {
    if a != n {
      AncestorBounds(a, n / 2);
    }
  }

  /** What can go into a deeper bucket of a path can go into every higher one. */
  lemma {:induction false} PathNested(n: nat, i: nat, j: nat, leaf: nat)
    requires n >= 1 && leaf >= 1 && i <= j < |PathFrom(n)| && IsAncestor(PathFrom(n)[i], leaf)
    ensures IsAncestor(PathFrom(n)[j], leaf)
  {
    PathSuffix(n, i);
    var p := PathFrom(n);
    assert p[j] == p[i..][j - i];
    PathIsAncestors(p[i], p[j]);
    AncestorTransitive(p[j], p[i], leaf);
  }

  /** A leaf's path has one node for each level. */
  lemma {:induction false} PathLength(depth: nat, n: nat)
    requires Pow2(depth) <= n < 2 * Pow2(depth)
    ensures |PathFrom(n)| == depth + 1
    ensures forall k :: 0 < k <= depth ==> PathFrom(n)[k] < Pow2(depth)
    decreases depth
  {
    if depth > 0 {
      PathLength(depth - 1, n / 2);
      PathTail(n);
      forall k | 0 < k <= depth ensures PathFrom(n)[k] <= n / 2 {
        if k > 1 { PathDecreases(n, 1, k); }
      }
    }
  }

  function Sibling(node: nat): (r: nat)
    requires node >= 2
    ensures r != node && r >= 2 && r / 2 == node / 2 && (r % 2 == 0 <==> node % 2 == 1)
  {
    if node % 2 == 0 then node + 1 else node - 1
  }

  lemma {:induction false} OneNodePerLevel(n: nat, i: nat, k: nat)
    requires n >= 1 && i + 1 < |PathFrom(n)| && k + 1 < |PathFrom(n)| && PathFrom(n)[i] / 2 == PathFrom(n)[k] / 2
    ensures i == k
  {
    PathHalves(n, i);
    PathHalves(n, k);
    if i < k { PathDecreases(n, i + 1, k + 1); }
    if k < i { PathDecreases(n, k + 1, i + 1); }
  }

  lemma {:induction false} SiblingNotOnPath(n: nat, k: nat, i: nat)
    requires n >= 1 && k + 1 < |PathFrom(n)| && i < |PathFrom(n)|
    ensures PathFrom(n)[k] >= 2 && PathFrom(n)[i] != Sibling(PathFrom(n)[k])
  {
    PathHalves(n, k);
    if PathFrom(n)[i] == Sibling(PathFrom(n)[k]) {
      OneNodePerLevel(n, i, k);
    }
  }

  /** A sibling of a path node is nobody's ancestor on that path. */
  lemma {:induction false} SiblingOffPath(n: nat, k: nat, j: nat)
    requires n >= 1 && k + 1 < |PathFrom(n)| && j < |PathFrom(n)|
    ensures PathFrom(n)[k] >= 2 && PathFrom(n)[j] >= 1 && !IsAncestor(Sibling(PathFrom(n)[k]), PathFrom(n)[j])
  {
    var p := PathFrom(n);
    PathHalves(n, k);
    PathSuffix(n, j);
    PathIsAncestors(p[j], Sibling(p[k]));
    forall i | 0 <= i < |PathFrom(p[j])|
      ensures PathFrom(p[j])[i] != Sibling(p[k])
    {
      assert PathFrom(p[j])[i] == p[j + i];
      SiblingNotOnPath(n, k, j + i);
    }
  }
}
