/**
 Indexing over the group's array-based complete binary tree: node 0 is the root,
 the children of `n` are `2n + 1` and `2n + 2`, and the last `capacity` slots are
 the leaves. Everything here holds for every capacity of at least 2, power of two
 or not.
 */
module GroupTree {

  function LeafToNode(capacity: nat, leaf: nat): nat
    requires capacity >= 1
  {
    capacity - 1 + leaf
  }

  predicate IsLeaf(capacity: nat, node: nat)
    requires capacity >= 1
  {
    node >= capacity - 1
  }

  function Parent(node: nat): nat
    requires node > 0
  {
    (node - 1) / 2
  }

  function LeftChild(node: nat): nat { 2 * node + 1 }

  function RightChild(node: nat): nat { 2 * node + 2 }

  /** The other child of `node`'s parent. */
  function Sibling(node: nat): nat
    requires node > 0
  {
    var p := Parent(node);
    if LeftChild(p) == node then RightChild(p) else LeftChild(p)
  }

  /** The proper ancestors of `node`, nearest first, ending at the root. */
  function Ancestors(node: nat): seq<nat> {
    if node == 0 then [] else [Parent(node)] + Ancestors(Parent(node))
  }

  /** The loop that collects a leaf's ancestors by following `parent`. */
  method DirectPath(capacity: nat, leaf: nat) returns (out: seq<nat>)
    requires capacity >= 1
    ensures out == Ancestors(LeafToNode(capacity, leaf))
  {
    out := [];
    var n := LeafToNode(capacity, leaf);
    while n != 0
      invariant out + Ancestors(n) == Ancestors(LeafToNode(capacity, leaf))
      decreases n
    {
      var p := Parent(n);
      out := out + [p];
      n := p;
    }
  }

  /** `a` is `node` itself or one of its ancestors. */
  predicate Within(node: nat, a: nat) {
    node == a || (node > 0 && Within(Parent(node), a))
  }

  function Depth(node: nat): nat {
    if node == 0 then 0 else 1 + Depth(Parent(node))
  }

  /** The node `k` levels above `node`. */
  function Up(node: nat, k: nat): nat
    requires k <= Depth(node)
    decreases k
  {
    if k == 0 then node else Up(Parent(node), k - 1)
  }

  /** The node the update path has reached before it fills level `i`. */
  function Prev(node: nat, i: nat): (prev: nat)
    requires i < Depth(node)
    ensures prev > 0
  {
    UpDepth(node, i);
    Up(node, i)
  }

  lemma {:induction false} UpDepth(node: nat, k: nat)
    requires k <= Depth(node)
    ensures Depth(Up(node, k)) == Depth(node) - k
    decreases k
  {
    if k > 0 { UpDepth(Parent(node), k - 1); }
  }

  lemma {:induction false} UpCompose(node: nat, j: nat, k: nat)
    requires j + k <= Depth(node)
    ensures k <= Depth(Up(node, j)) && Up(node, j + k) == Up(Up(node, j), k)
    decreases j
  {
    UpDepth(node, j);
    if j > 0 { UpCompose(Parent(node), j - 1, k); }
  }

  lemma {:induction false} UpParent(node: nat, k: nat)
    requires k < Depth(node)
    ensures Up(node, k) > 0 && Parent(Up(node, k)) == Up(node, k + 1)
    decreases k
  {
    if k > 0 { UpParent(Parent(node), k - 1); }
  }

  lemma {:induction false} AncestorsLength(node: nat)
    ensures |Ancestors(node)| == Depth(node)
  {
    if node > 0 { AncestorsLength(Parent(node)); }
  }

  lemma {:induction false} AncestorsAt(node: nat, i: nat)
    requires i < Depth(node)
    ensures i < |Ancestors(node)| && Ancestors(node)[i] == Up(node, i + 1)
    decreases i
  {
    AncestorsLength(node);
    if i > 0 { AncestorsAt(Parent(node), i - 1); }
  }

  lemma {:induction false} UpWithin(node: nat, k: nat)
    requires k <= Depth(node)
    ensures Within(node, Up(node, k))
    decreases k
  {
    if k > 0 { UpWithin(Parent(node), k - 1); }
  }

  lemma {:induction false} WithinUp(node: nat, a: nat) returns (k: nat)
    requires Within(node, a)
    ensures k <= Depth(node) && Up(node, k) == a
  {
    if node == a {
      k := 0;
    } else {
      k := WithinUp(Parent(node), a);
      k := k + 1;
    }
  }

  /** The level of the direct path at which a proper ancestor sits. */
  lemma {:induction false} WithinAbove(node: nat, a: nat) returns (i: nat)
    requires Within(node, a) && node != a
    ensures i < Depth(node) && Up(node, i + 1) == a
  {
    var k := WithinUp(node, a);
    i := k - 1;
  }

  lemma {:induction false} WithinBelow(node: nat, a: nat)
    requires Within(node, a)
    ensures a <= node
  {
    if node != a { WithinBelow(Parent(node), a); }
  }

  lemma {:induction false} WithinTrans(node: nat, a: nat, b: nat)
    requires Within(node, a) && Within(a, b)
    ensures Within(node, b)
  {
    if node != a { WithinTrans(Parent(node), a, b); }
  }

  lemma {:induction false} WithinRoot(node: nat)
    ensures Within(node, 0)
  {
    if node > 0 { WithinRoot(Parent(node)); }
  }

  /** Two subtrees holding one node are nested. */
  lemma {:induction false} WithinChain(node: nat, a: nat, b: nat)
    requires Within(node, a) && Within(node, b)
    ensures Within(a, b) || Within(b, a)
  {
    if node != a && node != b { WithinChain(Parent(node), a, b); }
  }

  lemma {:induction false} SiblingsDisjoint(node: nat, p: nat)
    ensures !(Within(node, LeftChild(p)) && Within(node, RightChild(p)))
  {
    if Within(node, LeftChild(p)) && Within(node, RightChild(p)) {
      WithinChain(node, LeftChild(p), RightChild(p));
      if Within(RightChild(p), LeftChild(p)) {
        assert Parent(RightChild(p)) == p;
        WithinBelow(p, LeftChild(p));
      } else {
        WithinBelow(LeftChild(p), RightChild(p));
      }
    }
  }

  /** A proper descendant lies under exactly one of the two children. */
  lemma {:induction false} WithinChild(node: nat, p: nat)
    requires Within(node, p) && node != p
    ensures Within(node, LeftChild(p)) || Within(node, RightChild(p))
  {
    if Parent(node) != p { WithinChild(Parent(node), p); }
  }

  lemma {:induction false} WithinSibling(node: nat, n: nat)
    requires n > 0
    ensures Within(node, Parent(n)) && node != Parent(n) && !Within(node, n) ==> Within(node, Sibling(n))
    ensures Within(node, Sibling(n)) ==> Within(node, Parent(n)) && !Within(node, n) && node != Parent(n)
  {
    var p := Parent(n);
    if Within(node, p) && node != p { WithinChild(node, p); }
    if Within(node, Sibling(n)) {
      assert Parent(Sibling(n)) == p;
      WithinTrans(node, Sibling(n), p);
      SiblingsDisjoint(node, p);
      WithinBelow(node, Sibling(n));
    }
  }

  /**
   The level of `from`'s direct path at which `leaf` first comes under it, that is,
   the level of the two nodes' common ancestor.
   */
  function MeetLevel(from: nat, leaf: nat): (i: nat)
    requires !Within(leaf, from)
    ensures i < Depth(from)
    decreases from
  {
    WithinRoot(leaf);
    if Within(leaf, Parent(from)) then 0 else 1 + MeetLevel(Parent(from), leaf)
  }

  lemma {:induction false} MeetLevelIs(from: nat, leaf: nat)
    requires !Within(leaf, from)
    ensures var i := MeetLevel(from, leaf);
            forall j :: 0 <= j <= Depth(from) ==> (Within(leaf, Up(from, j)) <==> j > i)
    decreases from
  {
    WithinRoot(leaf);
    var i := MeetLevel(from, leaf);
    forall j | 0 <= j <= Depth(from)
      ensures Within(leaf, Up(from, j)) <==> j > i
    {
      if j > 0 {
        if Within(leaf, Parent(from)) {
          UpWithin(Parent(from), j - 1);
          WithinTrans(leaf, Parent(from), Up(from, j));
        } else {
          MeetLevelIs(Parent(from), leaf);
        }
      }
    }
  }

  /**
   For two leaves neither of which contains the other, exactly one level of one's
   direct path has the other under that level's sibling: the meeting level.
   */
  lemma {:induction false} ExactlyOneLevel(from: nat, leaf: nat, i: nat)
    requires !Within(leaf, from) && !Within(from, leaf)
    requires i < Depth(from)
    ensures Within(leaf, Sibling(Prev(from, i))) <==> i == MeetLevel(from, leaf)
  {
    MeetLevelIs(from, leaf);
    UpParent(from, i);
    WithinSibling(leaf, Prev(from, i));
    UpWithin(from, i + 1);
  }

  /** Distinct leaves never contain one another. */
  lemma {:induction false} LeavesApart(capacity: nat, a: nat, b: nat)
    requires capacity >= 1 && a < capacity && b < capacity && a != b
    ensures !Within(LeafToNode(capacity, a), LeafToNode(capacity, b))
  {
    var na, nb := LeafToNode(capacity, a), LeafToNode(capacity, b);
    if Within(na, nb) {
      assert Within(Parent(na), nb);
      WithinBelow(Parent(na), nb);
    }
  }

  lemma {:induction false} UpInjective(node: nat, j: nat, k: nat)
    requires j <= Depth(node) && k <= Depth(node) && Up(node, j) == Up(node, k)
    ensures j == k
  {
    UpDepth(node, j);
    UpDepth(node, k);
  }
}
