/** The resolution of a subtree: the fewest keys that reach everyone under it. */
module GroupResolution {
  import opened GroupTree
  import opened GroupTypes

  function Resolution(nodes: seq<TreeNode>, capacity: nat, node: nat): (out: seq<nat>)
    requires capacity >= 1 && |nodes| == 2 * capacity - 1 && node < |nodes|
    ensures forall r {:trigger r in out} :: r in out ==> r < |nodes| && !nodes[r].Blank?
    decreases |nodes| - node
  {
    if nodes[node].Blank? then
      if IsLeaf(capacity, node) then []
      else Resolution(nodes, capacity, LeftChild(node)) + Resolution(nodes, capacity, RightChild(node))
    else [node]
  }

  /** Every node from `node` up to and including `top`, `node` itself excepted, is blank. */
  ghost predicate BlankAbove(nodes: seq<TreeNode>, node: nat, top: nat) {
    forall a: nat :: Within(node, a) && Within(a, top) && a != node && a < |nodes| ==> nodes[a].Blank?
  }

  /**
   Membership in the resolution of `top`, exactly: a populated node under `top`
   with nothing populated between it and `top`.
   */
  lemma {:induction false} ResolutionMembers(nodes: seq<TreeNode>, capacity: nat, top: nat, r: nat)
    requires capacity >= 1 && |nodes| == 2 * capacity - 1 && top < |nodes|
    ensures r in Resolution(nodes, capacity, top) <==>
            r < |nodes| && !nodes[r].Blank? && Within(r, top) && BlankAbove(nodes, r, top)
    decreases |nodes| - top
  {
    if !nodes[top].Blank? {
      ResolutionAtPopulated(nodes, capacity, top, r);
    } else if IsLeaf(capacity, top) {
      if r < |nodes| && Within(r, top) { NothingBelowALeaf(capacity, r, top); }
    } else {
      var l, rt := LeftChild(top), RightChild(top);
      ResolutionMembers(nodes, capacity, l, r);
      ResolutionMembers(nodes, capacity, rt, r);
      assert Resolution(nodes, capacity, top) == Resolution(nodes, capacity, l) + Resolution(nodes, capacity, rt);
      ChildOfBlank(nodes, top, l, r);
      ChildOfBlank(nodes, top, rt, r);
      if Within(r, top) && r != top { WithinChild(r, top); }
    }
  }

  lemma {:induction false} ResolutionAtPopulated(nodes: seq<TreeNode>, capacity: nat, top: nat, r: nat)
    requires capacity >= 1 && |nodes| == 2 * capacity - 1 && top < |nodes| && !nodes[top].Blank?
    ensures r in Resolution(nodes, capacity, top) <==>
            r < |nodes| && !nodes[r].Blank? && Within(r, top) && BlankAbove(nodes, r, top)
  {
    if r == top {
      forall a: nat | Within(top, a) && Within(a, top) && a != top ensures false {
        WithinBelow(top, a);
        WithinBelow(a, top);
      }
    } else if Within(r, top) && BlankAbove(nodes, r, top) {
      assert Within(top, top);
    }
  }

  lemma {:induction false} NothingBelowALeaf(capacity: nat, n: nat, leaf: nat)
    requires capacity >= 1 && n < 2 * capacity - 1 && IsLeaf(capacity, leaf) && Within(n, leaf)
    ensures n == leaf
  {
    if n != leaf { WithinBelow(Parent(n), leaf); }
  }

  /** Going from a blank node to a child changes neither side of the characterisation. */
  lemma {:induction false} ChildOfBlank(nodes: seq<TreeNode>, top: nat, child: nat, r: nat)
    requires 0 < child < |nodes| && Parent(child) == top && nodes[top].Blank?
    ensures Within(r, child) ==> Within(r, top) && (BlankAbove(nodes, r, child) <==> BlankAbove(nodes, r, top))
  {
    if Within(r, child) {
      assert Within(child, top);
      WithinTrans(r, child, top);
      forall a: nat | Within(r, a) && Within(a, top) && a != r && a < |nodes|
        ensures a == top || Within(a, child)
      {
        WithinChain(r, a, child);
        if Within(child, a) && a != child {
          WithinChain(child, a, top);
          assert Within(Parent(child), a);
          WithinBelow(top, a);
          WithinBelow(a, top);
        }
      }
      forall a: nat | Within(r, a) && Within(a, child)
        ensures Within(a, top)
      {
        WithinTrans(a, child, top);
      }
    }
  }

  /**
   The resolution is an antichain: no member contains another, and none is listed
   twice.
   */
  lemma {:induction false} ResolutionAntichain(nodes: seq<TreeNode>, capacity: nat, top: nat, i: nat, j: nat)
    requires capacity >= 1 && |nodes| == 2 * capacity - 1 && top < |nodes|
    requires i < |Resolution(nodes, capacity, top)| && j < |Resolution(nodes, capacity, top)| && i != j
    ensures !Within(Resolution(nodes, capacity, top)[i], Resolution(nodes, capacity, top)[j])
    decreases |nodes| - top
  {
    if nodes[top].Blank? && !IsLeaf(capacity, top) {
      var l, rt := LeftChild(top), RightChild(top);
      var rl, rr := Resolution(nodes, capacity, l), Resolution(nodes, capacity, rt);
      var res := Resolution(nodes, capacity, top);
      assert res == rl + rr;
      if i < |rl| && j < |rl| {
        ResolutionAntichain(nodes, capacity, l, i, j);
      } else if i >= |rl| && j >= |rl| {
        ResolutionAntichain(nodes, capacity, rt, i - |rl|, j - |rl|);
      } else if Within(res[i], res[j]) {
        var a, b := if i < |rl| then l else rt, if j < |rl| then l else rt;
        assert res[i] in (if i < |rl| then rl else rr) && res[j] in (if j < |rl| then rl else rr);
        ResolutionMembers(nodes, capacity, a, res[i]);
        ResolutionMembers(nodes, capacity, b, res[j]);
        WithinTrans(res[i], res[j], b);
        SiblingsDisjoint(res[i], top);
      }
    }
  }

  /** Each occupied leaf under `top` is under exactly one member of the resolution. */
  lemma {:induction false} ResolutionCoversOnce(nodes: seq<TreeNode>, capacity: nat, top: nat,
      leaf: nat) returns (at: nat)
    requires capacity >= 1 && |nodes| == 2 * capacity - 1 && top < |nodes|
    requires leaf < |nodes| && !nodes[leaf].Blank? && Within(leaf, top)
    ensures at < |Resolution(nodes, capacity, top)| && Within(leaf, Resolution(nodes, capacity, top)[at])
    ensures forall j :: 0 <= j < |Resolution(nodes, capacity, top)| && j != at ==>
                          !Within(leaf, Resolution(nodes, capacity, top)[j])
  {
    at := CoveredBy(nodes, capacity, top, leaf);
    var res := Resolution(nodes, capacity, top);
    forall j | 0 <= j < |res| && j != at
      ensures !Within(leaf, res[j])
    {
      if Within(leaf, res[j]) {
        WithinChain(leaf, res[at], res[j]);
        ResolutionAntichain(nodes, capacity, top, at, j);
        ResolutionAntichain(nodes, capacity, top, j, at);
      }
    }
  }

  lemma {:induction false} CoveredBy(nodes: seq<TreeNode>, capacity: nat, top: nat, leaf: nat) returns (at: nat)
    requires capacity >= 1 && |nodes| == 2 * capacity - 1 && top < |nodes|
    requires leaf < |nodes| && !nodes[leaf].Blank? && Within(leaf, top)
    ensures at < |Resolution(nodes, capacity, top)| && Within(leaf, Resolution(nodes, capacity, top)[at])
    decreases |nodes| - top
  {
    if !nodes[top].Blank? {
      at := 0;
    } else if IsLeaf(capacity, top) {
      NothingBelowALeaf(capacity, leaf, top);
      assert false;
    } else {
      WithinChild(leaf, top);
      var left, right := Resolution(nodes, capacity, LeftChild(top)), Resolution(nodes, capacity, RightChild(top));
      assert Resolution(nodes, capacity, top) == left + right;
      if Within(leaf, LeftChild(top)) {
        at := CoveredBy(nodes, capacity, LeftChild(top), leaf);
        assert (left + right)[at] == left[at];
      } else {
        at := CoveredBy(nodes, capacity, RightChild(top), leaf);
        assert (left + right)[at + |left|] == right[at];
        at := at + |left|;
      }
    }
  }
}
