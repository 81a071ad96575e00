/** The public membership tree: levels of compressed pairs, authentication paths and their check. */
module Merkle {
  import opened Powers
  import opened Algebra
  import opened Permutation

  datatype Side = Left | Right
  datatype PathStep<!S> = PathStep(sibling: S, side: Side)

  function Combine<S(!new)>(p: Params<S>, cur: S, step: PathStep<S>): S
    requires p.TablesFit()
  {
    match step.side
    case Left => Compress2(p, cur, step.sibling)
    case Right => Compress2(p, step.sibling, cur)
  }

  /** The node a path leads to from `leaf`. */
  function Climb<S(!new)>(p: Params<S>, leaf: S, path: seq<PathStep<S>>): S
    requires p.TablesFit()
  {
    if path == [] then leaf else Climb(p, Combine(p, leaf, path[0]), path[1..])
  }

  lemma {:induction false} ClimbSnoc<S(!new)>(p: Params<S>, leaf: S, path: seq<PathStep<S>>, step: PathStep<S>)
    requires p.TablesFit()
    ensures Climb(p, leaf, path + [step]) == Combine(p, Climb(p, leaf, path), step)
    decreases |path|
  {
    if path == [] {
      assert ([step])[1..] == [];
    } else {
      ClimbSnoc(p, Combine(p, leaf, path[0]), path[1..], step);
      assert (path + [step])[1..] == path[1..] + [step];
    }
  }

  /** The reference verifier's loop. */
  method VerifyPath<S(==, !new)>(p: Params<S>, leaf: S, path: seq<PathStep<S>>, root: S) returns (ok: bool)
    requires p.TablesFit()
    ensures ok <==> Climb(p, leaf, path) == root
  {
    var cur := leaf;
    for i := 0 to |path|
      invariant Climb(p, cur, path[i..]) == Climb(p, leaf, path)
    {
      cur := match path[i].side
        case Left => Compress2(p, cur, path[i].sibling)
        case Right => Compress2(p, path[i].sibling, cur);
    }
    ok := cur == root;
  }

  /** The level above: each adjacent pair compressed. */
  function LevelUp<S(!new)>(p: Params<S>, level: seq<S>): (up: seq<S>)
    requires p.TablesFit()
    ensures |up| == |level| / 2
    ensures forall i :: 0 <= i < |up| ==> up[i] == Compress2(p, level[2 * i], level[2 * i + 1])
  {
    seq(|level| / 2, i requires 0 <= i < |level| / 2 => Compress2(p, level[2 * i], level[2 * i + 1]))
  }

  /** Each level is half the one below it, ending in a single root. */
  predicate Halving<S>(levels: seq<seq<S>>, depth: nat) {
    && |levels| == depth + 1 && |levels[depth]| == 1
    && forall l :: 0 <= l < depth ==> |levels[l]| == 2 * |levels[l + 1]|
  }

  /** Every node above the leaves is its two children compressed. */
  ghost predicate WellBuilt<S(!new)>(p: Params<S>, depth: nat, levels: seq<seq<S>>)
    requires p.TablesFit()
  {
    Halving(levels, depth) && forall l: nat :: l < depth ==> Rises(p, levels, l)
  }

  predicate Rises<S(==, !new)>(p: Params<S>, levels: seq<seq<S>>, l: nat)
    requires p.TablesFit() && l + 1 < |levels|
  {
    levels[l + 1] == LevelUp(p, levels[l])
  }

  function SiblingIndex(idx: nat): nat {
    if idx % 2 == 1 then idx - 1 else idx + 1
  }

  function StepAt<S>(levels: seq<seq<S>>, depth: nat, level: nat, idx: nat): PathStep<S>
    requires Halving(levels, depth) && level < depth && idx < |levels[level]|
  {
    assert |levels[level]| == 2 * |levels[level + 1]| && idx == 2 * (idx / 2) + idx % 2;
    PathStep(levels[level][SiblingIndex(idx)], if idx % 2 == 1 then Right else Left)
  }

  /** The path from node `idx` of level `level` to the root: its sibling at each level, and the side it is on. */
  function PathFrom<S>(levels: seq<seq<S>>, depth: nat, level: nat, idx: nat): (path: seq<PathStep<S>>)
    requires Halving(levels, depth) && level <= depth && idx < |levels[level]|
    ensures |path| == depth - level
    decreases depth - level
  {
    if level == depth then []
    else [StepAt(levels, depth, level, idx)] + PathFrom(levels, depth, level + 1, idx / 2)
  }

  /** One step of a node's own path leads to its parent. */
  lemma {:induction false} StepReachesParent<S(!new)>(p: Params<S>, depth: nat, levels: seq<seq<S>>, level: nat,
      idx: nat)
    requires p.TablesFit() && WellBuilt(p, depth, levels) && level < depth && idx < |levels[level]|
    ensures idx / 2 < |levels[level + 1]|
    ensures Combine(p, levels[level][idx], StepAt(levels, depth, level, idx)) == levels[level + 1][idx / 2]
  {
    assert Rises(p, levels, level);
    assert idx == 2 * (idx / 2) || idx == 2 * (idx / 2) + 1;
  }

  /** Climbing a node's own path reaches the root of the tree. */
  lemma {:induction false} PathReachesRoot<S(!new)>(p: Params<S>, depth: nat, levels: seq<seq<S>>, level: nat, idx: nat)
    requires p.TablesFit() && WellBuilt(p, depth, levels) && level <= depth && idx < |levels[level]|
    ensures Climb(p, levels[level][idx], PathFrom(levels, depth, level, idx)) == levels[depth][0]
    decreases depth - level
  {
    if level < depth {
      StepReachesParent(p, depth, levels, level, idx);
      PathReachesRoot(p, depth, levels, level + 1, idx / 2);
      assert PathFrom(levels, depth, level, idx)[1..] == PathFrom(levels, depth, level + 1, idx / 2);
    }
  }

  function Padded<S(!new)>(p: Params<S>, depth: nat, leaves: seq<S>): (level: seq<S>)
    requires |leaves| <= Pow2(depth)
    ensures |level| == Pow2(depth)
  {
    leaves + seq(Pow2(depth) - |leaves|, _ => p.field.zero)
  }

  lemma {:induction false} PowersHalve<S>(levels: seq<seq<S>>, depth: nat)
    requires |levels| == depth + 1 && forall k :: 0 <= k <= depth ==> |levels[k]| == Pow2(depth - k)
    ensures Halving(levels, depth)
  {
    forall l | 0 <= l < depth
      ensures |levels[l]| == 2 * |levels[l + 1]|
    {
      assert Pow2(depth - l) == 2 * Pow2(depth - (l + 1));
    }
  }

  lemma {:induction false} GrowsByOne<S(!new)>(p: Params<S>, depth: nat, built: seq<seq<S>>, l: nat)
    requires p.TablesFit() && l < depth && |built| == l + 1
    requires forall k :: 0 <= k <= l ==> |built[k]| == Pow2(depth - k)
    requires forall k: nat :: k < l ==> Rises(p, built, k)
    ensures var more := built + [LevelUp(p, built[l])];
            && (forall k :: 0 <= k <= l + 1 ==> |more[k]| == Pow2(depth - k))
            && (forall k: nat :: k < l + 1 ==> Rises(p, more, k))
  {
    var more := built + [LevelUp(p, built[l])];
    assert Pow2(depth - l) == 2 * Pow2(depth - (l + 1));
    forall k: nat | k < l + 1
      ensures Rises(p, more, k)
    {
      assert k < l ==> Rises(p, built, k);
      assert more[k] == built[k];
    }
  }

  /** The in-memory membership tree. */
  class MerkleTree<S(==, !new)> {
    const params: Params<S>
    const depth: nat
    var levels: seq<seq<S>>

    ghost predicate Valid()
      reads this
    {
      params.TablesFit() && WellBuilt(params, depth, levels)
    }

    /** Pads the leaves with zeros to `2^depth` and builds each level from the one below. */
    constructor (params: Params<S>, depth: nat, leaves: seq<S>)
      requires params.TablesFit() && |leaves| <= Pow2(depth)
      ensures Valid() && this.params == params && this.depth == depth
      ensures levels[0] == Padded(params, depth, leaves)
    {
      this.params := params;
      this.depth := depth;
      var built := [Padded(params, depth, leaves)];
      for l := 0 to depth
        invariant |built| == l + 1 && built[0] == Padded(params, depth, leaves)
        invariant forall k :: 0 <= k <= l ==> |built[k]| == Pow2(depth - k)
        invariant forall k: nat :: k < l ==> Rises(params, built, k)
      {
        GrowsByOne(params, depth, built, l);
        built := built + [LevelUp(params, built[|built| - 1])];
      }
      PowersHalve(built, depth);
      levels := built;
    }

    function Root(): S
      requires Valid()
      reads this
    {
      levels[depth][0]
    }

    /** The authentication path of leaf `index`, which climbs to the root. */
    method Path(index: nat) returns (steps: seq<PathStep<S>>)
      requires Valid() && index < |levels[0]|
      ensures steps == PathFrom(levels, depth, 0, index) && |steps| == depth
      ensures Climb(params, levels[0][index], steps) == Root()
    {
      steps := CollectPath(levels, depth, index);
      PathReachesRoot(params, depth, levels, 0, index);
    }
  }

  /** The loop up the levels, halving the index and recording the sibling each time. */
  method CollectPath<S>(levels: seq<seq<S>>, depth: nat, index: nat) returns (steps: seq<PathStep<S>>)
    requires Halving(levels, depth) && index < |levels[0]|
    ensures steps == PathFrom(levels, depth, 0, index)
  {
    steps := [];
    var idx: nat := index;
    for level := 0 to depth
      invariant idx < |levels[level]| && |steps| == level
      invariant steps + PathFrom(levels, depth, level, idx) == PathFrom(levels, depth, 0, index)
    {
      var isRight := idx % 2 == 1;
      var siblingIdx := if isRight then idx - 1 else idx + 1;
      ghost var step := StepAt(levels, depth, level, idx);
      ghost var rest := PathFrom(levels, depth, level + 1, idx / 2);
      assert steps + ([step] + rest) == (steps + [step]) + rest;
      steps := steps + [PathStep(levels[level][siblingIdx], if isRight then Right else Left)];
      idx := idx / 2;
    }
    assert steps + [] == steps;
  }
}
