/**
 The membership circuit: the transition constraints, the assertions and the periodic
 columns, for a tree of any valid depth. A trace is a sequence of rows of eleven
 cells: eight state lanes, the secret key, the injected sibling, the side selector.
 */
module Air {
  import opened Powers
  import opened Algebra
  import opened Permutation
  import opened Merkle

  const BLOCK_LEN: nat := 32
  const COL_SK: nat := 8
  const COL_SIBLING: nat := 9
  const COL_SELECTOR: nat := 10
  const TRACE_WIDTH: nat := 11
  const NUM_PERIODIC: nat := 15
  const NUM_CONSTRAINTS: nat := 21

  function NumMerkleBlocks(depth: nat): nat { depth + 1 }

  function NumBlocks(depth: nat): nat { NumMerkleBlocks(depth) + 2 }

  function TraceLength(depth: nat): nat { NumBlocks(depth) * BLOCK_LEN }

  predicate IsValidDepth(depth: nat) {
    NumBlocks(depth) > 2 && IsPowerOfTwo(NumBlocks(depth))
  }

  function A1TransitionRow(depth: nat): nat { NumMerkleBlocks(depth) * BLOCK_LEN - 1 }

  function LinearcheckTransitionRow(depth: nat): nat { (NumMerkleBlocks(depth) + 1) * BLOCK_LEN - 1 }

  function RootRow(depth: nat): nat { A1TransitionRow(depth) }

  function A1OutputRow(depth: nat): nat { LinearcheckTransitionRow(depth) }

  function YRow(depth: nat): nat { LinearcheckTransitionRow(depth) + 1 }

  function A1InputRow(depth: nat): nat { A1TransitionRow(depth) + 1 }

  datatype PublicInputs<!S> = PublicInputs(root: S, epoch: S, x: S, y: S, nullifier: S)

  datatype Assertion<!S> = Assertion(column: nat, row: nat, value: S)

  type Row<S> = seq<S>

  predicate IsTrace<S(!new)>(t: seq<Row<S>>, depth: nat) {
    |t| == TraceLength(depth) && forall i :: 0 <= i < |t| ==> |t[i]| == TRACE_WIDTH
  }

  function StateOf<S(!new)>(row: Row<S>): (state: seq<S>)
    requires |row| == TRACE_WIDTH
    ensures |state| == WIDTH
  {
    row[..WIDTH]
  }

  /** The periodic columns' values at one row. */
  datatype Periodic<!S> = Periodic(isLastInBlock: S, rc: seq<S>, isLinearOnly: S, isFull: S, isPartial: S,
                                   isA1Transition: S, isLinearcheckTransition: S, isRow0: S)

  function Bit<S(!new)>(f: Field<S>, b: bool): S {
    if b then f.one else f.zero
  }

  function PeriodicAt<S(!new)>(p: Params<S>, depth: nat, row: nat): (v: Periodic<S>)
    requires p.TablesFit()
    ensures |v.rc| == WIDTH
  {
    var f, r := p.field, row % BLOCK_LEN;
    Periodic(Bit(f, r == BLOCK_LEN - 1),
             if r < ROUNDS then RoundConstants(p, r) else seq(WIDTH, _ => f.zero),
             Bit(f, r < ROUNDS && StepKindAt(r) == LinearOnly),
             Bit(f, r < ROUNDS && StepKindAt(r) == Full),
             Bit(f, r < ROUNDS && StepKindAt(r) == Partial),
             Bit(f, row == A1TransitionRow(depth)),
             Bit(f, row == LinearcheckTransitionRow(depth)),
             Bit(f, row == 0))
  }

  /** The three possible round steps of one lane, blended by the selectors. */
  function Blend<S(!new)>(p: Params<S>, v: Periodic<S>, state: seq<S>, lane: nat): S
    requires p.TablesFit() && |state| == WIDTH && |v.rc| == WIDTH && lane < WIDTH
  {
    var f := p.field;
    f.add(f.add(f.mul(v.isLinearOnly, MdsLight(p, state)[lane]), f.mul(v.isFull, FullRound(p, state, v.rc)[lane])),
          f.mul(v.isPartial, PartialRound(p, state, v.rc[0])[lane]))
  }

  /** What the boundary injection puts in lane `lane` of the next block's first row. */
  function Injected<S(!new)>(p: Params<S>, current: Row<S>, next: Row<S>, lane: nat): S
    requires |current| == TRACE_WIDTH && |next| == TRACE_WIDTH
  {
    var f := p.field;
    var keep := f.Sub(f.one, next[COL_SELECTOR]);
    if lane == 0 then f.add(f.mul(next[COL_SELECTOR], next[COL_SIBLING]), f.mul(keep, current[0]))
    else if lane == 1 then f.add(f.mul(next[COL_SELECTOR], current[0]), f.mul(keep, next[COL_SIBLING]))
    else f.zero
  }

  /** The constraint polynomials, in order; each must vanish on every pair of consecutive rows. */
  function EvaluateTransition<S(!new)>(p: Params<S>, pub: PublicInputs<S>, current: Row<S>, next: Row<S>,
      v: Periodic<S>)
    : (result: seq<S>)
    requires p.TablesFit() && |current| == TRACE_WIDTH && |next| == TRACE_WIDTH && |v.rc| == WIDTH
    ensures |result| == NUM_CONSTRAINTS
  {
    var f := p.field;
    var state := StateOf(current);
    var notLast := f.Sub(f.one, v.isLastInBlock);
    var notA1OrLinear := f.Sub(f.Sub(f.one, v.isA1Transition), v.isLinearcheckTransition);
    [f.mul(notLast, f.Sub(next[0], Blend(p, v, state, 0))),
     f.mul(f.mul(v.isLastInBlock, notA1OrLinear), f.Sub(next[0], Injected(p, current, next, 0))),
     f.mul(v.isA1Transition, f.Sub(next[0], current[COL_SK])),
     f.mul(v.isLinearcheckTransition, f.Sub(next[0], f.add(current[COL_SK], f.mul(current[0], pub.x))))]
    + seq(WIDTH - 1, k requires 0 <= k < WIDTH - 1 => f.mul(notLast, f.Sub(next[k + 1], Blend(p, v, state, k + 1))))
    + seq(WIDTH - 1, k requires 0 <= k < WIDTH - 1 =>
        f.mul(v.isLastInBlock, f.Sub(next[k + 1], Injected(p, current, next, k + 1))))
    + [f.Sub(next[COL_SK], current[COL_SK]),
       f.mul(current[COL_SELECTOR], f.Sub(current[COL_SELECTOR], f.one)),
       f.mul(v.isRow0, f.Sub(current[0], current[COL_SK]))]
  }

  /** Lanes 1 to 7 of row 0 are zero, and five cells carry the public inputs. */
  function GetAssertions<S(!new)>(p: Params<S>, pub: PublicInputs<S>, depth: nat): seq<Assertion<S>> {
    seq(WIDTH - 1, k requires 0 <= k => Assertion(k + 1, 0, p.field.zero)) +
    [Assertion(0, RootRow(depth), pub.root),
     Assertion(0, A1OutputRow(depth), pub.nullifier),
     Assertion(0, YRow(depth), pub.y),
     Assertion(COL_SIBLING, A1InputRow(depth), pub.epoch),
     Assertion(COL_SELECTOR, A1InputRow(depth), p.field.zero)]
  }

  ghost predicate Vanishes<S(!new)>(p: Params<S>, s: seq<S>) {
    forall k :: 0 <= k < |s| ==> s[k] == p.field.zero
  }

  /** Every constraint vanishes on every pair of consecutive rows. */
  ghost predicate TransitionsHold<S(!new)>(p: Params<S>, pub: PublicInputs<S>, depth: nat, t: seq<Row<S>>)
    requires p.TablesFit() && IsTrace(t, depth)
  {
    forall i {:trigger t[i]} :: 0 <= i < |t| - 1 ==>
      Vanishes(p, EvaluateTransition(p, pub, t[i], t[i + 1], PeriodicAt(p, depth, i)))
  }

  ghost predicate AssertionsHold<S(!new)>(p: Params<S>, pub: PublicInputs<S>, depth: nat, t: seq<Row<S>>)
    requires IsTrace(t, depth)
  {
    forall k :: 0 <= k < |GetAssertions(p, pub, depth)| ==>
      var a := GetAssertions(p, pub, depth)[k];
      a.row < |t| && a.column < TRACE_WIDTH && t[a.row][a.column] == a.value
  }

  ghost predicate Accepts<S(!new)>(p: Params<S>, pub: PublicInputs<S>, depth: nat, t: seq<Row<S>>)
    requires p.TablesFit()
  {
    IsTrace(t, depth) && TransitionsHold(p, pub, depth, t) && AssertionsHold(p, pub, depth, t)
  }
}
