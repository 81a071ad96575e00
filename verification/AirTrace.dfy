/**
 Completeness: the trace the prover builds for a witness satisfies the circuit, and
 with soundness the circuit accepts exactly the intended public inputs.
 */
module AirTrace {
  import opened Algebra
  import opened Permutation
  import opened Merkle
  import opened Air
  import opened AirMeaning
  import opened AirSoundness

  datatype Witness<!S> = Witness(sk: S, path: seq<PathStep<S>>)

  /** The state seeded at the first row of a combining block. */
  function Merged<S(!new)>(p: Params<S>, cur: S, step: PathStep<S>): (s: seq<S>)
    ensures |s| == WIDTH
  {
    match step.side
    case Left => Seeded(p.field, cur, step.sibling)
    case Right => Seeded(p.field, step.sibling, cur)
  }

  /** The share the prover publishes for nullifier `a1`. */
  function ShareValue<S(!new)>(p: Params<S>, sk: S, a1: S, x: S): S {
    p.field.add(sk, p.field.mul(a1, x))
  }

  /** The state at the first row of each block. */
  function BlockInput<S(!new)>(p: Params<S>, w: Witness<S>, epoch: S, x: S, block: nat): (s: seq<S>)
    requires p.TablesFit() && block < NumBlocks(|w.path|)
    ensures |s| == WIDTH
    decreases block, 0
  {
    if block == 0 then Seeded(p.field, w.sk, p.field.zero)
    else if block <= |w.path| then Merged(p, BlockOutput(p, w, epoch, x, block - 1), w.path[block - 1])
    else if block == |w.path| + 1 then Seeded(p.field, w.sk, epoch)
    else Seeded(p.field, ShareValue(p, w.sk, BlockOutput(p, w, epoch, x, block - 1), x), p.field.zero)
  }

  /** Lane 0 of a block's last row. */
  function BlockOutput<S(!new)>(p: Params<S>, w: Witness<S>, epoch: S, x: S, block: nat): S
    requires p.TablesFit() && block < NumBlocks(|w.path|)
    decreases block, 1
  {
    Steps(p, BlockInput(p, w, epoch, x, block), ROUNDS)[0]
  }

  function SiblingCell<S(!new)>(p: Params<S>, w: Witness<S>, epoch: S, row: nat): S {
    var block := row / BLOCK_LEN;
    if row % BLOCK_LEN != 0 then p.field.zero
    else if 1 <= block <= |w.path| then w.path[block - 1].sibling
    else if block == |w.path| + 1 then epoch
    else p.field.zero
  }

  function SelectorCell<S(!new)>(p: Params<S>, w: Witness<S>, row: nat): S {
    var block := row / BLOCK_LEN;
    if row % BLOCK_LEN == 0 && 1 <= block <= |w.path| && w.path[block - 1].side == Right then p.field.one
        else p.field.zero
  }

  function BuiltRow<S(!new)>(p: Params<S>, w: Witness<S>, epoch: S, x: S, row: nat): (cells: Row<S>)
    requires p.TablesFit() && row < TraceLength(|w.path|)
    ensures |cells| == TRACE_WIDTH
    ensures StateOf(cells) == Steps(p, BlockInput(p, w, epoch, x, row / BLOCK_LEN), row % BLOCK_LEN)
  {
    Steps(p, BlockInput(p, w, epoch, x, row / BLOCK_LEN), row % BLOCK_LEN)
    + [w.sk, SiblingCell(p, w, epoch, row), SelectorCell(p, w, row)]
  }

  function BuiltTrace<S(!new)>(p: Params<S>, w: Witness<S>, epoch: S, x: S): (t: seq<Row<S>>)
    requires p.TablesFit()
    ensures IsTrace(t, |w.path|)
    ensures forall i :: 0 <= i < |t| ==> t[i] == BuiltRow(p, w, epoch, x, i)
  {
    seq(TraceLength(|w.path|), i requires 0 <= i < TraceLength(|w.path|) => BuiltRow(p, w, epoch, x, i))
  }

  /** The public inputs the prover publishes with a witness, for the root its path leads to. */
  function Published<S(!new)>(p: Params<S>, w: Witness<S>, epoch: S, x: S): PublicInputs<S>
    requires p.TablesFit()
  {
    var a1 := Compress2(p, w.sk, epoch);
    PublicInputs(Climb(p, Compress2(p, w.sk, p.field.zero), w.path), epoch, x, ShareValue(p, w.sk, a1, x), a1)
  }

  // ----- the built trace satisfies the circuit -----

  lemma {:induction false} RelatedInBlock<S(!new)>(p: Params<S>, w: Witness<S>, epoch: S, x: S, pub: PublicInputs<S>,
      i: nat)
    requires p.Valid() && i + 1 < TraceLength(|w.path|) && i % BLOCK_LEN < ROUNDS
    ensures Related(p, pub, |w.path|, i, BuiltRow(p, w, epoch, x, i), BuiltRow(p, w, epoch, x, i + 1))
  {
    assert (i + 1) / BLOCK_LEN == i / BLOCK_LEN && (i + 1) % BLOCK_LEN == i % BLOCK_LEN + 1;
    CellsOf(p, w, epoch, x, i);
    CellsOf(p, w, epoch, x, i + 1);
  }

  /** The non-state cells of a built row. */
  lemma {:induction false} CellsOf<S(!new)>(p: Params<S>, w: Witness<S>, epoch: S, x: S, i: nat)
    requires p.TablesFit() && i < TraceLength(|w.path|)
    ensures var row := BuiltRow(p, w, epoch, x, i);
            row[COL_SK] == w.sk && row[COL_SIBLING] == SiblingCell(p, w, epoch, i)
                && row[COL_SELECTOR] == SelectorCell(p, w, i)
    ensures forall k :: 0 <= k < WIDTH ==> BuiltRow(p, w, epoch, x, i)[k] == StateOf(BuiltRow(p, w, epoch, x, i))[k]
  {
  }

  /** What every boundary pair of built rows shares, whatever the next block is seeded with. */
  ghost predicate BoundaryPair<S(!new)>(p: Params<S>, i: nat, current: Row<S>, next: Row<S>) {
    && |current| == TRACE_WIDTH && |next| == TRACE_WIDTH && i % BLOCK_LEN == ROUNDS
    && next[COL_SK] == current[COL_SK]
    && (current[COL_SELECTOR] == p.field.zero || current[COL_SELECTOR] == p.field.one)
  }

  lemma {:induction false} SeededLanes<S(!new)>(p: Params<S>, row: Row<S>, left: S, right: S)
    requires |row| == TRACE_WIDTH && StateOf(row) == Seeded(p.field, left, right)
    ensures row[0] == left && row[1] == right
    ensures forall k :: 2 <= k < WIDTH ==> row[k] == p.field.zero
  {
    var state := StateOf(row);
    assert forall k :: 0 <= k < WIDTH ==> row[k] == state[k];
  }

  lemma {:induction false} MerkleSeedRelated<S(!new)>(p: Params<S>, pub: PublicInputs<S>, depth: nat, i: nat,
      current: Row<S>, next: Row<S>,
                                   step: PathStep<S>)
    requires p.Valid() && BoundaryPair(p, i, current, next)
    requires i != A1TransitionRow(depth) && i != LinearcheckTransitionRow(depth)
    requires StateOf(next) == Merged(p, current[0], step) && next[COL_SIBLING] == step.sibling
    requires next[COL_SELECTOR] == if step.side == Right then p.field.one else p.field.zero
    ensures Related(p, pub, depth, i, current, next)
  {
    InjectedIs(p, current, next);
    if step.side == Left {
      SeededLanes(p, next, current[0], step.sibling);
    } else {
      SeededLanes(p, next, step.sibling, current[0]);
    }
  }

  lemma {:induction false} NullifierSeedRelated<S(!new)>(p: Params<S>, pub: PublicInputs<S>, depth: nat,
      current: Row<S>, next: Row<S>, epoch: S)
    requires p.Valid() && BoundaryPair(p, A1TransitionRow(depth), current, next)
    requires StateOf(next) == Seeded(p.field, current[COL_SK], epoch)
    requires next[COL_SIBLING] == epoch && next[COL_SELECTOR] == p.field.zero
    ensures Related(p, pub, depth, A1TransitionRow(depth), current, next)
  {
    InjectedIs(p, current, next);
    SeededLanes(p, next, current[COL_SK], epoch);
  }

  lemma {:induction false} ShareSeedRelated<S(!new)>(p: Params<S>, pub: PublicInputs<S>, depth: nat, current: Row<S>,
      next: Row<S>)
    requires p.Valid() && BoundaryPair(p, LinearcheckTransitionRow(depth), current, next)
    requires StateOf(next) == Seeded(p.field, ShareValue(p, current[COL_SK], current[0], pub.x), p.field.zero)
    requires next[COL_SIBLING] == p.field.zero && next[COL_SELECTOR] == p.field.zero
    ensures Related(p, pub, depth, LinearcheckTransitionRow(depth), current, next)
  {
    InjectedIs(p, current, next);
    SeededLanes(p, next, ShareValue(p, current[COL_SK], current[0], pub.x), p.field.zero);
  }

  /** The first row of a block, and the last row of the one before it. */
  lemma {:induction false} BoundaryCells<S(!new)>(p: Params<S>, w: Witness<S>, epoch: S, x: S, block: nat)
    requires p.TablesFit() && block + 1 < NumBlocks(|w.path|)
    ensures var i := block * BLOCK_LEN + ROUNDS;
            && i + 1 < TraceLength(|w.path|)
            && BoundaryPair(p, i, BuiltRow(p, w, epoch, x, i), BuiltRow(p, w, epoch, x, i + 1))
            && BuiltRow(p, w, epoch, x, i)[0] == BlockOutput(p, w, epoch, x, block)
            && BuiltRow(p, w, epoch, x, i)[COL_SK] == w.sk
            && StateOf(BuiltRow(p, w, epoch, x, i + 1)) == BlockInput(p, w, epoch, x, block + 1)
            && BuiltRow(p, w, epoch, x, i + 1)[COL_SIBLING] == SiblingCell(p, w, epoch, i + 1)
            && BuiltRow(p, w, epoch, x, i + 1)[COL_SELECTOR] == SelectorCell(p, w, i + 1)
            && (i + 1) / BLOCK_LEN == block + 1 && (i + 1) % BLOCK_LEN == 0
  {
    var i := block * BLOCK_LEN + ROUNDS;
    RowIn(|w.path|, block, ROUNDS);
    RowIn(|w.path|, block + 1, 0);
    CellsOf(p, w, epoch, x, i);
    CellsOf(p, w, epoch, x, i + 1);
  }

  lemma {:induction false} RelatedAtBoundary<S(!new)>(p: Params<S>, w: Witness<S>, epoch: S, x: S,
      pub: PublicInputs<S>, block: nat)
    requires p.Valid() && block + 1 < NumBlocks(|w.path|) && pub.x == x
    ensures var i := block * BLOCK_LEN + ROUNDS;
            i + 1 < TraceLength(|w.path|) &&
            Related(p, pub, |w.path|, i, BuiltRow(p, w, epoch, x, i), BuiltRow(p, w, epoch, x, i + 1))
  {
    var i, depth := block * BLOCK_LEN + ROUNDS, |w.path|;
    BoundaryCells(p, w, epoch, x, block);
    var current, next := BuiltRow(p, w, epoch, x, i), BuiltRow(p, w, epoch, x, i + 1);
    if block < depth {
      MerkleSeedRelated(p, pub, depth, i, current, next, w.path[block]);
    } else if block == depth {
      NullifierSeedRelated(p, pub, depth, current, next, epoch);
    } else {
      ShareSeedRelated(p, pub, depth, current, next);
    }
  }

  lemma {:induction false} BuiltRowRelated<S(!new)>(p: Params<S>, w: Witness<S>, epoch: S, x: S, pub: PublicInputs<S>,
      i: nat)
    requires p.Valid() && pub.x == x && i + 1 < TraceLength(|w.path|)
    ensures Related(p, pub, |w.path|, i, BuiltRow(p, w, epoch, x, i), BuiltRow(p, w, epoch, x, i + 1))
  {
    if i % BLOCK_LEN < ROUNDS {
      RelatedInBlock(p, w, epoch, x, pub, i);
    } else {
      var block := i / BLOCK_LEN;
      assert i == block * BLOCK_LEN + ROUNDS;
      RelatedAtBoundary(p, w, epoch, x, pub, block);
    }
  }

  lemma {:induction false} BuiltRelated<S(!new)>(p: Params<S>, w: Witness<S>, epoch: S, x: S, pub: PublicInputs<S>)
    requires p.Valid() && pub.x == x
    ensures RowsRelated(p, pub, |w.path|, BuiltTrace(p, w, epoch, x))
  {
    var t := BuiltTrace(p, w, epoch, x);
    forall i | 0 <= i < |t| - 1
      ensures Related(p, pub, |w.path|, i, t[i], t[i + 1])
    {
      BuiltRowRelated(p, w, epoch, x, pub, i);
    }
  }

  /** Lane 0 at the end of combining block `n` is the node the first `n` path steps lead to. */
  lemma {:induction false} OutputClimbs<S(!new)>(p: Params<S>, w: Witness<S>, epoch: S, x: S, leaf: S, n: nat)
    requires p.TablesFit() && n <= |w.path| && leaf == BlockOutput(p, w, epoch, x, 0)
    ensures BlockOutput(p, w, epoch, x, n) == Climb(p, leaf, w.path[..n])
    decreases n
  {
    if n > 0 {
      OutputClimbs(p, w, epoch, x, leaf, n - 1);
      ClimbSnoc(p, leaf, w.path[..n - 1], w.path[n - 1]);
      assert w.path[..n] == w.path[..n - 1] + [w.path[n - 1]];
      OutputCombines(p, w, epoch, x, n);
    }
  }

  lemma {:induction false} OutputCombines<S(!new)>(p: Params<S>, w: Witness<S>, epoch: S, x: S, n: nat)
    requires p.TablesFit() && 1 <= n <= |w.path|
    ensures BlockOutput(p, w, epoch, x, n) == Combine(p, BlockOutput(p, w, epoch, x, n - 1), w.path[n - 1])
  {
  }

  lemma {:induction false} BuiltRoot<S(!new)>(p: Params<S>, w: Witness<S>, epoch: S, x: S)
    requires p.TablesFit()
    ensures RootRow(|w.path|) < TraceLength(|w.path|)
    ensures BuiltTrace(p, w, epoch, x)[RootRow(|w.path|)][0] == Published(p, w, epoch, x).root
  {
    BuiltCell(p, w, epoch, x, |w.path|, ROUNDS);
    OutputClimbs(p, w, epoch, x, Compress2(p, w.sk, p.field.zero), |w.path|);
    assert w.path[..|w.path|] == w.path;
  }

  lemma {:induction false} BuiltNullifierAndShare<S(!new)>(p: Params<S>, w: Witness<S>, epoch: S, x: S)
    requires p.TablesFit()
    ensures A1OutputRow(|w.path|) < TraceLength(|w.path|) && YRow(|w.path|) < TraceLength(|w.path|)
    ensures BuiltTrace(p, w, epoch, x)[A1OutputRow(|w.path|)][0] == Published(p, w, epoch, x).nullifier
    ensures BuiltTrace(p, w, epoch, x)[YRow(|w.path|)][0] == Published(p, w, epoch, x).y
  {
    BuiltCell(p, w, epoch, x, |w.path| + 1, ROUNDS);
    BuiltCell(p, w, epoch, x, |w.path| + 2, 0);
  }

  /** The asserted cells of the built trace. */
  lemma {:induction false} BuiltAssertions<S(!new)>(p: Params<S>, w: Witness<S>, epoch: S, x: S)
    requires p.TablesFit()
    ensures AssertionsHold(p, Published(p, w, epoch, x), |w.path|, BuiltTrace(p, w, epoch, x))
  {
    AssertionsMean(p, Published(p, w, epoch, x), |w.path|, BuiltTrace(p, w, epoch, x));
    BuiltRoot(p, w, epoch, x);
    BuiltNullifierAndShare(p, w, epoch, x);
    CellsOf(p, w, epoch, x, 0);
    CellsOf(p, w, epoch, x, A1InputRow(|w.path|));
  }

  lemma {:induction false} RowAt<S(!new)>(p: Params<S>, w: Witness<S>, epoch: S, x: S, i: nat, block: nat, k: nat)
    requires p.TablesFit() && i < TraceLength(|w.path|) && i / BLOCK_LEN == block && i % BLOCK_LEN == k
    ensures BuiltTrace(p, w, epoch, x)[i]
            == Steps(p, BlockInput(p, w, epoch, x, block), k) + [w.sk, SiblingCell(p, w, epoch, i),
                SelectorCell(p, w, i)]
  {
  }

  lemma {:induction false} BuiltCell<S(!new)>(p: Params<S>, w: Witness<S>, epoch: S, x: S, block: nat, k: nat)
    requires p.TablesFit() && block < NumBlocks(|w.path|) && k <= ROUNDS
    ensures block * BLOCK_LEN + k < TraceLength(|w.path|)
    ensures BuiltTrace(p, w, epoch, x)[block * BLOCK_LEN + k][0] == Steps(p, BlockInput(p, w, epoch, x, block), k)[0]
  {
    RowIn(|w.path|, block, k);
    RowAt(p, w, epoch, x, block * BLOCK_LEN + k, block, k);
  }

  /** The prover's trace satisfies every constraint and assertion. */
  lemma {:induction false} Completeness<S(!new)>(p: Params<S>, w: Witness<S>, epoch: S, x: S)
    requires p.Valid() && IsValidDepth(|w.path|)
    ensures Accepts(p, Published(p, w, epoch, x), |w.path|, BuiltTrace(p, w, epoch, x))
  {
    BuiltRelated(p, w, epoch, x, Published(p, w, epoch, x));
    TransitionsMean(p, Published(p, w, epoch, x), |w.path|, BuiltTrace(p, w, epoch, x));
    BuiltAssertions(p, w, epoch, x);
  }

  /**
   The circuit means the relation: at every valid depth some trace is accepted for
   the public inputs exactly when some key and path have the intended relation to them.
   */
  lemma {:induction false} CircuitMeansRelation<S(!new)>(p: Params<S>, pub: PublicInputs<S>, depth: nat)
    requires p.Valid() && IsValidDepth(depth)
    ensures (exists t :: Accepts(p, pub, depth, t)) <==> (exists sk, path :: Intended(p, pub, depth, sk, path))
  {
    if t :| Accepts(p, pub, depth, t) {
      Soundness(p, pub, depth, t);
    }
    if sk, path :| Intended(p, pub, depth, sk, path) {
      Completeness(p, Witness(sk, path), pub.epoch, pub.x);
      assert Published(p, Witness(sk, path), pub.epoch, pub.x) == pub;
    }
  }

  /**
   With the real tree: the path of any leaf holding the key's commitment yields an
   accepted trace whose root row holds the tree's root.
   */
  lemma {:induction false} MemberProves<S(!new)>(p: Params<S>, depth: nat, levels: seq<seq<S>>, index: nat, sk: S,
      epoch: S, x: S)
    requires p.Valid() && IsValidDepth(depth) && WellBuilt(p, depth, levels)
    requires index < |levels[0]| && levels[0][index] == Compress2(p, sk, p.field.zero)
    ensures var w := Witness(sk, PathFrom(levels, depth, 0, index));
            var t := BuiltTrace(p, w, epoch, x);
            && |w.path| == depth
            && Accepts(p, Published(p, w, epoch, x), depth, t)
            && Published(p, w, epoch, x).root == levels[depth][0]
            && RootRow(depth) < |t| && t[RootRow(depth)][0] == levels[depth][0]
  {
    var w := Witness(sk, PathFrom(levels, depth, 0, index));
    Completeness(p, w, epoch, x);
    PathReachesRoot(p, depth, levels, 0, index);
    AssertionsMean(p, Published(p, w, epoch, x), depth, BuiltTrace(p, w, epoch, x));
  }
}
