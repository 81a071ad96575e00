/**
 Soundness: a trace that satisfies the circuit exhibits a secret key whose
 commitment a path of the tree's depth leads to the root, and carries that key's
 nullifier and share.
 */
module AirSoundness {
  import opened Algebra
  import opened Permutation
  import opened Merkle
  import opened Air
  import opened AirMeaning

  /** What the proof is meant to show of the public inputs. */
  ghost predicate Intended<S(!new)>(p: Params<S>, pub: PublicInputs<S>, depth: nat, sk: S, path: seq<PathStep<S>>)
    requires p.TablesFit()
  {
    && |path| == depth
    && Climb(p, Compress2(p, sk, p.field.zero), path) == pub.root
    && pub.nullifier == Compress2(p, sk, pub.epoch)
    && pub.y == p.field.add(sk, p.field.mul(pub.nullifier, pub.x))
  }

  /** Consecutive rows are related as intended, throughout. */
  ghost predicate RowsRelated<S(!new)>(p: Params<S>, pub: PublicInputs<S>, depth: nat, t: seq<Row<S>>)
    requires p.TablesFit() && IsTrace(t, depth)
  {
    forall i :: 0 <= i < |t| - 1 ==> Related(p, pub, depth, i, t[i], t[i + 1])
  }

  lemma {:induction false} TransitionsMean<S(!new)>(p: Params<S>, pub: PublicInputs<S>, depth: nat, t: seq<Row<S>>)
    requires p.Valid() && IsTrace(t, depth)
    ensures TransitionsHold(p, pub, depth, t) <==> RowsRelated(p, pub, depth, t)
  {
    forall i | 0 <= i < |t| - 1
      ensures Vanishes(p, EvaluateTransition(p, pub, t[i], t[i + 1], PeriodicAt(p, depth, i)))
              <==> Related(p, pub, depth, i, t[i], t[i + 1])
    {
      ConstraintsMean(p, pub, depth, i, t[i], t[i + 1]);
    }
  }

  /** The secret-key column is constant. */
  lemma {:induction false} KeyConstant<S(!new)>(p: Params<S>, pub: PublicInputs<S>, depth: nat, t: seq<Row<S>>, i: nat)
    requires p.TablesFit() && IsTrace(t, depth) && RowsRelated(p, pub, depth, t) && i < |t|
    ensures t[i][COL_SK] == t[0][COL_SK]
  {
    if i > 0 {
      KeyConstant(p, pub, depth, t, i - 1);
      assert Related(p, pub, depth, i - 1, t[i - 1], t[i - 1 + 1]);
    }
  }

  lemma {:induction false} RowIn(depth: nat, block: nat, k: nat)
    requires block < NumBlocks(depth) && k < BLOCK_LEN
    ensures block * BLOCK_LEN + k < TraceLength(depth)
    ensures (block * BLOCK_LEN + k) % BLOCK_LEN == k
  {
  }

  lemma {:induction false} StepInBlock<S(!new)>(p: Params<S>, pub: PublicInputs<S>, depth: nat, t: seq<Row<S>>,
      i: nat, r: nat)
    requires p.TablesFit() && IsTrace(t, depth) && RowsRelated(p, pub, depth, t)
    requires i + 1 < |t| && i % BLOCK_LEN == r < ROUNDS
    ensures StateOf(t[i + 1]) == ApplyStep(p, StateOf(t[i]), StepKindAt(r), RoundConstants(p, r))
  {
    assert Related(p, pub, depth, i, t[i], t[i + 1]);
  }

  /** Within a block each row is the permutation's next step applied to the block's first row. */
  lemma {:induction false} BlockRuns<S(!new)>(p: Params<S>, pub: PublicInputs<S>, depth: nat, t: seq<Row<S>>,
      block: nat, k: nat)
    requires p.TablesFit() && IsTrace(t, depth) && RowsRelated(p, pub, depth, t)
    requires block < NumBlocks(depth) && k <= ROUNDS
    ensures block * BLOCK_LEN + k < |t|
    ensures StateOf(t[block * BLOCK_LEN + k]) == Steps(p, StateOf(t[block * BLOCK_LEN]), k)
    decreases k
  {
    RowIn(depth, block, k);
    if k > 0 {
      BlockRuns(p, pub, depth, t, block, k - 1);
      RowIn(depth, block, k - 1);
      StepInBlock(p, pub, depth, t, block * BLOCK_LEN + (k - 1), k - 1);
    }
  }

  /** A block seeded with two lanes ends with their compression in lane 0. */
  lemma {:induction false} BlockCompresses<S(!new)>(p: Params<S>, pub: PublicInputs<S>, depth: nat, t: seq<Row<S>>,
      block: nat, left: S, right: S)
    requires p.TablesFit() && IsTrace(t, depth) && RowsRelated(p, pub, depth, t) && block < NumBlocks(depth)
    requires block * BLOCK_LEN < |t| && StateOf(t[block * BLOCK_LEN]) == Seeded(p.field, left, right)
    ensures block * BLOCK_LEN + ROUNDS < |t|
    ensures t[block * BLOCK_LEN + ROUNDS][0] == Compress2(p, left, right)
  {
    BlockRuns(p, pub, depth, t, block, ROUNDS);
    assert StateOf(t[block * BLOCK_LEN + ROUNDS])[0] == t[block * BLOCK_LEN + ROUNDS][0];
  }

  /** A boolean selector either keeps the running node on the left or moves it to the right. */
  lemma {:induction false} InjectedIs<S(!new)>(p: Params<S>, current: Row<S>, next: Row<S>)
    requires p.Valid() && |current| == TRACE_WIDTH && |next| == TRACE_WIDTH
    ensures next[COL_SELECTOR] == p.field.zero ==>
              Injected(p, current, next, 0) == current[0] && Injected(p, current, next, 1) == next[COL_SIBLING]
    ensures next[COL_SELECTOR] == p.field.one ==>
              Injected(p, current, next, 0) == next[COL_SIBLING] && Injected(p, current, next, 1) == current[0]
  {
    var f, cur, sib := p.field, current[0], next[COL_SIBLING];
    BitNot(f, true);
    BitNot(f, false);
    f.MulOne(cur);
    f.MulOne(sib);
    f.MulZero(cur);
    f.MulZero(sib);
    f.AddZero(cur);
    f.AddZero(sib);
  }

  /** The authentication step a boundary row injects. */
  ghost function StepIn<S(!new)>(p: Params<S>, row: Row<S>): PathStep<S>
    requires |row| == TRACE_WIDTH
  {
    PathStep(row[COL_SIBLING], if row[COL_SELECTOR] == p.field.zero then Left else Right)
  }

  /** The path read off the boundary rows of the first `n` combining blocks. */
  ghost function PathIn<S(!new)>(p: Params<S>, t: seq<Row<S>>, depth: nat, n: nat): (path: seq<PathStep<S>>)
    requires IsTrace(t, depth) && n <= depth
    ensures |path| == n
  {
    if n == 0 then [] else PathIn(p, t, depth, n - 1) + [StepIn(p, t[n * BLOCK_LEN])]
  }

  /** The row after an ordinary block boundary is seeded with the running node and its sibling, on the chosen sides. */
  lemma {:induction false} MerkleBoundary<S(!new)>(p: Params<S>, pub: PublicInputs<S>, depth: nat, t: seq<Row<S>>,
      n: nat)
    requires p.Valid() && IsTrace(t, depth) && RowsRelated(p, pub, depth, t) && 1 <= n <= depth
    ensures var cur, step := t[n * BLOCK_LEN - 1][0], StepIn(p, t[n * BLOCK_LEN]);
            StateOf(t[n * BLOCK_LEN])
            == if step.side == Left then Seeded(p.field, cur, step.sibling) else Seeded(p.field, step.sibling, cur)
  {
    var i := n * BLOCK_LEN - 1;
    assert i % BLOCK_LEN == ROUNDS && i < A1TransitionRow(depth);
    assert Related(p, pub, depth, i, t[i], t[i + 1]);
    assert Related(p, pub, depth, i + 1, t[i + 1], t[i + 2]);
    InjectedIs(p, t[i], t[i + 1]);
    var state := StateOf(t[i + 1]);
    assert forall k :: 0 <= k < WIDTH ==> state[k] == t[i + 1][k];
  }

  /** After block `n` lane 0 holds the node the path read so far leads to from the leaf. */
  lemma {:induction false} MerkleRuns<S(!new)>(p: Params<S>, pub: PublicInputs<S>, depth: nat, t: seq<Row<S>>,
      leaf: S, n: nat)
    requires p.Valid() && IsTrace(t, depth) && RowsRelated(p, pub, depth, t) && n <= depth
    requires leaf == t[ROUNDS][0]
    ensures n * BLOCK_LEN + ROUNDS < |t|
    ensures t[n * BLOCK_LEN + ROUNDS][0] == Climb(p, leaf, PathIn(p, t, depth, n))
    decreases n
  {
    if n > 0 {
      MerkleRuns(p, pub, depth, t, leaf, n - 1);
      ClimbSnoc(p, leaf, PathIn(p, t, depth, n - 1), StepIn(p, t[n * BLOCK_LEN]));
      MerkleBlock(p, pub, depth, t, n);
    }
  }

  /** Each combining block ends with the previous node and its sibling compressed on the chosen sides. */
  lemma {:induction false} MerkleBlock<S(!new)>(p: Params<S>, pub: PublicInputs<S>, depth: nat, t: seq<Row<S>>, n: nat)
    requires p.Valid() && IsTrace(t, depth) && RowsRelated(p, pub, depth, t) && 1 <= n <= depth
    ensures (n - 1) * BLOCK_LEN + ROUNDS < n * BLOCK_LEN + ROUNDS < |t|
    ensures t[n * BLOCK_LEN + ROUNDS][0]
            == Combine(p, t[(n - 1) * BLOCK_LEN + ROUNDS][0], StepIn(p, t[n * BLOCK_LEN]))
  {
    MerkleBoundary(p, pub, depth, t, n);
    var cur, step := t[(n - 1) * BLOCK_LEN + ROUNDS][0], StepIn(p, t[n * BLOCK_LEN]);
    assert n * BLOCK_LEN - 1 == (n - 1) * BLOCK_LEN + ROUNDS;
    if step.side == Left {
      BlockCompresses(p, pub, depth, t, n, cur, step.sibling);
    } else {
      BlockCompresses(p, pub, depth, t, n, step.sibling, cur);
    }
  }

  /** Each assertion, read cell by cell. */
  lemma {:induction false} AssertionsMean<S(!new)>(p: Params<S>, pub: PublicInputs<S>, depth: nat, t: seq<Row<S>>)
    requires IsTrace(t, depth)
    ensures A1InputRow(depth) < |t| && YRow(depth) < |t|
    ensures AssertionsHold(p, pub, depth, t) <==>
            && (forall k :: 1 <= k < WIDTH ==> t[0][k] == p.field.zero)
            && t[RootRow(depth)][0] == pub.root
            && t[A1OutputRow(depth)][0] == pub.nullifier
            && t[YRow(depth)][0] == pub.y
            && t[A1InputRow(depth)][COL_SIBLING] == pub.epoch
            && t[A1InputRow(depth)][COL_SELECTOR] == p.field.zero
  {
    var all := GetAssertions(p, pub, depth);
    if AssertionsHold(p, pub, depth, t) {
      forall k | 1 <= k < WIDTH ensures t[0][k] == p.field.zero {
        assert all[k - 1] == Assertion(k, 0, p.field.zero);
      }
      assert all[7].row == RootRow(depth) && all[8].row == A1OutputRow(depth) && all[9].row == YRow(depth);
      assert all[10].row == A1InputRow(depth) && all[11].row == A1InputRow(depth);
    }
  }

  /** Row 0 is seeded with the secret key. */
  lemma {:induction false} FirstRow<S(!new)>(p: Params<S>, pub: PublicInputs<S>, depth: nat, t: seq<Row<S>>)
    requires p.Valid() && IsTrace(t, depth) && RowsRelated(p, pub, depth, t) && AssertionsHold(p, pub, depth, t)
    ensures StateOf(t[0]) == Seeded(p.field, t[0][COL_SK], p.field.zero)
  {
    AssertionsMean(p, pub, depth, t);
    assert Related(p, pub, depth, 0, t[0], t[0 + 1]);
    var state := StateOf(t[0]);
    assert forall k :: 0 <= k < WIDTH ==> state[k] == t[0][k];
  }

  /** The nullifier block and the share row. */
  lemma {:induction false} NullifierAndShare<S(!new)>(p: Params<S>, pub: PublicInputs<S>, depth: nat, t: seq<Row<S>>,
      sk: S)
    requires p.Valid() && IsTrace(t, depth) && RowsRelated(p, pub, depth, t) && AssertionsHold(p, pub, depth, t)
    requires sk == t[0][COL_SK]
    ensures pub.nullifier == Compress2(p, sk, pub.epoch)
    ensures pub.y == p.field.add(sk, p.field.mul(pub.nullifier, pub.x))
  {
    AssertionsMean(p, pub, depth, t);
    TransitionRows(depth);
    var a, b := A1TransitionRow(depth), LinearcheckTransitionRow(depth);
    KeyConstant(p, pub, depth, t, a);
    KeyConstant(p, pub, depth, t, b);
    assert Related(p, pub, depth, a, t[a], t[a + 1]);
    assert Related(p, pub, depth, b, t[b], t[b + 1]);
    InjectedIs(p, t[a], t[a + 1]);
    var state := StateOf(t[a + 1]);
    assert forall k :: 0 <= k < WIDTH ==> state[k] == t[a + 1][k];
    assert state == Seeded(p.field, sk, pub.epoch);
    assert a + 1 == (depth + 1) * BLOCK_LEN;
    BlockCompresses(p, pub, depth, t, depth + 1, sk, pub.epoch);
  }

  /** The path read off the trace leads from the key's commitment to the public root. */
  lemma {:induction false} RootReached<S(!new)>(p: Params<S>, pub: PublicInputs<S>, depth: nat, t: seq<Row<S>>, sk: S)
    requires p.Valid() && IsTrace(t, depth) && RowsRelated(p, pub, depth, t) && AssertionsHold(p, pub, depth, t)
    requires sk == t[0][COL_SK]
    ensures Climb(p, Compress2(p, sk, p.field.zero), PathIn(p, t, depth, depth)) == pub.root
  {
    FirstRow(p, pub, depth, t);
    BlockCompresses(p, pub, depth, t, 0, sk, p.field.zero);
    MerkleRuns(p, pub, depth, t, Compress2(p, sk, p.field.zero), depth);
    AssertionsMean(p, pub, depth, t);
    assert RootRow(depth) == depth * BLOCK_LEN + ROUNDS;
  }

  /**
   Soundness. At every valid depth, a trace on which every transition constraint
   vanishes and every assertion holds exhibits a key and a path of that depth with
   the intended relation to the public inputs.
   */
  lemma {:induction false} Soundness<S(!new)>(p: Params<S>, pub: PublicInputs<S>, depth: nat, t: seq<Row<S>>)
    requires p.Valid() && IsValidDepth(depth) && Accepts(p, pub, depth, t)
    ensures Intended(p, pub, depth, t[0][COL_SK], PathIn(p, t, depth, depth))
  {
    TransitionsMean(p, pub, depth, t);
    RootReached(p, pub, depth, t, t[0][COL_SK]);
    NullifierAndShare(p, pub, depth, t, t[0][COL_SK]);
  }
}
