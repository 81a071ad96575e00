/**
 The two column builders, as loops: the prover's execution trace, written cell by
 cell, and the periodic columns both sides derive from the depth.
 */
module AirBuild {
  import opened Algebra
  import opened Permutation
  import opened Merkle
  import opened Air
  import opened AirSoundness
  import opened AirTrace

  // ----- the execution trace -----

  /** Row `r` of the table holds the built trace's row. */
  ghost predicate RowDone<S(!new)>(cols: array2<S>, t: seq<Row<S>>, r: int)
    requires cols.Length0 == TRACE_WIDTH && cols.Length1 == |t| && 0 <= r < |t| && |t[r]| == TRACE_WIDTH
    reads cols
  {
    forall c :: 0 <= c < TRACE_WIDTH ==> cols[c, r] == t[r][c]
  }

  /** Row `r` still has only its key cell filled in. */
  ghost predicate RowBlank<S(!new)>(p: Params<S>, cols: array2<S>, sk: S, r: int)
    requires cols.Length0 == TRACE_WIDTH && 0 <= r < cols.Length1
    reads cols
  {
    cols[COL_SK, r] == sk && cols[COL_SIBLING, r] == p.field.zero && cols[COL_SELECTOR, r] == p.field.zero
  }

  /** The table after `row` rows: those done, the rest blank. */
  ghost predicate Filled<S(!new)>(p: Params<S>, cols: array2<S>, w: Witness<S>, epoch: S, x: S, row: int)
    requires p.TablesFit()
    reads cols
  {
    var t := BuiltTrace(p, w, epoch, x);
    && cols.Length0 == TRACE_WIDTH && cols.Length1 == |t| && 0 <= row <= |t|
    && (forall r :: 0 <= r < row ==> RowDone(cols, t, r))
    && (forall r :: row <= r < |t| ==> RowBlank(p, cols, w.sk, r))
  }

  /** Writes the eight state cells of one row. */
  method WriteState<S(!new)>(cols: array2<S>, row: nat, state: seq<S>)
    requires cols.Length0 == TRACE_WIDTH && row < cols.Length1 && |state| == WIDTH
    modifies cols
    ensures forall c, r :: 0 <= c < TRACE_WIDTH && 0 <= r < cols.Length1 ==>
                             cols[c, r] == if r == row && c < WIDTH then state[c] else old(cols[c, r])
  {
    for k := 0 to WIDTH
      invariant forall c, r :: 0 <= c < TRACE_WIDTH && 0 <= r < cols.Length1 ==>
                                 cols[c, r] == if r == row && c < k then state[c] else old(cols[c, r])
    {
      cols[k, row] := state[k];
    }
  }

  /** Completes row `row` by writing its state and its two injection cells. */
  method WriteRow<S(!new)>(p: Params<S>, cols: array2<S>, ghost w: Witness<S>, ghost epoch: S, ghost x: S, row: nat,
                           state: seq<S>, sibling: S, selector: S)
    requires p.TablesFit() && Filled(p, cols, w, epoch, x, row) && row < cols.Length1
    requires |state| == WIDTH && state + [w.sk, sibling, selector] == BuiltTrace(p, w, epoch, x)[row]
    modifies cols
    ensures Filled(p, cols, w, epoch, x, row + 1)
  {
    ghost var t := BuiltTrace(p, w, epoch, x);
    assert RowBlank(p, cols, w.sk, row);
    cols[COL_SIBLING, row] := sibling;
    cols[COL_SELECTOR, row] := selector;
    WriteState(cols, row, state);
    forall c | 0 <= c < TRACE_WIDTH ensures cols[c, row] == t[row][c] {
      assert t[row][c] == (state + [w.sk, sibling, selector])[c];
    }
    forall r | 0 <= r < row ensures RowDone(cols, t, r) {
      assert old(RowDone(cols, t, r));
    }
    forall r | row + 1 <= r < |t| ensures RowBlank(p, cols, w.sk, r) {
      assert old(RowBlank(p, cols, w.sk, r));
    }
  }

  /** Runs the permutation down one block, writing every row after its first. */
  method RunBlock<S(!new)>(p: Params<S>, cols: array2<S>, ghost w: Witness<S>, ghost epoch: S, ghost x: S, block: nat,
                           input: seq<S>) returns (state: seq<S>)
    requires p.TablesFit() && block < NumBlocks(|w.path|) && input == BlockInput(p, w, epoch, x, block)
    requires Filled(p, cols, w, epoch, x, block * BLOCK_LEN + 1)
    modifies cols
    ensures Filled(p, cols, w, epoch, x, (block + 1) * BLOCK_LEN)
    ensures |state| == WIDTH && state == Steps(p, BlockInput(p, w, epoch, x, block), ROUNDS)
  {
    state := input;
    for r := 0 to ROUNDS
      invariant |state| == WIDTH && state == Steps(p, BlockInput(p, w, epoch, x, block), r)
      invariant Filled(p, cols, w, epoch, x, block * BLOCK_LEN + r + 1)
    {
      state := ApplyStep(p, state, StepKindAt(r), RoundConstants(p, r));
      RoundRow(p, w, epoch, x, block, r + 1);
      WriteRow(p, cols, w, epoch, x, block * BLOCK_LEN + r + 1, state, p.field.zero, p.field.zero);
    }
  }

  /** A row inside a block injects nothing. */
  lemma {:induction false} RoundRow<S(!new)>(p: Params<S>, w: Witness<S>, epoch: S, x: S, block: nat, k: nat)
    requires p.TablesFit() && block < NumBlocks(|w.path|) && 1 <= k <= ROUNDS
    ensures block * BLOCK_LEN + k < TraceLength(|w.path|)
    ensures BuiltTrace(p, w, epoch, x)[block * BLOCK_LEN + k]
            == Steps(p, BlockInput(p, w, epoch, x, block), k) + [w.sk, p.field.zero, p.field.zero]
  {
    RowIn(|w.path|, block, k);
    RowAt(p, w, epoch, x, block * BLOCK_LEN + k, block, k);
  }

  /** The first row of a block. */
  lemma {:induction false} SeedRow<S(!new)>(p: Params<S>, w: Witness<S>, epoch: S, x: S, block: nat)
    requires p.TablesFit() && block < NumBlocks(|w.path|)
    ensures block * BLOCK_LEN < TraceLength(|w.path|)
    ensures BuiltTrace(p, w, epoch, x)[block * BLOCK_LEN]
            == BlockInput(p, w, epoch, x, block)
               + [w.sk, SiblingCell(p, w, epoch, block * BLOCK_LEN), SelectorCell(p, w, block * BLOCK_LEN)]
  {
    RowIn(|w.path|, block, 0);
    RowAt(p, w, epoch, x, block * BLOCK_LEN, block, 0);
  }

  method InitColumns<S(!new)>(p: Params<S>, w: Witness<S>, ghost epoch: S, ghost x: S) returns (cols: array2<S>)
    requires p.TablesFit()
    ensures fresh(cols) && Filled(p, cols, w, epoch, x, 0)
  {
    var length := TraceLength(|w.path|);
    cols := new S[TRACE_WIDTH, length]((_, _) => p.field.zero);
    for r := 0 to length
      invariant forall c, k :: 0 <= c < TRACE_WIDTH && 0 <= k < length ==>
                                 cols[c, k] == if c == COL_SK && k < r then w.sk else p.field.zero
    {
      cols[COL_SK, r] := w.sk;
    }
    forall r | 0 <= r < length ensures RowBlank(p, cols, w.sk, r) { }
  }

  /** Seeds a block's first row with its injection cells and runs the block. */
  method WriteBlock<S(!new)>(p: Params<S>, cols: array2<S>, ghost w: Witness<S>, ghost epoch: S, ghost x: S, block: nat,
                             input: seq<S>, sibling: S, selector: S) returns (state: seq<S>)
    requires p.TablesFit() && block < NumBlocks(|w.path|) && input == BlockInput(p, w, epoch, x, block)
    requires sibling == SiblingCell(p, w, epoch, block * BLOCK_LEN) && selector == SelectorCell(p, w, block * BLOCK_LEN)
    requires Filled(p, cols, w, epoch, x, block * BLOCK_LEN)
    modifies cols
    ensures Filled(p, cols, w, epoch, x, (block + 1) * BLOCK_LEN)
    ensures |state| == WIDTH && state[0] == BlockOutput(p, w, epoch, x, block)
  {
    SeedRow(p, w, epoch, x, block);
    WriteRow(p, cols, w, epoch, x, block * BLOCK_LEN, input, sibling, selector);
    state := RunBlock(p, cols, w, epoch, x, block, input);
  }

  /** The injection cells of each block's first row. */
  lemma {:induction false} SeedCells<S(!new)>(p: Params<S>, w: Witness<S>, epoch: S, block: nat)
    requires block < NumBlocks(|w.path|)
    ensures SiblingCell(p, w, epoch, block * BLOCK_LEN)
            == if 1 <= block <= |w.path| then w.path[block - 1].sibling else if block == |w.path| + 1 then epoch
                else p.field.zero
    ensures SelectorCell(p, w, block * BLOCK_LEN)
            == if 1 <= block <= |w.path| && w.path[block - 1].side == Right then p.field.one else p.field.zero
  {
    assert block * BLOCK_LEN / BLOCK_LEN == block && block * BLOCK_LEN % BLOCK_LEN == 0;
  }

  /** Builds the whole execution trace for a witness. */
  method BuildTrace<S(!new)>(p: Params<S>, w: Witness<S>, epoch: S, x: S) returns (cols: array2<S>)
    requires p.TablesFit() && IsValidDepth(|w.path|)
    ensures fresh(cols) && cols.Length0 == TRACE_WIDTH && cols.Length1 == TraceLength(|w.path|)
    ensures forall c, r :: 0 <= c < TRACE_WIDTH && 0 <= r < cols.Length1
                ==> cols[c, r] == BuiltTrace(p, w, epoch, x)[r][c]
  {
    var depth := |w.path|;
    cols := InitColumns(p, w, epoch, x);
    SeedCells(p, w, epoch, 0);
    var state := WriteBlock(p, cols, w, epoch, x, 0, Seeded(p.field, w.sk, p.field.zero), p.field.zero, p.field.zero);
    for i := 0 to depth
      invariant |state| == WIDTH && state[0] == BlockOutput(p, w, epoch, x, i)
      invariant fresh(cols) && Filled(p, cols, w, epoch, x, (i + 1) * BLOCK_LEN)
    {
      var step := w.path[i];
      var selector := if step.side == Left then p.field.zero else p.field.one;
      var input := if step.side == Left then Seeded(p.field, state[0], step.sibling)
          else Seeded(p.field, step.sibling, state[0]);
      SeedCells(p, w, epoch, i + 1);
      state := WriteBlock(p, cols, w, epoch, x, i + 1, input, step.sibling, selector);
    }
    SeedCells(p, w, epoch, depth + 1);
    state := WriteBlock(p, cols, w, epoch, x, depth + 1, Seeded(p.field, w.sk, epoch), epoch, p.field.zero);
    SeedCells(p, w, epoch, depth + 2);
    var y := Seeded(p.field, ShareValue(p, w.sk, state[0], x), p.field.zero);
    state := WriteBlock(p, cols, w, epoch, x, depth + 2, y, p.field.zero, p.field.zero);
    forall c, r | 0 <= c < TRACE_WIDTH && 0 <= r < cols.Length1
      ensures cols[c, r] == BuiltTrace(p, w, epoch, x)[r][c]
    {
      assert RowDone(cols, BuiltTrace(p, w, epoch, x), r);
    }
  }

  // ----- the periodic columns -----

  /** The value of periodic column `k`. */
  function PeriodicCell<S(!new)>(v: Periodic<S>, k: nat): S
    requires k < NUM_PERIODIC && |v.rc| == WIDTH
  {
    if k == 0 then v.isLastInBlock
    else if k <= WIDTH then v.rc[k - 1]
    else if k == 9 then v.isLinearOnly
    else if k == 10 then v.isFull
    else if k == 11 then v.isPartial
    else if k == 12 then v.isA1Transition
    else if k == 13 then v.isLinearcheckTransition
    else v.isRow0
  }

  /** `col`, repeated as often as needed, is periodic column `k`. */
  ghost predicate IsColumn<S(!new)>(p: Params<S>, depth: nat, col: seq<S>, k: nat)
    requires p.TablesFit() && k < NUM_PERIODIC
  {
    |col| > 0 && forall row :: 0 <= row < TraceLength(depth)
                     ==> col[row % |col|] == PeriodicCell(PeriodicAt(p, depth, row), k)
  }

  /** Columns 0 to 11 hold the same at any two rows with one position in their blocks. */
  lemma {:induction false} SameInBlock<S(!new)>(p: Params<S>, depth: nat, row: nat, r: nat, k: nat)
    requires p.TablesFit() && k <= 11 && row % BLOCK_LEN == r % BLOCK_LEN
    ensures PeriodicCell(PeriodicAt(p, depth, row), k) == PeriodicCell(PeriodicAt(p, depth, r), k)
  {
  }

  /** A column of one block repeats what each row of the block holds. */
  lemma {:induction false} BlockColumn<S(!new)>(p: Params<S>, depth: nat, col: seq<S>, k: nat)
    requires p.TablesFit() && k <= 11 && |col| == BLOCK_LEN
    requires forall r :: 0 <= r < BLOCK_LEN ==> col[r] == PeriodicCell(PeriodicAt(p, depth, r), k)
    ensures IsColumn(p, depth, col, k)
  {
    forall row | 0 <= row < TraceLength(depth)
      ensures col[row % |col|] == PeriodicCell(PeriodicAt(p, depth, row), k)
    {
      var r := row % BLOCK_LEN;
      SmallMod(r, BLOCK_LEN);
      SameInBlock(p, depth, row, r, k);
    }
  }

  lemma {:induction false} SmallMod(row: nat, length: nat)
    requires row < length
    ensures row % length == row
  {
  }

  /** A column spanning the trace with a single one. */
  lemma {:induction false} SpanColumn<S(!new)>(p: Params<S>, depth: nat, col: seq<S>, at: nat, k: nat)
    requires p.TablesFit() && at < TraceLength(depth)
    requires col == seq(TraceLength(depth), _ => p.field.zero)[at := p.field.one]
    requires (k == 12 && at == A1TransitionRow(depth)) || (k == 13 && at == LinearcheckTransitionRow(depth))
             || (k == 14 && at == 0)
    ensures IsColumn(p, depth, col, k)
  {
    forall row | 0 <= row < TraceLength(depth)
      ensures col[row % |col|] == PeriodicCell(PeriodicAt(p, depth, row), k)
    {
      SmallMod(row, |col|);
      assert col[row] == Bit(p.field, row == at);
    }
  }

  /** The fifteen columns side by side. */
  lemma {:induction false} Assembled<S(!new)>(p: Params<S>, depth: nat, isLast: seq<S>, rcCols: seq<seq<S>>,
      rest: seq<seq<S>>)
    requires p.TablesFit() && |rcCols| == WIDTH && |rest| == 6
    requires IsColumn(p, depth, isLast, 0)
    requires forall k {:trigger rcCols[k]} :: 0 <= k < WIDTH ==> IsColumn(p, depth, rcCols[k], k + 1)
    requires forall k {:trigger rest[k]} :: 0 <= k < 6 ==> IsColumn(p, depth, rest[k], k + 9)
    ensures forall k :: 0 <= k < NUM_PERIODIC ==> IsColumn(p, depth, ([isLast] + rcCols + rest)[k], k)
  {
    var cols := [isLast] + rcCols + rest;
    forall k | 0 <= k < NUM_PERIODIC ensures IsColumn(p, depth, cols[k], k) {
      if 1 <= k <= WIDTH {
        assert cols[k] == rcCols[k - 1];
      } else if k > WIDTH {
        assert cols[k] == rest[k - 9];
      }
    }
  }

  /** The cells the schedule loop fills in one selector column. */
  ghost predicate KindCells<S(!new)>(p: Params<S>, col: seq<S>, kind: StepKind, rows: nat) {
    |col| == BLOCK_LEN &&
    forall r: nat {:trigger col[r]} :: r < BLOCK_LEN ==> col[r] == Bit(p.field, r < rows && StepKindAt(r) == kind)
  }

  /** Marking the scheduled column, and leaving the others alone, extends each by one row. */
  lemma {:induction false} KindCellsStep<S(!new)>(p: Params<S>, col: seq<S>, kind: StepKind, rows: nat)
    requires KindCells(p, col, kind, rows) && rows < ROUNDS
    ensures KindCells(p, if StepKindAt(rows) == kind then col[rows := p.field.one] else col, kind, rows + 1)
  {
  }

  ghost predicate ConstantCells<S(!new)>(p: Params<S>, rcCols: seq<seq<S>>, rows: nat)
    requires p.TablesFit() && rows <= ROUNDS
  {
    && |rcCols| == WIDTH && (forall k :: 0 <= k < WIDTH ==> |rcCols[k]| == BLOCK_LEN)
    && (forall k: nat, r: nat {:trigger rcCols[k][r]} :: k < WIDTH && r < BLOCK_LEN ==>
          rcCols[k][r] == if r < rows then RoundConstants(p, r)[k] else p.field.zero)
  }

  /** Row `r` of the first block is its own place in the block. */
  lemma {:induction false} FirstBlock<S(!new)>(p: Params<S>, depth: nat, r: nat)
    requires p.TablesFit() && r < BLOCK_LEN
    ensures PeriodicAt(p, depth, r).rc == if r < ROUNDS then RoundConstants(p, r) else seq(WIDTH, _ => p.field.zero)
    ensures PeriodicAt(p, depth, r).isLinearOnly == Bit(p.field, r < ROUNDS && StepKindAt(r) == LinearOnly)
    ensures PeriodicAt(p, depth, r).isFull == Bit(p.field, r < ROUNDS && StepKindAt(r) == Full)
    ensures PeriodicAt(p, depth, r).isPartial == Bit(p.field, r < ROUNDS && StepKindAt(r) == Partial)
  {
    SmallMod(r, BLOCK_LEN);
  }

  lemma {:induction false} ConstantColumn<S(!new)>(p: Params<S>, depth: nat, rcCols: seq<seq<S>>, k: nat)
    requires p.TablesFit() && ConstantCells(p, rcCols, ROUNDS) && k < WIDTH
    ensures IsColumn(p, depth, rcCols[k], k + 1)
  {
    forall r: nat | r < BLOCK_LEN ensures rcCols[k][r] == PeriodicCell(PeriodicAt(p, depth, r), k + 1) {
      FirstBlock(p, depth, r);
      var rc := PeriodicAt(p, depth, r).rc;
      assert PeriodicCell(PeriodicAt(p, depth, r), k + 1) == rc[k];
      assert rcCols[k][r] == if r < ROUNDS then RoundConstants(p, r)[k] else p.field.zero;
      assert rc[k] == if r < ROUNDS then RoundConstants(p, r)[k] else p.field.zero;
    }
    BlockColumn(p, depth, rcCols[k], k + 1);
  }

  lemma {:induction false} KindColumn<S(!new)>(p: Params<S>, depth: nat, col: seq<S>, kind: StepKind, k: nat)
    requires p.TablesFit() && KindCells(p, col, kind, ROUNDS)
    requires k == match kind case LinearOnly => 9 case Full => 10 case Partial => 11
    ensures IsColumn(p, depth, col, k)
  {
    forall r: nat | r < BLOCK_LEN ensures col[r] == PeriodicCell(PeriodicAt(p, depth, r), k) {
      FirstBlock(p, depth, r);
    }
    BlockColumn(p, depth, col, k);
  }

  /** The columns as built: short ones repeat every block, long ones span the trace. */
  method GetPeriodicColumnValues<S(!new)>(p: Params<S>, depth: nat) returns (cols: seq<seq<S>>)
    requires p.TablesFit()
    ensures |cols| == NUM_PERIODIC && forall k :: 0 <= k < NUM_PERIODIC ==> IsColumn(p, depth, cols[k], k)
  {
    var f, length := p.field, TraceLength(depth);
    var isLast := seq(BLOCK_LEN, _ => f.zero)[BLOCK_LEN - 1 := f.one];
    var rcCols, linear, full, partial := RoundColumns(p);
    var a1 := seq(length, _ => f.zero)[A1TransitionRow(depth) := f.one];
    var check := seq(length, _ => f.zero)[LinearcheckTransitionRow(depth) := f.one];
    var row0 := seq(length, _ => f.zero)[0 := f.one];
    BlockColumn(p, depth, isLast, 0);
    forall k {:trigger rcCols[k]} | 0 <= k < WIDTH ensures IsColumn(p, depth, rcCols[k], k + 1) {
      ConstantColumn(p, depth, rcCols, k);
    }
    KindColumn(p, depth, linear, LinearOnly, 9);
    KindColumn(p, depth, full, Full, 10);
    KindColumn(p, depth, partial, Partial, 11);
    SpanColumn(p, depth, a1, A1TransitionRow(depth), 12);
    SpanColumn(p, depth, check, LinearcheckTransitionRow(depth), 13);
    SpanColumn(p, depth, row0, 0, 14);
    Assembled(p, depth, isLast, rcCols, [linear, full, partial, a1, check, row0]);
    cols := [isLast] + rcCols + [linear, full, partial, a1, check, row0];
  }

  /** The loop over the schedule that fills the round-constant and selector columns. */
  method RoundColumns<S(!new)>(p: Params<S>) returns (rcCols: seq<seq<S>>, linear: seq<S>, full: seq<S>,
      partial: seq<S>)
    requires p.TablesFit()
    ensures ConstantCells(p, rcCols, ROUNDS)
    ensures KindCells(p, linear, LinearOnly, ROUNDS) && KindCells(p, full, Full, ROUNDS)
            && KindCells(p, partial, Partial, ROUNDS)
  {
    var zeros := seq(BLOCK_LEN, _ => p.field.zero);
    rcCols, linear, full, partial := seq(WIDTH, _ => zeros), zeros, zeros, zeros;
    for r := 0 to ROUNDS
      invariant ConstantCells(p, rcCols, r)
      invariant KindCells(p, linear, LinearOnly, r) && KindCells(p, full, Full, r) && KindCells(p, partial, Partial, r)
    {
      KindCellsStep(p, linear, LinearOnly, r);
      KindCellsStep(p, full, Full, r);
      KindCellsStep(p, partial, Partial, r);
      var rc := RoundConstants(p, r);
      rcCols := seq(WIDTH, k requires 0 <= k < WIDTH && |rcCols| == WIDTH
          && |rcCols[k]| == BLOCK_LEN => rcCols[k][r := rc[k]]);
      match StepKindAt(r) {
        case LinearOnly => linear := linear[r := p.field.one];
        case Full => full := full[r := p.field.one];
        case Partial => partial := partial[r := p.field.one];
      }
    }
  }
}
