/**
 What the constraint polynomials mean: on each pair of consecutive rows they vanish
 exactly when the rows are related as the circuit intends.
 */
module AirMeaning {
  import opened Algebra
  import opened Permutation
  import opened Merkle
  import opened Air

  // ----- selector arithmetic -----

  /** A selected difference vanishes exactly when, if selected, the two sides agree. */
  lemma {:induction false} SelectedEquality<S(!new)>(f: Field<S>, b: bool, x: S, y: S)
    requires f.Laws()
    ensures f.mul(Bit(f, b), f.Sub(x, y)) == f.zero <==> (b ==> x == y)
  {
    f.SubZero(x, y);
    f.NoZeroDivisors(Bit(f, b), f.Sub(x, y));
  }

  lemma {:induction false} BitNot<S(!new)>(f: Field<S>, b: bool)
    requires f.Laws()
    ensures f.Sub(f.one, Bit(f, b)) == Bit(f, !b)
  {
    f.AddNeg(f.one);
    f.AddNeg(f.zero);
    f.AddZero(f.Neg(f.zero));
    f.AddZero(f.one);
  }

  lemma {:induction false} BitAnd<S(!new)>(f: Field<S>, a: bool, b: bool)
    requires f.Laws()
    ensures f.mul(Bit(f, a), Bit(f, b)) == Bit(f, a && b)
  {
    f.MulZero(Bit(f, b));
    f.MulZero(f.one);
    f.MulOne(f.one);
  }

  /** Two exclusive selectors taken from one. */
  lemma {:induction false} BitNeither<S(!new)>(f: Field<S>, a: bool, b: bool)
    requires f.Laws() && !(a && b)
    ensures f.Sub(f.Sub(f.one, Bit(f, a)), Bit(f, b)) == Bit(f, !a && !b)
  {
    BitNot(f, a);
    if a {
      f.AddNeg(f.zero);
    } else {
      BitNot(f, b);
    }
  }

  lemma {:induction false} IsBoolean<S(!new)>(f: Field<S>, x: S)
    requires f.Laws()
    ensures f.mul(x, f.Sub(x, f.one)) == f.zero <==> x == f.zero || x == f.one
  {
    f.NoZeroDivisors(x, f.Sub(x, f.one));
    f.SubZero(x, f.one);
  }

  /** Exactly one of three exclusive selectors lets its summand through. */
  lemma {:induction false} SelectOne<S(!new)>(f: Field<S>, a: bool, b: bool, c: bool, x: S, y: S, z: S)
    requires f.Laws() && (a || b || c) && !(a && b) && !(a && c) && !(b && c)
    ensures f.add(f.add(f.mul(Bit(f, a), x), f.mul(Bit(f, b), y)), f.mul(Bit(f, c), z)) == if a then x
            else if b then y else z
  {
    f.MulOne(x);
    f.MulOne(y);
    f.MulOne(z);
    f.MulZero(x);
    f.MulZero(y);
    f.MulZero(z);
    f.AddZero(x);
    f.AddZero(y);
    f.AddZero(z);
    f.AddZero(f.zero);
  }

  /** Inside a block the blended step is the scheduled one. */
  lemma {:induction false} BlendIsStep<S(!new)>(p: Params<S>, depth: nat, row: nat, state: seq<S>, lane: nat)
    requires p.Valid() && |state| == WIDTH && lane < WIDTH && row % BLOCK_LEN < ROUNDS
    ensures var r := row % BLOCK_LEN;
            Blend(p, PeriodicAt(p, depth, row), state, lane)
            == ApplyStep(p, state, StepKindAt(r), RoundConstants(p, r))[lane]
  {
    var v, kind := PeriodicAt(p, depth, row), StepKindAt(row % BLOCK_LEN);
    SelectOne(p.field, kind == LinearOnly, kind == Full, kind == Partial,
              MdsLight(p, state)[lane], FullRound(p, state, v.rc)[lane], PartialRound(p, state, v.rc[0])[lane]);
  }

  // ----- the intended relation -----

  /** The value the circuit intends in lane 0 of the row after a block's last row. */
  function BoundaryLane0<S(!new)>(p: Params<S>, pub: PublicInputs<S>, depth: nat, i: nat, current: Row<S>,
      next: Row<S>): S
    requires |current| == TRACE_WIDTH && |next| == TRACE_WIDTH
  {
    if i == A1TransitionRow(depth) then current[COL_SK]
    else if i == LinearcheckTransitionRow(depth) then p.field.add(current[COL_SK], p.field.mul(current[0], pub.x))
    else Injected(p, current, next, 0)
  }

  /** Row `i` and the row after it, related as intended. */
  ghost predicate Related<S(!new)>(p: Params<S>, pub: PublicInputs<S>, depth: nat, i: nat, current: Row<S>,
      next: Row<S>)
    requires p.TablesFit() && |current| == TRACE_WIDTH && |next| == TRACE_WIDTH
  {
    && (i % BLOCK_LEN < ROUNDS ==>
          StateOf(next) == ApplyStep(p, StateOf(current), StepKindAt(i % BLOCK_LEN), RoundConstants(p, i % BLOCK_LEN)))
    && (i % BLOCK_LEN == ROUNDS ==> next[0] == BoundaryLane0(p, pub, depth, i, current, next))
    && (i % BLOCK_LEN == ROUNDS ==> forall k :: 1 <= k < WIDTH ==> next[k] == Injected(p, current, next, k))
    && next[COL_SK] == current[COL_SK]
    && (current[COL_SELECTOR] == p.field.zero || current[COL_SELECTOR] == p.field.one)
    && (i == 0 ==> current[0] == current[COL_SK])
  }

  lemma {:induction false} TransitionRows(depth: nat)
    ensures A1TransitionRow(depth) % BLOCK_LEN == ROUNDS
    ensures LinearcheckTransitionRow(depth) % BLOCK_LEN == ROUNDS
    ensures A1TransitionRow(depth) < LinearcheckTransitionRow(depth)
  {
  }

  /** The round constraints of all eight lanes, together. */
  lemma {:induction false} RoundsMean<S(!new)>(p: Params<S>, pub: PublicInputs<S>, depth: nat, i: nat,
      current: Row<S>, next: Row<S>, lane: nat)
    requires p.Valid() && |current| == TRACE_WIDTH && |next| == TRACE_WIDTH && lane < WIDTH
    ensures var v := PeriodicAt(p, depth, i);
            var notLast := p.field.Sub(p.field.one, v.isLastInBlock);
            p.field.mul(notLast, p.field.Sub(next[lane], Blend(p, v, StateOf(current), lane))) == p.field.zero
            <==> (i % BLOCK_LEN < ROUNDS ==>
                    next[lane] == ApplyStep(p, StateOf(current), StepKindAt(i % BLOCK_LEN),
                        RoundConstants(p, i % BLOCK_LEN))[lane])
  {
    var v := PeriodicAt(p, depth, i);
    BitNot(p.field, i % BLOCK_LEN == BLOCK_LEN - 1);
    SelectedEquality(p.field, i % BLOCK_LEN != BLOCK_LEN - 1, next[lane], Blend(p, v, StateOf(current), lane));
    if i % BLOCK_LEN < ROUNDS { BlendIsStep(p, depth, i, StateOf(current), lane); }
  }

  /** The three lane-0 boundary constraints, together. */
  lemma {:induction false} BoundaryMeans<S(!new)>(p: Params<S>, pub: PublicInputs<S>, depth: nat, i: nat,
      current: Row<S>, next: Row<S>)
    requires p.Valid() && |current| == TRACE_WIDTH && |next| == TRACE_WIDTH
    ensures var r := EvaluateTransition(p, pub, current, next, PeriodicAt(p, depth, i));
            r[1] == p.field.zero && r[2] == p.field.zero && r[3] == p.field.zero
            <==> (i % BLOCK_LEN == ROUNDS ==> next[0] == BoundaryLane0(p, pub, depth, i, current, next))
  {
    var f := p.field;
    var a, l := i == A1TransitionRow(depth), i == LinearcheckTransitionRow(depth);
    TransitionRows(depth);
    BitNeither(f, a, l);
    BitAnd(f, i % BLOCK_LEN == BLOCK_LEN - 1, !a && !l);
    SelectedEquality(f, i % BLOCK_LEN == BLOCK_LEN - 1 && !a && !l, next[0], Injected(p, current, next, 0));
    SelectedEquality(f, a, next[0], current[COL_SK]);
    SelectedEquality(f, l, next[0], f.add(current[COL_SK], f.mul(current[0], pub.x)));
  }

  /** The slot of lane `lane`'s round constraint. */
  function RoundSlot(lane: nat): nat { if lane == 0 then 0 else 3 + lane }

  /** The slot of lane `lane`'s boundary constraint, lanes 1 to 7. */
  function BoundarySlot(lane: nat): nat { 10 + lane }

  lemma {:induction false} RoundResult<S(!new)>(p: Params<S>, pub: PublicInputs<S>, current: Row<S>, next: Row<S>,
      v: Periodic<S>, lane: nat)
    requires p.TablesFit() && |current| == TRACE_WIDTH && |next| == TRACE_WIDTH && |v.rc| == WIDTH && lane < WIDTH
    ensures EvaluateTransition(p, pub, current, next, v)[RoundSlot(lane)]
            == p.field.mul(p.field.Sub(p.field.one, v.isLastInBlock),
                p.field.Sub(next[lane], Blend(p, v, StateOf(current), lane)))
  {
  }

  lemma {:induction false} BoundaryResult<S(!new)>(p: Params<S>, pub: PublicInputs<S>, current: Row<S>, next: Row<S>,
      v: Periodic<S>, lane: nat)
    requires p.TablesFit() && |current| == TRACE_WIDTH && |next| == TRACE_WIDTH && |v.rc| == WIDTH && 1 <= lane < WIDTH
    ensures EvaluateTransition(p, pub, current, next, v)[BoundarySlot(lane)]
            == p.field.mul(v.isLastInBlock, p.field.Sub(next[lane], Injected(p, current, next, lane)))
  {
  }

  ghost predicate RoundsVanish<S(!new)>(p: Params<S>, r: seq<S>)
    requires |r| == NUM_CONSTRAINTS
  {
    forall lane: nat {:trigger RoundSlot(lane)} :: lane < WIDTH ==> r[RoundSlot(lane)] == p.field.zero
  }

  ghost predicate BoundariesVanish<S(!new)>(p: Params<S>, r: seq<S>)
    requires |r| == NUM_CONSTRAINTS
  {
    forall lane: nat {:trigger BoundarySlot(lane)} :: 1 <= lane < WIDTH ==> r[BoundarySlot(lane)] == p.field.zero
  }

  /** The slots cover the whole result. */
  lemma {:induction false} AllVanish<S(!new)>(p: Params<S>, r: seq<S>)
    requires |r| == NUM_CONSTRAINTS
    ensures Vanishes(p, r) <==>
            && RoundsVanish(p, r) && BoundariesVanish(p, r)
            && r[1] == p.field.zero && r[2] == p.field.zero && r[3] == p.field.zero
            && r[18] == p.field.zero && r[19] == p.field.zero && r[20] == p.field.zero
  {
    if RoundsVanish(p, r) && BoundariesVanish(p, r) && r[1] == r[2] == r[3] == r[18] == r[19] == r[20] == p.field.zero {
      forall k: nat | k < |r| ensures r[k] == p.field.zero {
        var round := RoundSlot(if 4 <= k <= 10 then k - 3 else 0);
        var boundary := BoundarySlot(if 11 <= k <= 17 then k - 10 else 1);
        assert r[round] == r[boundary] == p.field.zero;
      }
    }
  }

  lemma {:induction false} RoundsMeanStep<S(!new)>(p: Params<S>, pub: PublicInputs<S>, depth: nat, i: nat,
      current: Row<S>, next: Row<S>)
    requires p.Valid() && |current| == TRACE_WIDTH && |next| == TRACE_WIDTH
    ensures RoundsVanish(p, EvaluateTransition(p, pub, current, next, PeriodicAt(p, depth, i))) <==>
            (i % BLOCK_LEN < ROUNDS ==>
               StateOf(next) == ApplyStep(p, StateOf(current), StepKindAt(i % BLOCK_LEN),
                   RoundConstants(p, i % BLOCK_LEN)))
  {
    var v := PeriodicAt(p, depth, i);
    var r := EvaluateTransition(p, pub, current, next, v);
    forall lane: nat {:trigger RoundSlot(lane)} | lane < WIDTH
      ensures r[RoundSlot(lane)] == p.field.zero <==>
              (i % BLOCK_LEN < ROUNDS ==>
                 next[lane] == ApplyStep(p, StateOf(current), StepKindAt(i % BLOCK_LEN),
                     RoundConstants(p, i % BLOCK_LEN))[lane])
    {
      RoundResult(p, pub, current, next, v, lane);
      RoundsMean(p, pub, depth, i, current, next, lane);
    }
    if i % BLOCK_LEN < ROUNDS {
      var step := ApplyStep(p, StateOf(current), StepKindAt(i % BLOCK_LEN), RoundConstants(p, i % BLOCK_LEN));
      if RoundsVanish(p, r) {
        forall lane: nat | lane < WIDTH ensures StateOf(next)[lane] == step[lane] {
          var slot := RoundSlot(lane);
          assert r[slot] == p.field.zero;
        }
      }
      if StateOf(next) == step {
        forall lane: nat | lane < WIDTH ensures next[lane] == step[lane] {
          assert StateOf(next)[lane] == next[lane];
        }
      }
    }
  }

  lemma {:induction false} BoundariesMeanInjection<S(!new)>(p: Params<S>, pub: PublicInputs<S>, depth: nat, i: nat,
      current: Row<S>, next: Row<S>)
    requires p.Valid() && |current| == TRACE_WIDTH && |next| == TRACE_WIDTH
    ensures BoundariesVanish(p, EvaluateTransition(p, pub, current, next, PeriodicAt(p, depth, i))) <==>
            (i % BLOCK_LEN == ROUNDS ==> forall k :: 1 <= k < WIDTH ==> next[k] == Injected(p, current, next, k))
  {
    var v := PeriodicAt(p, depth, i);
    var r := EvaluateTransition(p, pub, current, next, v);
    forall lane: nat {:trigger BoundarySlot(lane)} | 1 <= lane < WIDTH
      ensures r[BoundarySlot(lane)] == p.field.zero <==>
              (i % BLOCK_LEN == ROUNDS ==> next[lane] == Injected(p, current, next, lane))
    {
      BoundaryResult(p, pub, current, next, v, lane);
      SelectedEquality(p.field, i % BLOCK_LEN == BLOCK_LEN - 1, next[lane], Injected(p, current, next, lane));
    }
    if i % BLOCK_LEN == ROUNDS && BoundariesVanish(p, r) {
      forall k: nat | 1 <= k < WIDTH ensures next[k] == Injected(p, current, next, k) {
        var slot := BoundarySlot(k);
        assert r[slot] == p.field.zero;
      }
    }
  }

  /** All constraints vanish exactly on related rows. */
  lemma {:induction false} ConstraintsMean<S(!new)>(p: Params<S>, pub: PublicInputs<S>, depth: nat, i: nat,
      current: Row<S>, next: Row<S>)
    requires p.Valid() && |current| == TRACE_WIDTH && |next| == TRACE_WIDTH
    ensures Vanishes(p, EvaluateTransition(p, pub, current, next, PeriodicAt(p, depth, i)))
            <==> Related(p, pub, depth, i, current, next)
  {
    AllVanish(p, EvaluateTransition(p, pub, current, next, PeriodicAt(p, depth, i)));
    RoundsMeanStep(p, pub, depth, i, current, next);
    BoundariesMeanInjection(p, pub, depth, i, current, next);
    BoundaryMeans(p, pub, depth, i, current, next);
    p.field.SubZero(next[COL_SK], current[COL_SK]);
    IsBoolean(p.field, current[COL_SELECTOR]);
    SelectedEquality(p.field, i == 0, current[0], current[COL_SK]);
  }
}
