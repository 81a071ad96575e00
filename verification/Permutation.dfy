/**
 The width-8 permutation the membership circuit is built around: one linear step,
 four full rounds, twenty-two partial rounds, four full rounds. The field, the
 constant tables and the round map are parameters; `Poseidon2` supplies the map.
 */
module Permutation {
  import opened Algebra

  const WIDTH: nat := 8
  const HALF_FULL_ROUNDS: nat := 4
  const PARTIAL_ROUNDS: nat := 22
  const ROUNDS: nat := 31

  datatype StepKind = LinearOnly | Full | Partial

  /** The published round constants: external ones before and after, internal ones between. */
  datatype Constants<!S> = Constants(initial: seq<seq<S>>, internal: seq<S>, final: seq<seq<S>>)

  /** `round(kind, state, rc)` is one step of the permutation on a width-8 state. */
  datatype Params<!S(!new)> = Params(field: Field<S>, constants: Constants<S>,
      round: (StepKind, seq<S>, seq<S>) -> seq<S>) {
    ghost predicate Valid() {
      field.Laws() && TablesFit()
    }

    ghost predicate TablesFit() {
      && |constants.initial| == HALF_FULL_ROUNDS
          && (forall i :: 0 <= i < HALF_FULL_ROUNDS ==> |constants.initial[i]| == WIDTH)
      && |constants.internal| == PARTIAL_ROUNDS
      && |constants.final| == HALF_FULL_ROUNDS
          && (forall i :: 0 <= i < HALF_FULL_ROUNDS ==> |constants.final[i]| == WIDTH)
      && (forall kind, s, rc {:trigger round(kind, s, rc)} :: |s| == WIDTH ==> |round(kind, s, rc)| == WIDTH)
    }
  }

  function StepKindAt(i: nat): StepKind {
    if i == 0 then LinearOnly
    else if i <= HALF_FULL_ROUNDS then Full
    else if i <= HALF_FULL_ROUNDS + PARTIAL_ROUNDS then Partial
    else Full
  }

  /** The constants added at step `i`, lane by lane; zero where the step adds none. */
  function RoundConstants<S(!new)>(p: Params<S>, i: nat): (row: seq<S>)
    requires p.TablesFit() && i < ROUNDS
    ensures |row| == WIDTH
  {
    match StepKindAt(i)
    case LinearOnly => seq(WIDTH, _ => p.field.zero)
    case Full =>
      if i <= HALF_FULL_ROUNDS then p.constants.initial[i - 1]
      else p.constants.final[i - (HALF_FULL_ROUNDS + PARTIAL_ROUNDS) - 1]
    case Partial =>
      seq(WIDTH, _ => p.field.zero)[0 := p.constants.internal[i - HALF_FULL_ROUNDS - 1]]
  }

  function MdsLight<S(!new)>(p: Params<S>, s: seq<S>): (out: seq<S>)
    requires p.TablesFit() && |s| == WIDTH
    ensures |out| == WIDTH
  {
    p.round(LinearOnly, s, [])
  }

  function FullRound<S(!new)>(p: Params<S>, s: seq<S>, rc: seq<S>): (out: seq<S>)
    requires p.TablesFit() && |s| == WIDTH && |rc| == WIDTH
    ensures |out| == WIDTH
  {
    p.round(Full, s, rc)
  }

  function PartialRound<S(!new)>(p: Params<S>, s: seq<S>, rcLane0: S): (out: seq<S>)
    requires p.TablesFit() && |s| == WIDTH
    ensures |out| == WIDTH
  {
    p.round(Partial, s, [rcLane0])
  }

  function ApplyStep<S(!new)>(p: Params<S>, s: seq<S>, kind: StepKind, rc: seq<S>): (out: seq<S>)
    requires p.TablesFit() && |s| == WIDTH && |rc| == WIDTH
    ensures |out| == WIDTH
  {
    match kind
    case LinearOnly => MdsLight(p, s)
    case Full => FullRound(p, s, rc)
    case Partial => PartialRound(p, s, rc[0])
  }

  /** The state after the first `k` steps. */
  function Steps<S(!new)>(p: Params<S>, input: seq<S>, k: nat): (out: seq<S>)
    requires p.TablesFit() && |input| == WIDTH && k <= ROUNDS
    ensures |out| == WIDTH
  {
    if k == 0 then input
    else ApplyStep(p, Steps(p, input, k - 1), StepKindAt(k - 1), RoundConstants(p, k - 1))
  }

  /** Runs the permutation, keeping every intermediate state. */
  method TracePermutation<S(!new)>(p: Params<S>, input: seq<S>) returns (states: seq<seq<S>>)
    requires p.TablesFit() && |input| == WIDTH
    ensures |states| == ROUNDS + 1
    ensures forall k :: 0 <= k <= ROUNDS ==> states[k] == Steps(p, input, k)
  {
    var cur := input;
    states := [cur];
    for r := 0 to ROUNDS
      invariant |states| == r + 1 && cur == Steps(p, input, r)
      invariant forall k :: 0 <= k <= r ==> states[k] == Steps(p, input, k)
    {
      cur := ApplyStep(p, cur, StepKindAt(r), RoundConstants(p, r));
      states := states + [cur];
    }
  }

  /** A state whose first two lanes are given and whose rest is zero. */
  function Seeded<S(!new)>(f: Field<S>, left: S, right: S): (s: seq<S>)
    ensures |s| == WIDTH && s[0] == left && s[1] == right
    ensures forall i :: 2 <= i < WIDTH ==> s[i] == f.zero
  {
    [left, right, f.zero, f.zero, f.zero, f.zero, f.zero, f.zero]
  }

  function Compress2<S(!new)>(p: Params<S>, left: S, right: S): S
    requires p.TablesFit()
  {
    Steps(p, Seeded(p.field, left, right), ROUNDS)[0]
  }
}
