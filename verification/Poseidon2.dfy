/** The round maps of the Poseidon2 permutation of width 8, which make one `Params` of the circuit. */
module Poseidon2 {
  import opened Algebra
  import opened Permutation
  import opened Permuted

  function Sbox<S(!new)>(f: Field<S>, x: S): S {
    var x2 := f.mul(x, x);
    var x4 := f.mul(x2, x2);
    var x6 := f.mul(x4, x2);
    f.mul(x6, x)
  }

  function Mds4<S(!new)>(f: Field<S>, x: seq<S>): (out: seq<S>)
    requires |x| == 4
    ensures |out| == 4
  {
    var t01 := f.add(x[0], x[1]);
    var t23 := f.add(x[2], x[3]);
    var t0123 := f.add(t01, t23);
    var t01123 := f.add(t0123, x[1]);
    var t01233 := f.add(t0123, x[3]);
    [f.add(t01123, t01), f.add(f.add(t01123, x[2]), x[2]), f.add(t01233, t23), f.add(f.add(t01233, x[0]), x[0])]
  }

  function Linear<S(!new)>(f: Field<S>, s: seq<S>): (out: seq<S>)
    requires |s| == WIDTH
    ensures |out| == WIDTH
  {
    var lo, hi := Mds4(f, s[..4]), Mds4(f, s[4..]);
    seq(WIDTH, i requires 0 <= i < WIDTH =>
      f.add(if i < 4 then lo[i] else hi[i - 4], f.add(lo[i % 4], hi[i % 4])))
  }

  function InternalDiffuse<S(!new)>(f: Field<S>, diagonal: seq<S>, s: seq<S>): (out: seq<S>)
    requires |diagonal| == |s| == WIDTH
    ensures |out| == WIDTH
  {
    var sum := Sum(f, s);
    seq(WIDTH, i requires 0 <= i < WIDTH => f.add(sum, f.mul(diagonal[i], s[i])))
  }

  function FullStep<S(!new)>(f: Field<S>, s: seq<S>, rc: seq<S>): (out: seq<S>)
    requires |s| == WIDTH && |rc| == WIDTH
    ensures |out| == WIDTH
  {
    Linear(f, seq(WIDTH, i requires 0 <= i < WIDTH => Sbox(f, f.add(s[i], rc[i]))))
  }

  function PartialStep<S(!new)>(f: Field<S>, diagonal: seq<S>, s: seq<S>, rcLane0: S): (out: seq<S>)
    requires |diagonal| == |s| == WIDTH
    ensures |out| == WIDTH
  {
    InternalDiffuse(f, diagonal, s[0 := Sbox(f, f.add(s[0], rcLane0))])
  }

  function RoundMap<S(!new)>(f: Field<S>, diagonal: seq<S>, kind: StepKind, s: seq<S>, rc: seq<S>): (out: seq<S>)
    requires |diagonal| == WIDTH
    ensures |s| == WIDTH ==> |out| == WIDTH
  {
    match kind
    case LinearOnly => if |s| == WIDTH then Linear(f, s) else s
    case Full => if |s| == WIDTH && |rc| == WIDTH then FullStep(f, s, rc) else s
    case Partial => if |s| == WIDTH && |rc| > 0 then PartialStep(f, diagonal, s, rc[0]) else s
  }

  function PermutationParams<S(!new)>(f: Field<S>, constants: Constants<S>, diagonal: seq<S>): Params<S>
    requires |diagonal| == WIDTH
  {
    Params(f, constants, (kind, s, rc) => RoundMap(f, diagonal, kind, s, rc))
  }

  /** The circuit's steps over these parameters are the three round maps. */
  lemma {:induction false} StepsAreRounds<S(!new)>(f: Field<S>, constants: Constants<S>, diagonal: seq<S>, s: seq<S>,
      rc: seq<S>)
    requires |diagonal| == WIDTH && |s| == WIDTH && |rc| == WIDTH
    requires |constants.initial| == HALF_FULL_ROUNDS && forall i :: 0 <= i < HALF_FULL_ROUNDS
                                                            ==> |constants.initial[i]| == WIDTH
    requires |constants.internal| == PARTIAL_ROUNDS
    requires |constants.final| == HALF_FULL_ROUNDS && forall i :: 0 <= i < HALF_FULL_ROUNDS
                                                          ==> |constants.final[i]| == WIDTH
    ensures var p := PermutationParams(f, constants, diagonal);
            && p.TablesFit()
            && ApplyStep(p, s, LinearOnly, rc) == Linear(f, s)
            && ApplyStep(p, s, Full, rc) == FullStep(f, s, rc)
            && ApplyStep(p, s, Partial, rc) == PartialStep(f, diagonal, s, rc[0])
  {
  }

  // ----- the layers as matrices -----

  function Copies<S>(k: nat, x: S): (r: seq<S>)
    ensures |r| == k && forall i :: 0 <= i < k ==> r[i] == x
  {
    seq(k, _ => x)
  }

  /** A row of whole numbers times a column: each entry added as often as its number says. */
  function Combination<S(!new)>(f: Field<S>, row: seq<nat>, x: seq<S>): S
    requires |row| == |x| == 4
  {
    Sum(f, Copies(row[0], x[0]) + Copies(row[1], x[1]) + Copies(row[2], x[2]) + Copies(row[3], x[3]))
  }

  lemma {:induction false} SumOfTwo<S(!new)>(f: Field<S>, a: S, b: S)
    requires f.Laws()
    ensures Sum(f, [a]) == a && Sum(f, [a, b]) == f.add(a, b)
  {
    f.AddZero(a);
    assert [a, b][..1] == [a];
    assert [a][..0] == [];
  }

  lemma {:induction false} CopiesCount<S>(x: S)
    ensures multiset(Copies(1, x)) == multiset{x}
    ensures multiset(Copies(2, x)) == multiset{x} + multiset{x}
    ensures multiset(Copies(3, x)) == multiset{x} + multiset{x} + multiset{x}
  {
    assert Copies(1, x) == [x] && Copies(2, x) == [x] + [x] && Copies(3, x) == [x] + [x] + [x];
  }

  /** Whatever order a sum of entries is written in, it is the combination with the same counts. */
  lemma {:induction false} SumIsCombination<S(!new)>(f: Field<S>, terms: seq<S>, row: seq<nat>, x: seq<S>)
    requires f.Laws() && |row| == |x| == 4
    requires multiset(terms) == multiset(Copies(row[0], x[0])) + multiset(Copies(row[1], x[1]))
                                + multiset(Copies(row[2], x[2])) + multiset(Copies(row[3], x[3]))
    ensures Sum(f, terms) == Combination(f, row, x)
  {
    SumPermuted(f, terms, Copies(row[0], x[0]) + Copies(row[1], x[1]) + Copies(row[2], x[2]) + Copies(row[3], x[3]));
  }

  /** The unrolled additions add up exactly these lists of entries. */
  lemma {:induction false} Mds4Sums<S(!new)>(f: Field<S>, x: seq<S>)
    requires f.Laws() && |x| == 4
    ensures var (a, b, c, d) := (x[0], x[1], x[2], x[3]);
            && Mds4(f, x)[0] == Sum(f, [a, b] + [c, d] + [b] + [a, b])
            && Mds4(f, x)[1] == Sum(f, [a, b] + [c, d] + [b] + [c] + [c])
            && Mds4(f, x)[2] == Sum(f, [a, b] + [c, d] + [d] + [c, d])
            && Mds4(f, x)[3] == Sum(f, [a, b] + [c, d] + [d] + [a] + [a])
  {
    var (a, b, c, d) := (x[0], x[1], x[2], x[3]);
    SumOfTwo(f, a, b);
    SumOfTwo(f, c, d);
    var four := [a, b] + [c, d];
    SumConcat(f, [a, b], [c, d]);
    SumSnoc(f, four, b);
    SumConcat(f, four + [b], [a, b]);
    SumSnoc(f, four + [b], c);
    SumSnoc(f, four + [b] + [c], c);
    SumSnoc(f, four, d);
    SumConcat(f, four + [d], [c, d]);
    SumSnoc(f, four + [d], a);
    SumSnoc(f, four + [d] + [a], a);
  }

  lemma {:induction false} Regroup<S>(a: multiset<S>, b: multiset<S>, c: multiset<S>, d: multiset<S>)
    ensures a + b + c + d + b + (a + b) == a + a + (b + b + b) + c + d
    ensures a + b + c + d + b + c + c == a + (b + b) + (c + c + c) + d
    ensures a + b + c + d + d + (c + d) == a + b + (c + c) + (d + d + d)
    ensures a + b + c + d + d + a + a == a + a + a + b + c + (d + d)
  {
  }

  lemma {:induction false} CountTwo<S>(s: seq<S>, x: S, y: S)
    ensures multiset(s + [x]) == multiset(s) + multiset{x}
    ensures multiset(s + [x, y]) == multiset(s) + (multiset{x} + multiset{y})
  {
    assert [x, y] == [x] + [y];
  }

  lemma {:induction false} CountFour<S>(x0: S, x1: S, x2: S, x3: S)
    ensures multiset([x0, x1] + [x2, x3]) == multiset{x0} + multiset{x1} + multiset{x2} + multiset{x3}
  {
    CountTwo([x0], x1, x1);
    CountTwo([x0] + [x1], x2, x2);
    CountTwo([x0] + [x1] + [x2], x3, x3);
    assert [x0, x1] + [x2, x3] == [x0] + [x1] + [x2] + [x3];
  }

  /** Each of those lists holds every entry as often as its row of the matrix says. */
  lemma {:induction false} RowCounts<S>(x0: S, x1: S, x2: S, x3: S)
    ensures var (a, b, c, d) := (multiset{x0}, multiset{x1}, multiset{x2}, multiset{x3});
            && multiset([x0, x1] + [x2, x3] + [x1] + [x0, x1]) == a + a + (b + b + b) + c + d
            && multiset([x0, x1] + [x2, x3] + [x1] + [x2] + [x2]) == a + (b + b) + (c + c + c) + d
            && multiset([x0, x1] + [x2, x3] + [x3] + [x2, x3]) == a + b + (c + c) + (d + d + d)
            && multiset([x0, x1] + [x2, x3] + [x3] + [x0] + [x0]) == a + a + a + b + c + (d + d)
  {
    var four := [x0, x1] + [x2, x3];
    CountFour(x0, x1, x2, x3);
    CountTwo(four, x1, x1);
    CountTwo(four, x3, x3);
    CountTwo(four + [x1], x0, x1);
    CountTwo(four + [x1], x2, x2);
    CountTwo(four + [x1] + [x2], x2, x2);
    CountTwo(four + [x3], x2, x3);
    CountTwo(four + [x3], x0, x0);
    CountTwo(four + [x3] + [x0], x0, x0);
    Regroup(multiset{x0}, multiset{x1}, multiset{x2}, multiset{x3});
  }

  /** The unrolled additions compute the published 4 by 4 matrix. */
  lemma {:induction false} Mds4IsMatrix<S(!new)>(f: Field<S>, x: seq<S>)
    requires f.Laws() && |x| == 4
    ensures Mds4(f, x) == [Combination(f, [2, 3, 1, 1], x), Combination(f, [1, 2, 3, 1], x),
                           Combination(f, [1, 1, 2, 3], x), Combination(f, [3, 1, 1, 2], x)]
  {
    Mds4Sums(f, x);
    var (a, b, c, d) := (x[0], x[1], x[2], x[3]);
    RowCounts(a, b, c, d);
    CopiesCount(a);
    CopiesCount(b);
    CopiesCount(c);
    CopiesCount(d);
    SumIsCombination(f, [a, b] + [c, d] + [b] + [a, b], [2, 3, 1, 1], x);
    SumIsCombination(f, [a, b] + [c, d] + [b] + [c] + [c], [1, 2, 3, 1], x);
    SumIsCombination(f, [a, b] + [c, d] + [d] + [c, d], [1, 1, 2, 3], x);
    SumIsCombination(f, [a, b] + [c, d] + [d] + [a] + [a], [3, 1, 1, 2], x);
  }

  /** The external layer is the block matrix with twice that matrix on the diagonal and the matrix off it. */
  lemma {:induction false} LinearIsMatrix<S(!new)>(f: Field<S>, s: seq<S>, i: nat)
    requires f.Laws() && |s| == WIDTH && i < 4
    ensures var own, other := Mds4(f, s[..4])[i], Mds4(f, s[4..])[i];
            && Linear(f, s)[i] == f.add(f.add(own, own), other)
            && Linear(f, s)[4 + i] == f.add(own, f.add(other, other))
  {
    var own, other := Mds4(f, s[..4])[i], Mds4(f, s[4..])[i];
    f.AddAssoc(own, own, other);
    f.AddComm(own, other);
    f.AddAssoc(other, other, own);
    f.AddComm(own, f.add(other, other));
  }
}
