/** Polynomials over a field and Lagrange interpolation at zero, for every set of distinct points. */
module Lagrange {
  import opened Algebra

  // ----- polynomials, lowest coefficient first -----

  /** Horner evaluation, folding from the highest coefficient down. */
  function Eval<S(!new)>(f: Field<S>, cs: seq<S>, x: S): S {
    if cs == [] then f.zero else f.add(f.mul(Eval(f, cs[1..], x), x), cs[0])
  }

  /** The quotient of the polynomial by `x - a`. */
  function Quotient<S(!new)>(f: Field<S>, cs: seq<S>, a: S): (q: seq<S>)
    ensures |q| == if |cs| == 0 then 0 else |cs| - 1
  {
    if |cs| <= 1 then [] else [Eval(f, cs[1..], a)] + Quotient(f, cs[1..], a)
  }

  /** The step of synthetic division: a ring identity. */
  lemma {:induction false} DivisionStep<S(!new)>(f: Field<S>, r: S, q: S, x: S, a: S, c: S)
    requires f.Laws()
    ensures f.add(f.mul(f.add(r, f.mul(f.Sub(x, a), q)), x), c)
            == f.add(f.add(f.mul(r, a), c), f.mul(f.Sub(x, a), f.add(f.mul(q, x), r)))
  {
    var d := f.Sub(x, a);
    // left: r*x + (d*q)*x + c
    f.Distribute(x, r, f.mul(d, q));
    f.MulAssoc(d, q, x);
    var rx, dqx, ra, dr := f.mul(r, x), f.mul(d, f.mul(q, x)), f.mul(r, a), f.mul(d, r);
    // right: (r*a + c) + (d*(q*x) + d*r)
    f.Distribute(d, f.mul(q, x), r);
    // r*x == r*a + d*r
    f.MulSub(r, x, a);
    f.MulComm(r, d);
    f.SubAdd(rx, ra);
    f.AddComm(dr, ra);
    assert rx == f.add(ra, dr);
    f.AddComm(dqx, dr);
    f.AddSwap(ra, c, dr, dqx);
    f.AddComm(c, dqx);
    f.AddAssoc(f.add(ra, dr), dqx, c);
  }

  lemma {:induction false} Division<S(!new)>(f: Field<S>, cs: seq<S>, a: S, x: S)
    requires f.Laws()
    ensures Eval(f, cs, x) == f.add(Eval(f, cs, a), f.mul(f.Sub(x, a), Eval(f, Quotient(f, cs, a), x)))
  {
    if |cs| <= 1 {
      f.MulZero(f.Sub(x, a));
      f.AddZero(Eval(f, cs, a));
      f.MulZero(x);
      f.MulZero(a);
      if |cs| == 1 { assert cs[1..] == []; }
    } else {
      Division(f, cs[1..], a, x);
      DivisionStep(f, Eval(f, cs[1..], a), Eval(f, Quotient(f, cs[1..], a), x), x, a, cs[0]);
      assert Quotient(f, cs, a)[1..] == Quotient(f, cs[1..], a);
    }
  }

  lemma {:induction false} EvalAtZero<S(!new)>(f: Field<S>, cs: seq<S>)
    requires f.Laws() && cs != []
    ensures Eval(f, cs, f.zero) == cs[0]
  {
    f.MulZero(Eval(f, cs[1..], f.zero));
    f.AddZero(cs[0]);
  }

  // ----- Lagrange coefficients at zero -----

  /** The product of the other points. */
  function Numerator<S(==, !new)>(f: Field<S>, x: S, all: seq<S>): S {
    if all == [] then f.one
    else
      var y, rest := all[|all| - 1], Numerator(f, x, all[..|all| - 1]);
      if y == x then rest else f.mul(rest, y)
  }

  /** The product of the differences from the other points. */
  function Denominator<S(==, !new)>(f: Field<S>, x: S, all: seq<S>): S {
    if all == [] then f.one
    else
      var y, rest := all[|all| - 1], Denominator(f, x, all[..|all| - 1]);
      if y == x then rest else f.mul(rest, f.Sub(y, x))
  }

  function Coefficient<S(==, !new)>(f: Field<S>, x: S, all: seq<S>): S {
    f.mul(Numerator(f, x, all), f.Inv(Denominator(f, x, all)))
  }

  lemma {:induction false} DenominatorNonzero<S(!new)>(f: Field<S>, x: S, all: seq<S>)
    requires f.Laws()
    ensures Denominator(f, x, all) != f.zero
  {
    if all != [] {
      var y := all[|all| - 1];
      DenominatorNonzero(f, x, all[..|all| - 1]);
      f.SubZero(y, x);
      f.NoZeroDivisors(Denominator(f, x, all[..|all| - 1]), f.Sub(y, x));
    }
  }

  /** The factor a further point `y` contributes to the coefficient of `x`. */
  function Factor<S(!new)>(f: Field<S>, x: S, y: S): S {
    f.mul(y, f.Inv(f.Sub(y, x)))
  }

  lemma {:induction false} CoefficientExtend<S(!new)>(f: Field<S>, x: S, all: seq<S>, y: S)
    requires f.Laws()
    ensures Coefficient(f, x, all + [y]) == if y == x then Coefficient(f, x, all)
            else f.mul(Coefficient(f, x, all), Factor(f, x, y))
  {
    assert (all + [y])[..|all|] == all;
    if y != x {
      DenominatorNonzero(f, x, all);
      f.SubZero(y, x);
      f.InvMul(Denominator(f, x, all), f.Sub(y, x));
      f.MulSwap(Numerator(f, x, all), y, f.Inv(Denominator(f, x, all)), f.Inv(f.Sub(y, x)));
    }
  }

  /** The weighted sum of `values` over the points `some`, with coefficients relative to `all`. */
  function Weighted<S(==, !new)>(f: Field<S>, all: seq<S>, some: seq<S>, values: seq<S>): S
    requires |some| == |values|
  {
    if some == [] then f.zero
    else
      var n := |some| - 1;
      f.add(Weighted(f, all, some[..n], values[..n]), f.mul(Coefficient(f, some[n], all), values[n]))
  }

  function Ones<S(!new)>(f: Field<S>, n: nat): (s: seq<S>)
    ensures |s| == n
  {
    seq(n, _ => f.one)
  }

  function EvalAll<S(!new)>(f: Field<S>, cs: seq<S>, xs: seq<S>): (values: seq<S>)
    ensures |values| == |xs| && forall k :: 0 <= k < |xs| ==> values[k] == Eval(f, cs, xs[k])
  {
    seq(|xs|, k requires 0 <= k < |xs| => Eval(f, cs, xs[k]))
  }

  ghost predicate Distinct<S>(xs: seq<S>) {
    forall i, j :: 0 <= i < j < |xs| ==> xs[i] != xs[j]
  }

  // ----- partition of unity -----

  lemma {:induction false} Telescope<S(!new)>(f: Field<S>, b: S, a: S, x: S)
    requires f.Laws()
    ensures f.Sub(f.Sub(b, x), f.Sub(a, x)) == f.Sub(b, a)
  {
    f.AddAssoc(b, f.Neg(a), f.Sub(a, x));
    f.AddAssoc(f.Neg(a), a, f.Neg(x));
    f.AddNeg(a);
    f.AddZero(f.Neg(x));
    f.SubAdd(f.Sub(b, a), f.Sub(a, x));
  }

  /** The difference of two reciprocals. */
  lemma {:induction false} Reciprocals<S(!new)>(f: Field<S>, x: S, a: S, b: S)
    requires f.Laws() && a != x && b != x
    ensures f.Sub(f.Inv(f.Sub(a, x)), f.Inv(f.Sub(b, x)))
            == f.mul(f.mul(f.Inv(f.Sub(a, x)), f.Inv(f.Sub(b, x))), f.Sub(b, a))
  {
    var da, db := f.Sub(a, x), f.Sub(b, x);
    var u, v := f.Inv(da), f.Inv(db);
    f.SubZero(a, x);
    f.SubZero(b, x);
    f.MulInv(da);
    f.MulInv(db);
    f.MulAssoc(u, v, db);
    f.MulOne(u);
    f.MulComm(u, v);
    f.MulAssoc(v, u, da);
    f.MulOne(v);
    f.MulSub(f.mul(u, v), db, da);
    Telescope(f, b, a, x);
  }

  /** `b * (c * (a * u)) == (c * (a * b)) * u`. */
  lemma {:induction false} PullFactor<S(!new)>(f: Field<S>, a: S, b: S, c: S, u: S)
    requires f.Laws()
    ensures f.mul(b, f.mul(c, f.mul(a, u))) == f.mul(f.mul(c, f.mul(a, b)), u)
  {
    f.MulComm(b, f.mul(c, f.mul(a, u)));
    f.MulAssoc(c, f.mul(a, u), b);
    f.MulAssoc(a, u, b);
    f.MulComm(u, b);
    f.MulAssoc(a, b, u);
    f.MulAssoc(c, f.mul(a, b), u);
  }

  /** Neville's relation for one point's coefficients with `a`, with `b`, and with both. */
  lemma {:induction false} NevilleTerm<S(!new)>(f: Field<S>, c: S, x: S, a: S, b: S)
    requires f.Laws() && a != x && b != x
    ensures f.mul(f.Sub(b, a), f.mul(f.mul(c, Factor(f, x, a)), Factor(f, x, b)))
            == f.Sub(f.mul(b, f.mul(c, Factor(f, x, a))), f.mul(a, f.mul(c, Factor(f, x, b))))
  {
    var u, v := f.Inv(f.Sub(a, x)), f.Inv(f.Sub(b, x));
    var k := f.mul(c, f.mul(a, b));
    PullFactor(f, a, b, c, u);
    PullFactor(f, b, a, c, v);
    f.MulComm(a, b);
    f.MulSub(k, u, v);
    Reciprocals(f, x, a, b);
    f.MulAssoc(k, f.mul(u, v), f.Sub(b, a));
    f.MulComm(f.Sub(b, a), f.mul(k, f.mul(u, v)));
    f.MulAssoc(c, f.mul(a, u), f.mul(b, v));
    f.MulSwap(a, u, b, v);
    f.MulAssoc(c, f.mul(a, b), f.mul(u, v));
  }

  lemma {:induction false} SubPairs<S(!new)>(f: Field<S>, p: S, q: S, r: S, s: S)
    requires f.Laws()
    ensures f.add(f.Sub(p, q), f.Sub(r, s)) == f.Sub(f.add(p, r), f.add(q, s))
  {
    f.AddSwap(p, f.Neg(q), r, f.Neg(s));
    // neg q + neg s == neg (q + s)
    f.AddSwap(f.Neg(q), f.Neg(s), q, s);
    f.AddNeg(q);
    f.AddNeg(s);
    f.AddZero(f.zero);
    f.AddNeg(f.add(q, s));
    f.AddCancel(f.add(f.Neg(q), f.Neg(s)), f.Neg(f.add(q, s)), f.add(q, s));
  }

  /** Neville's relation summed over the points shared by both sets. */
  lemma {:induction false} NevilleShared<S(!new)>(f: Field<S>, s: seq<S>, some: seq<S>, a: S, b: S)
    requires f.Laws() && a !in some && b !in some
    ensures f.mul(f.Sub(b, a), Weighted(f, s + [a] + [b], some, Ones(f, |some|)))
            == f.Sub(f.mul(b, Weighted(f, s + [a], some, Ones(f, |some|))),
                f.mul(a, Weighted(f, s + [b], some, Ones(f, |some|))))
    decreases |some|
  {
    if some == [] {
      f.MulZero(f.Sub(b, a));
      f.MulZero(b);
      f.MulZero(a);
      f.SubZero(f.zero, f.zero);
    } else {
      var n := |some| - 1;
      var x := some[n];
      assert Ones(f, |some|)[..n] == Ones(f, n);
      NevilleShared(f, s, some[..n], a, b);
      CoefficientExtend(f, x, s, a);
      CoefficientExtend(f, x, s, b);
      CoefficientExtend(f, x, s + [a], b);
      var c := Coefficient(f, x, s);
      NevilleTerm(f, c, x, a, b);
      var cab, ca, cb := Coefficient(f, x, s + [a] + [b]), Coefficient(f, x, s + [a]), Coefficient(f, x, s + [b]);
      f.MulOne(cab);
      f.MulOne(ca);
      f.MulOne(cb);
      var wab, wa, wb := Weighted(f, s + [a] + [b], some[..n], Ones(f, n)), Weighted(f, s + [a], some[..n], Ones(f, n)),
        Weighted(f, s + [b], some[..n], Ones(f, n));
      f.Distribute(f.Sub(b, a), wab, cab);
      f.Distribute(b, wa, ca);
      f.Distribute(a, wb, cb);
      SubPairs(f, f.mul(b, wa), f.mul(a, wb), f.mul(b, ca), f.mul(a, cb));
    }
  }

  /** The coefficients of any set of distinct points sum to one. */
  lemma {:induction false} Unity<S(!new)>(f: Field<S>, all: seq<S>)
    requires f.Laws() && Distinct(all) && all != []
    ensures Weighted(f, all, all, Ones(f, |all|)) == f.one
    decreases |all|
  {
    if |all| == 1 {
      UnitySingle(f, all[0]);
      assert all == [all[0]];
    } else {
      var n := |all| - 2;
      var s, a, b := all[..n], all[n], all[n + 1];
      assert all == s + [a] + [b];
      Unity(f, s + [a]);
      Unity(f, s + [b]);
      assert all[n] == a && all[n + 1] == b && forall i :: 0 <= i < n ==> all[i] == s[i];
      UnityStep(f, s, a, b);
    }
  }

  lemma {:induction false} UnitySingle<S(!new)>(f: Field<S>, a: S)
    requires f.Laws()
    ensures Coefficient(f, a, [a]) == f.one
    ensures Weighted(f, [a], [a], Ones(f, 1)) == f.one
  {
    CoefficientExtend(f, a, [], a);
    assert [] + [a] == [a];
    f.MulOne(f.Inv(f.one));
    f.MulInv(f.one);
    OnesSnoc(f, 0);
    WeightedSnoc(f, [a], [], [], a, f.one);
    assert Ones(f, 1) == [] + [f.one];
    f.MulOne(f.one);
    f.AddZero(f.one);
  }

  lemma {:induction false} WeightedSnoc<S(!new)>(f: Field<S>, all: seq<S>, some: seq<S>, values: seq<S>, x: S, value: S)
    requires |some| == |values|
    ensures Weighted(f, all, some + [x], values + [value])
            == f.add(Weighted(f, all, some, values), f.mul(Coefficient(f, x, all), value))
  {
    assert (some + [x])[..|some|] == some && (values + [value])[..|some|] == values;
  }

  lemma {:induction false} OnesSnoc<S(!new)>(f: Field<S>, n: nat)
    ensures Ones(f, n + 1) == Ones(f, n) + [f.one]
  {
  }

  /** `(b - a) * (c * (b / (b - a))) == b * c`. */
  lemma {:induction false} FactorClears<S(!new)>(f: Field<S>, c: S, a: S, b: S)
    requires f.Laws() && a != b
    ensures f.mul(f.Sub(b, a), f.mul(c, Factor(f, a, b))) == f.mul(b, c)
    ensures f.mul(f.Sub(a, b), f.mul(c, Factor(f, a, b))) == f.Neg(f.mul(b, c))
  {
    var d := f.Sub(b, a);
    f.SubZero(b, a);
    f.MulAssoc(c, b, f.Inv(d));
    f.DivMul(f.mul(c, b), d);
    f.MulComm(d, f.mul(c, Factor(f, a, b)));
    f.MulComm(c, b);
    f.NegSub(b, a);
    f.MulNeg(f.mul(c, Factor(f, a, b)), d);
    f.MulComm(f.Sub(a, b), f.mul(c, Factor(f, a, b)));
  }

  /** The coefficients of the two last points, with and without each other. */
  lemma {:induction false} LastTwo<S(!new)>(f: Field<S>, s: seq<S>, a: S, b: S)
    requires f.Laws() && a != b
    ensures Coefficient(f, a, s + [a]) == Coefficient(f, a, s)
    ensures Coefficient(f, b, s + [b]) == Coefficient(f, b, s)
    ensures Coefficient(f, a, s + [a] + [b]) == f.mul(Coefficient(f, a, s), Factor(f, a, b))
    ensures Coefficient(f, b, s + [a] + [b]) == f.mul(Coefficient(f, b, s), Factor(f, b, a))
  {
    CoefficientExtend(f, a, s, a);
    CoefficientExtend(f, b, s, b);
    CoefficientExtend(f, a, s + [a], b);
    CoefficientExtend(f, b, s, a);
    CoefficientExtend(f, b, s + [a], b);
  }

  /** A sum of ones with one more point. */
  lemma {:induction false} TotalSnoc<S(!new)>(f: Field<S>, all: seq<S>, some: seq<S>, x: S)
    requires f.Laws()
    ensures Weighted(f, all, some + [x], Ones(f, |some| + 1))
            == f.add(Weighted(f, all, some, Ones(f, |some|)), Coefficient(f, x, all))
  {
    OnesSnoc(f, |some|);
    WeightedSnoc(f, all, some, Ones(f, |some|), x, f.one);
    f.MulOne(Coefficient(f, x, all));
  }

  /** Adding two points at once: Neville's relation for the whole sums. */
  lemma {:induction false} UnityStep<S(!new)>(f: Field<S>, s: seq<S>, a: S, b: S)
    requires f.Laws() && a != b && a !in s && b !in s
    requires Weighted(f, s + [a], s + [a], Ones(f, |s| + 1)) == f.one
    requires Weighted(f, s + [b], s + [b], Ones(f, |s| + 1)) == f.one
    ensures Weighted(f, s + [a] + [b], s + [a] + [b], Ones(f, |s| + 2)) == f.one
  {
    var all := s + [a] + [b];
    LastTwo(f, s, a, b);
    TotalSnoc(f, s + [a], s, a);
    TotalSnoc(f, s + [b], s, b);
    TotalSnoc(f, all, s, a);
    TotalSnoc(f, all, s + [a], b);
    UnitySum(f, s, a, b, Weighted(f, all, s, Ones(f, |s|)), Weighted(f, s + [a], s, Ones(f, |s|)),
             Weighted(f, s + [b], s, Ones(f, |s|)), Coefficient(f, a, s), Coefficient(f, b, s),
             Coefficient(f, a, all), Coefficient(f, b, all));
  }

  lemma {:induction false} UnitySum<S(!new)>(f: Field<S>, s: seq<S>, a: S, b: S, wab: S, wa: S, wb: S, ca: S, cb: S,
      ta: S, tb: S)
    requires f.Laws() && a != b && a !in s && b !in s
    requires wab == Weighted(f, s + [a] + [b], s, Ones(f, |s|))
    requires wa == Weighted(f, s + [a], s, Ones(f, |s|)) && wb == Weighted(f, s + [b], s, Ones(f, |s|))
    requires f.add(wa, ca) == f.one && f.add(wb, cb) == f.one
    requires ta == f.mul(ca, Factor(f, a, b)) && tb == f.mul(cb, Factor(f, b, a))
    ensures f.add(f.add(wab, ta), tb) == f.one
  {
    var d := f.Sub(b, a);
    NevilleShared(f, s, s, a, b);
    FactorClears(f, ca, a, b);
    FactorClears(f, cb, b, a);
    var total := f.add(f.add(wab, ta), tb);
    f.Distribute(d, f.add(wab, ta), tb);
    f.Distribute(d, wab, ta);
    // d * total == ((b*wa - a*wb) + b*ca) - a*cb == (b*wa + b*ca) - (a*wb + a*cb)
    var p, q, r, t := f.mul(b, wa), f.mul(a, wb), f.mul(b, ca), f.mul(a, cb);
    f.AddAssoc(f.Sub(p, q), r, f.Neg(t));
    SubPairs(f, p, q, r, t);
    f.Distribute(b, wa, ca);
    f.Distribute(a, wb, cb);
    f.MulOne(b);
    f.MulOne(a);
    f.MulOne(d);
    f.SubZero(b, a);
    f.MulComm(d, total);
    f.MulComm(d, f.one);
    f.MulCancel(total, f.one, d);
  }

  // ----- interpolation -----

  /** One point's term, split by the division of the polynomial by `x - a`. */
  lemma {:induction false} InterpolationTerm<S(!new)>(f: Field<S>, c: S, x: S, a: S, fa: S, q: S)
    requires f.Laws() && x != a
    ensures f.mul(f.mul(c, Factor(f, x, a)), f.add(fa, f.mul(f.Sub(x, a), q)))
            == f.Sub(f.mul(fa, f.mul(c, Factor(f, x, a))), f.mul(a, f.mul(c, q)))
  {
    var ca := f.mul(c, Factor(f, x, a));
    f.Distribute(ca, fa, f.mul(f.Sub(x, a), q));
    f.MulComm(ca, fa);
    f.MulAssoc(ca, f.Sub(x, a), q);
    FactorClears(f, c, x, a);
    f.MulComm(ca, f.Sub(x, a));
    f.MulNeg(q, f.mul(a, c));
    f.MulAssoc(a, c, q);
  }

  /** The weighted sum over the shared points, split the same way. */
  lemma {:induction false} InterpolationShared<S(!new)>(f: Field<S>, s: seq<S>, some: seq<S>, a: S, cs: seq<S>)
    requires f.Laws() && a !in some
    ensures Weighted(f, s + [a], some, EvalAll(f, cs, some))
            == f.Sub(f.mul(Eval(f, cs, a), Weighted(f, s + [a], some, Ones(f, |some|))),
                     f.mul(a, Weighted(f, s, some, EvalAll(f, Quotient(f, cs, a), some))))
    decreases |some|
  {
    if some == [] {
      f.MulZero(Eval(f, cs, a));
      f.MulZero(a);
      f.SubZero(f.zero, f.zero);
    } else {
      var n := |some| - 1;
      var x, fa, q := some[n], Eval(f, cs, a), Quotient(f, cs, a);
      InterpolationShared(f, s, some[..n], a, cs);
      assert EvalAll(f, cs, some)[..n] == EvalAll(f, cs, some[..n]);
      assert EvalAll(f, q, some)[..n] == EvalAll(f, q, some[..n]);
      assert Ones(f, |some|)[..n] == Ones(f, n);
      CoefficientExtend(f, x, s, a);
      var c, ca := Coefficient(f, x, s), Coefficient(f, x, s + [a]);
      Division(f, cs, a, x);
      InterpolationTerm(f, c, x, a, fa, Eval(f, q, x));
      f.MulOne(ca);
      var w1, wq := Weighted(f, s + [a], some[..n], Ones(f, n)), Weighted(f, s, some[..n], EvalAll(f, q, some[..n]));
      f.Distribute(fa, w1, ca);
      f.Distribute(a, wq, f.mul(c, Eval(f, q, x)));
      SubPairs(f, f.mul(fa, w1), f.mul(a, wq), f.mul(fa, ca), f.mul(a, f.mul(c, Eval(f, q, x))));
    }
  }

  /**
   Interpolation at zero. For every polynomial and every set of at least as many
   distinct points as it has coefficients, the Lagrange-weighted sum of its values
   is its value at zero.
   */
  lemma {:induction false} Interpolation<S(!new)>(f: Field<S>, cs: seq<S>, xs: seq<S>)
    requires f.Laws() && Distinct(xs) && |cs| <= |xs|
    ensures Weighted(f, xs, xs, EvalAll(f, cs, xs)) == Eval(f, cs, f.zero)
    decreases |xs|
  {
    if xs != [] {
      var n := |xs| - 1;
      var s, a := xs[..n], xs[n];
      var q := Quotient(f, cs, a);
      assert xs == s + [a];
      Interpolation(f, q, s);
      InterpolationShared(f, s, s, a, cs);
      Unity(f, xs);
      InterpolationLast(f, cs, s, a);
      InterpolationClose(f, cs, a);
    }
  }

  /** The last point's own term joins the shared ones. */
  lemma {:induction false} InterpolationLast<S(!new)>(f: Field<S>, cs: seq<S>, s: seq<S>, a: S)
    requires f.Laws() && a !in s
    requires Weighted(f, s + [a], s + [a], Ones(f, |s| + 1)) == f.one
    requires Weighted(f, s + [a], s, EvalAll(f, cs, s))
             == f.Sub(f.mul(Eval(f, cs, a), Weighted(f, s + [a], s, Ones(f, |s|))),
                      f.mul(a, Weighted(f, s, s, EvalAll(f, Quotient(f, cs, a), s))))
    ensures Weighted(f, s + [a], s + [a], EvalAll(f, cs, s + [a]))
            == f.Sub(Eval(f, cs, a), f.mul(a, Weighted(f, s, s, EvalAll(f, Quotient(f, cs, a), s))))
  {
    var fa, ca := Eval(f, cs, a), Coefficient(f, a, s + [a]);
    var w1, m := Weighted(f, s + [a], s, Ones(f, |s|)), f.mul(a, Weighted(f, s, s, EvalAll(f, Quotient(f, cs, a), s)));
    OnesSnoc(f, |s|);
    WeightedSnoc(f, s + [a], s, Ones(f, |s|), a, f.one);
    f.MulOne(ca);
    assert EvalAll(f, cs, s + [a]) == EvalAll(f, cs, s) + [fa];
    WeightedSnoc(f, s + [a], s, EvalAll(f, cs, s), a, fa);
    // (fa*w1 - m) + ca*fa == fa*(w1 + ca) - m
    f.MulComm(ca, fa);
    f.Distribute(fa, w1, ca);
    f.MulOne(fa);
    f.AddAssoc(f.mul(fa, w1), f.Neg(m), f.mul(fa, ca));
    f.AddComm(f.Neg(m), f.mul(fa, ca));
    f.AddAssoc(f.mul(fa, w1), f.mul(fa, ca), f.Neg(m));
  }

  /** `f(a) - a * q(0)` is the value at zero. */
  lemma {:induction false} InterpolationClose<S(!new)>(f: Field<S>, cs: seq<S>, a: S)
    requires f.Laws()
    ensures f.Sub(Eval(f, cs, a), f.mul(a, Eval(f, Quotient(f, cs, a), f.zero))) == Eval(f, cs, f.zero)
  {
    var q0 := Eval(f, Quotient(f, cs, a), f.zero);
    Division(f, cs, a, f.zero);
    f.MulSub(q0, f.zero, a);
    f.MulZero(q0);
    f.MulComm(q0, a);
    f.MulComm(f.Sub(f.zero, a), q0);
    f.AddZero(f.Neg(f.mul(a, q0)));
  }
}
