/**
 The ring operations on polynomials, the polynomial vanishing on a set of points, and what fewer shares than
 coefficients leave open.
 */
module Polynomials {
  import opened Algebra
  import opened Lagrange

  /** Coefficientwise sum; the longer tail is kept. */
  function PolyAdd<S(!new)>(f: Field<S>, p: seq<S>, q: seq<S>): (r: seq<S>)
    ensures |r| == if |p| >= |q| then |p| else |q|
  {
    if p == [] then q else if q == [] then p else [f.add(p[0], q[0])] + PolyAdd(f, p[1..], q[1..])
  }

  lemma {:induction false} EvalPolyAdd<S(!new)>(f: Field<S>, p: seq<S>, q: seq<S>, x: S)
    requires f.Laws()
    ensures Eval(f, PolyAdd(f, p, q), x) == f.add(Eval(f, p, x), Eval(f, q, x))
  {
    f.AddZero(Eval(f, p, x));
    f.AddZero(Eval(f, q, x));
    if p != [] && q != [] {
      EvalPolyAdd(f, p[1..], q[1..], x);
      assert PolyAdd(f, p, q)[1..] == PolyAdd(f, p[1..], q[1..]);
      var a, b := Eval(f, p[1..], x), Eval(f, q[1..], x);
      f.Distribute(x, a, b);
      f.MulComm(f.add(a, b), x);
      f.MulComm(a, x);
      f.MulComm(b, x);
      f.AddSwap(f.mul(a, x), f.mul(b, x), p[0], q[0]);
    }
  }

  function PolyScale<S(!new)>(f: Field<S>, a: S, p: seq<S>): (r: seq<S>)
    ensures |r| == |p|
  {
    if p == [] then [] else [f.mul(a, p[0])] + PolyScale(f, a, p[1..])
  }

  lemma {:induction false} EvalPolyScale<S(!new)>(f: Field<S>, a: S, p: seq<S>, x: S)
    requires f.Laws()
    ensures Eval(f, PolyScale(f, a, p), x) == f.mul(a, Eval(f, p, x))
  {
    if p == [] {
      f.MulZero(a);
    } else {
      EvalPolyScale(f, a, p[1..], x);
      assert PolyScale(f, a, p)[1..] == PolyScale(f, a, p[1..]);
      f.MulAssoc(a, Eval(f, p[1..], x), x);
      f.Distribute(a, f.mul(Eval(f, p[1..], x), x), p[0]);
    }
  }

  /** The polynomial times `x - a`. */
  function TimesRoot<S(!new)>(f: Field<S>, p: seq<S>, a: S): (r: seq<S>)
    ensures |r| == |p| + 1
  {
    PolyAdd(f, [f.zero] + p, PolyScale(f, f.Neg(a), p))
  }

  lemma {:induction false} EvalTimesRoot<S(!new)>(f: Field<S>, p: seq<S>, a: S, x: S)
    requires f.Laws()
    ensures Eval(f, TimesRoot(f, p, a), x) == f.mul(Eval(f, p, x), f.Sub(x, a))
  {
    var shifted := [f.zero] + p;
    assert shifted[1..] == p;
    var v := Eval(f, p, x);
    EvalPolyAdd(f, shifted, PolyScale(f, f.Neg(a), p), x);
    EvalPolyScale(f, f.Neg(a), p, x);
    f.AddZero(f.mul(v, x));
    f.Distribute(v, x, f.Neg(a));
    f.MulComm(f.Neg(a), v);
  }

  /** The monic polynomial whose roots are exactly the given points. */
  function Vanishing<S(!new)>(f: Field<S>, xs: seq<S>): (r: seq<S>)
    ensures |r| == |xs| + 1
  {
    if xs == [] then [f.one] else TimesRoot(f, Vanishing(f, xs[..|xs| - 1]), xs[|xs| - 1])
  }

  /** The vanishing polynomial is zero exactly on its points. */
  lemma {:induction false} VanishesExactly<S(!new)>(f: Field<S>, xs: seq<S>, x: S)
    requires f.Laws()
    ensures Eval(f, Vanishing(f, xs), x) == f.zero <==> x in xs
  {
    if xs == [] {
      EvalConstant(f, f.one, x);
    } else {
      var n := |xs| - 1;
      VanishesExactly(f, xs[..n], x);
      EvalTimesRoot(f, Vanishing(f, xs[..n]), xs[n], x);
      var v, d := Eval(f, Vanishing(f, xs[..n]), x), f.Sub(x, xs[n]);
      f.SubZero(x, xs[n]);
      f.MulZero(d);
      f.MulZero(v);
      f.MulComm(v, d);
      if v != f.zero && d != f.zero {
        f.NoZeroDivisors(v, d);
      }
      assert xs == xs[..n] + [xs[n]];
    }
  }

  /** A polynomial of any length above the number of points, zero exactly on them: padded with zero coefficients. */
  lemma {:induction false} VanishingOfLength<S(!new)>(f: Field<S>, xs: seq<S>, n: nat) returns (cs: seq<S>)
    requires f.Laws() && n > |xs|
    ensures |cs| == n && forall x :: Eval(f, cs, x) == f.zero <==> x in xs
  {
    var zeros := PolyScale(f, f.zero, seq(n, _ => f.zero));
    cs := PolyAdd(f, Vanishing(f, xs), zeros);
    forall x
      ensures Eval(f, cs, x) == f.zero <==> x in xs
    {
      VanishesExactly(f, xs, x);
      EvalPolyAdd(f, Vanishing(f, xs), zeros, x);
      EvalPolyScale(f, f.zero, seq(n, _ => f.zero), x);
      f.MulZero(Eval(f, seq(n, _ => f.zero), x));
      f.AddZero(Eval(f, Vanishing(f, xs), x));
    }
  }

  lemma {:induction false} EvalConstant<S(!new)>(f: Field<S>, a: S, x: S)
    requires f.Laws()
    ensures Eval(f, [a], x) == a
  {
    assert [a][1..] == [];
    f.MulZero(x);
    f.AddZero(a);
  }

  /**
   What the holders of some values of a polynomial do not know. For every set of
   non-zero points and every candidate secret there is another polynomial with the
   same values on those points and that value at zero; it is no longer than the
   original one as soon as the points are fewer than its coefficients.
   */
  lemma {:induction false} CoalitionLearnsNothing<S(!new)>(f: Field<S>, cs: seq<S>, xs: seq<S>,
      secret: S) returns (other: seq<S>)
    requires f.Laws() && f.zero !in xs
    ensures |other| == if |cs| > |xs| then |cs| else |xs| + 1
    ensures forall k :: 0 <= k < |xs| ==> Eval(f, other, xs[k]) == Eval(f, cs, xs[k])
    ensures Eval(f, other, f.zero) == secret
  {
    var v := Vanishing(f, xs);
    VanishesExactly(f, xs, f.zero);
    var v0, s := Eval(f, v, f.zero), Eval(f, cs, f.zero);
    var k := f.mul(f.Sub(secret, s), f.Inv(v0));
    other := PolyAdd(f, cs, PolyScale(f, k, v));
    forall i | 0 <= i < |xs|
      ensures Eval(f, other, xs[i]) == Eval(f, cs, xs[i])
    {
      VanishesExactly(f, xs, xs[i]);
      EvalPolyAdd(f, cs, PolyScale(f, k, v), xs[i]);
      EvalPolyScale(f, k, v, xs[i]);
      f.MulZero(k);
      f.AddZero(Eval(f, cs, xs[i]));
    }
    EvalPolyAdd(f, cs, PolyScale(f, k, v), f.zero);
    EvalPolyScale(f, k, v, f.zero);
    f.DivMul(f.Sub(secret, s), v0);
    f.SubAdd(secret, s);
    f.AddComm(s, f.Sub(secret, s));
  }
}
