/**
 An abstract field, given by its operations and laws. The laws are stated once,
 under a trigger that only the named lemmas below mention, so each proof invokes
 exactly the instances it needs.
 */
module Algebra {

  /** Names one instance of the laws; always true. */
  ghost predicate At<S>(a: S, b: S, c: S) { true }

  datatype Unary = Negate | Invert

  datatype Field<!S(!new)> =
    Field(zero: S, one: S, add: (S, S) -> S, mul: (S, S) -> S, unary: (Unary, S) -> S)
  {
    ghost predicate Laws() {
      && one != zero
      && forall a, b, c {:trigger At(a, b, c)} ::
           && add(add(a, b), c) == add(a, add(b, c))
           && add(a, b) == add(b, a)
           && add(a, zero) == a
           && add(a, Neg(a)) == zero
           && mul(mul(a, b), c) == mul(a, mul(b, c))
           && mul(a, b) == mul(b, a)
           && mul(a, one) == a
           && mul(a, add(b, c)) == add(mul(a, b), mul(a, c))
           && (a != zero ==> mul(a, Inv(a)) == one)
    }

    function Neg(a: S): S { unary(Negate, a) }

    function Inv(a: S): S { unary(Invert, a) }

    function Sub(a: S, b: S): S { add(a, Neg(b)) }

    function Div(a: S, b: S): S { mul(a, Inv(b)) }

    // ----- addition -----

    lemma {:induction false} AddAssoc(a: S, b: S, c: S)
      requires Laws()
      ensures add(add(a, b), c) == add(a, add(b, c))
    {
      assert At(a, b, c);
    }

    lemma {:induction false} AddComm(a: S, b: S)
      requires Laws()
      ensures add(a, b) == add(b, a)
    {
      assert At(a, b, b);
    }

    lemma {:induction false} AddZero(a: S)
      requires Laws()
      ensures add(a, zero) == a && add(zero, a) == a
    {
      assert At(a, zero, zero);
    }

    lemma {:induction false} AddNeg(a: S)
      requires Laws()
      ensures add(a, Neg(a)) == zero && add(Neg(a), a) == zero
    {
      assert At(a, Neg(a), a);
    }

    lemma {:induction false} AddCancel(a: S, b: S, c: S)
      requires Laws() && add(a, c) == add(b, c)
      ensures a == b
    {
      AddAssoc(a, c, Neg(c));
      AddAssoc(b, c, Neg(c));
      AddNeg(c);
      AddZero(a);
      AddZero(b);
    }

    /** Two sums added termwise. */
    lemma {:induction false} AddSwap(a: S, b: S, c: S, d: S)
      requires Laws()
      ensures add(add(a, b), add(c, d)) == add(add(a, c), add(b, d))
    {
      AddAssoc(a, b, add(c, d));
      AddAssoc(b, c, d);
      AddComm(b, c);
      AddAssoc(c, b, d);
      AddAssoc(a, c, add(b, d));
    }

    lemma {:induction false} SubZero(a: S, b: S)
      requires Laws()
      ensures Sub(a, b) == zero <==> a == b
    {
      AddNeg(b);
      if Sub(a, b) == zero { AddCancel(a, b, Neg(b)); }
    }

    /** Subtraction undoes addition, both ways round. */
    lemma {:induction false} SubAdd(a: S, b: S)
      requires Laws()
      ensures add(Sub(a, b), b) == a
      ensures Sub(add(a, b), b) == a
    {
      AddAssoc(a, Neg(b), b);
      AddAssoc(a, b, Neg(b));
      AddNeg(b);
      AddZero(a);
    }

    // ----- multiplication -----

    lemma {:induction false} MulAssoc(a: S, b: S, c: S)
      requires Laws()
      ensures mul(mul(a, b), c) == mul(a, mul(b, c))
    {
      assert At(a, b, c);
    }

    lemma {:induction false} MulComm(a: S, b: S)
      requires Laws()
      ensures mul(a, b) == mul(b, a)
    {
      assert At(a, b, b);
    }

    lemma {:induction false} MulOne(a: S)
      requires Laws()
      ensures mul(a, one) == a && mul(one, a) == a
    {
      assert At(a, one, one);
      MulComm(a, one);
    }

    lemma {:induction false} Distribute(a: S, b: S, c: S)
      requires Laws()
      ensures mul(a, add(b, c)) == add(mul(a, b), mul(a, c))
      ensures mul(add(b, c), a) == add(mul(b, a), mul(c, a))
    {
      assert At(a, b, c);
      MulComm(a, add(b, c));
      MulComm(a, b);
      MulComm(a, c);
    }

    lemma {:induction false} MulSwap(a: S, b: S, c: S, d: S)
      requires Laws()
      ensures mul(mul(a, b), mul(c, d)) == mul(mul(a, c), mul(b, d))
    {
      MulAssoc(a, b, mul(c, d));
      MulAssoc(b, c, d);
      MulComm(b, c);
      MulAssoc(c, b, d);
      MulAssoc(a, c, mul(b, d));
    }

    lemma {:induction false} MulZero(a: S)
      requires Laws()
      ensures mul(a, zero) == zero && mul(zero, a) == zero
    {
      Distribute(a, zero, zero);
      AddZero(zero);
      AddZero(mul(a, zero));
      AddCancel(mul(a, zero), zero, mul(a, zero));
      MulComm(a, zero);
    }

    lemma {:induction false} MulNeg(a: S, b: S)
      requires Laws()
      ensures mul(a, Neg(b)) == Neg(mul(a, b)) && mul(Neg(b), a) == Neg(mul(b, a))
    {
      Distribute(a, b, Neg(b));
      AddNeg(b);
      MulZero(a);
      AddNeg(mul(a, b));
      AddComm(mul(a, b), mul(a, Neg(b)));
      AddComm(mul(a, b), Neg(mul(a, b)));
      AddCancel(mul(a, Neg(b)), Neg(mul(a, b)), mul(a, b));
      MulComm(a, Neg(b));
      MulComm(a, b);
    }

    lemma {:induction false} MulSub(a: S, b: S, c: S)
      requires Laws()
      ensures mul(a, Sub(b, c)) == Sub(mul(a, b), mul(a, c))
      ensures mul(Sub(b, c), a) == Sub(mul(b, a), mul(c, a))
    {
      Distribute(a, b, Neg(c));
      MulNeg(a, c);
    }

    // ----- inverses -----

    lemma {:induction false} MulInv(a: S)
      requires Laws() && a != zero
      ensures mul(a, Inv(a)) == one && mul(Inv(a), a) == one
    {
      assert At(a, a, a);
      MulComm(a, Inv(a));
    }

    lemma {:induction false} MulCancel(a: S, b: S, c: S)
      requires Laws() && c != zero && mul(a, c) == mul(b, c)
      ensures a == b
    {
      MulAssoc(a, c, Inv(c));
      MulAssoc(b, c, Inv(c));
      MulInv(c);
      MulOne(a);
      MulOne(b);
    }

    lemma {:induction false} NoZeroDivisors(a: S, b: S)
      requires Laws()
      ensures mul(a, b) == zero <==> a == zero || b == zero
    {
      MulZero(a);
      MulZero(b);
      if mul(a, b) == zero && b != zero { MulCancel(a, zero, b); }
    }

    lemma {:induction false} InvMul(a: S, b: S)
      requires Laws() && a != zero && b != zero
      ensures Inv(mul(a, b)) == mul(Inv(a), Inv(b))
    {
      NoZeroDivisors(a, b);
      MulSwap(a, b, Inv(a), Inv(b));
      MulInv(a);
      MulInv(b);
      MulOne(one);
      MulInv(mul(a, b));
      MulComm(mul(a, b), mul(Inv(a), Inv(b)));
      MulComm(mul(a, b), Inv(mul(a, b)));
      MulCancel(Inv(mul(a, b)), mul(Inv(a), Inv(b)), mul(a, b));
    }

    lemma {:induction false} DivMul(a: S, b: S)
      requires Laws() && b != zero
      ensures mul(Div(a, b), b) == a && Div(mul(a, b), b) == a
    {
      MulAssoc(a, Inv(b), b);
      MulAssoc(a, b, Inv(b));
      MulInv(b);
      MulOne(a);
    }

    lemma {:induction false} NegSub(a: S, b: S)
      requires Laws()
      ensures Neg(Sub(a, b)) == Sub(b, a)
    {
      AddSwap(a, Neg(b), b, Neg(a));
      AddComm(Neg(b), Neg(a));
      AddSwap(a, b, Neg(a), Neg(b));
      AddNeg(a);
      AddNeg(b);
      AddZero(zero);
      AddNeg(Sub(a, b));
      AddComm(Sub(a, b), Sub(b, a));
      AddComm(Sub(a, b), Neg(Sub(a, b)));
      AddCancel(Neg(Sub(a, b)), Sub(b, a), Sub(a, b));
    }
  }

  // ----- sums -----

  /** Left-to-right sum of scalars. */
  function Sum<S(!new)>(f: Field<S>, s: seq<S>): S {
    if s == [] then f.zero else f.add(Sum(f, s[..|s| - 1]), s[|s| - 1])
  }

  lemma {:induction false} SumSnoc<S(!new)>(f: Field<S>, s: seq<S>, x: S)
    ensures Sum(f, s + [x]) == f.add(Sum(f, s), x)
  {
    assert (s + [x])[..|s|] == s;
  }
}
