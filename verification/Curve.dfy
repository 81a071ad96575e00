/**
 A prime-order group written additively, as a module over its scalar field with one
 generator, and the sums over it that every threshold operation is made of.
 */
module Curve {
  import opened Algebra

  const ID_LIMIT: nat := 0x1_0000_0000

  /** A 32-bit participant id. */
  type ParticipantId = id: nat | id < ID_LIMIT

  ghost predicate AtPoints<P>(p: P, q: P, r: P) { true }

  ghost predicate AtScale<S, P>(a: S, b: S, p: P, q: P) { true }

  datatype Curve<!S(!new), !P(!new)> =
    Curve(field: Field<S>, origin: P, plus: (P, P) -> P, times: (S, P) -> P, base: P, scalarOfId: ParticipantId -> S)
  {
    /** A module over the field in which every point is exactly one multiple of the base point. */
    ghost predicate Laws() {
      && field.Laws()
      && (forall p, q, r {:trigger AtPoints(p, q, r)} ::
            plus(plus(p, q), r) == plus(p, plus(q, r)) && plus(p, q) == plus(q, p) && plus(p, origin) == p)
      && (forall a, b, p, q {:trigger AtScale(a, b, p, q)} ::
            && times(a, plus(p, q)) == plus(times(a, p), times(a, q))
            && times(field.add(a, b), p) == plus(times(a, p), times(b, p))
            && times(field.mul(a, b), p) == times(a, times(b, p))
            && times(field.one, p) == p && times(field.zero, p) == origin && times(a, origin) == origin)
      && (forall p {:trigger AtPoints(p, p, p)} :: exists a :: times(a, base) == p)
      && (forall a, b {:trigger AtScale(a, b, base, base)} :: times(a, base) == times(b, base) ==> a == b)
      && (forall i, j {:trigger scalarOfId(i), scalarOfId(j)} :: scalarOfId(i) == scalarOfId(j) ==> i == j)
      && scalarOfId(0) == field.zero
    }

    lemma {:induction false} PlusAssoc(p: P, q: P, r: P)
      requires Laws()
      ensures plus(plus(p, q), r) == plus(p, plus(q, r))
    {
      assert AtPoints(p, q, r);
    }

    lemma {:induction false} PlusComm(p: P, q: P)
      requires Laws()
      ensures plus(p, q) == plus(q, p)
    {
      assert AtPoints(p, q, q);
    }

    lemma {:induction false} PlusOrigin(p: P)
      requires Laws()
      ensures plus(p, origin) == p && plus(origin, p) == p
    {
      assert AtPoints(p, origin, origin);
    }

    lemma {:induction false} PlusSwap(p: P, q: P, r: P, s: P)
      requires Laws()
      ensures plus(plus(p, q), plus(r, s)) == plus(plus(p, r), plus(q, s))
    {
      PlusAssoc(p, q, plus(r, s));
      PlusAssoc(q, r, s);
      PlusComm(q, r);
      PlusAssoc(r, q, s);
      PlusAssoc(p, r, plus(q, s));
    }

    lemma {:induction false} TimesPlus(a: S, p: P, q: P)
      requires Laws()
      ensures times(a, plus(p, q)) == plus(times(a, p), times(a, q))
    {
      assert AtScale(a, a, p, q);
    }

    lemma {:induction false} TimesAdd(a: S, b: S, p: P)
      requires Laws()
      ensures times(field.add(a, b), p) == plus(times(a, p), times(b, p))
    {
      assert AtScale(a, b, p, p);
    }

    lemma {:induction false} TimesMul(a: S, b: S, p: P)
      requires Laws()
      ensures times(field.mul(a, b), p) == times(a, times(b, p))
    {
      assert AtScale(a, b, p, p);
    }

    lemma {:induction false} TimesUnits(a: S, p: P)
      requires Laws()
      ensures times(field.one, p) == p && times(field.zero, p) == origin && times(a, origin) == origin
    {
      assert AtScale(a, a, p, p);
    }

    lemma {:induction false} BaseFaithful(a: S, b: S)
      requires Laws() && times(a, base) == times(b, base)
      ensures a == b
    {
      assert AtScale(a, b, base, base);
    }

    lemma {:induction false} LogOf(p: P) returns (a: S)
      requires Laws()
      ensures times(a, base) == p
    {
      assert AtPoints(p, p, p);
      a :| times(a, base) == p;
    }
  }

  // ----- sums -----

  /** Left-to-right sum of points. */
  function SumPoints<S(!new), P(!new)>(c: Curve<S, P>, s: seq<P>): P {
    if s == [] then c.origin else c.plus(SumPoints(c, s[..|s| - 1]), s[|s| - 1])
  }

  lemma {:induction false} SumPointsSnoc<S(!new), P(!new)>(c: Curve<S, P>, s: seq<P>, x: P)
    ensures SumPoints(c, s + [x]) == c.plus(SumPoints(c, s), x)
  {
    assert (s + [x])[..|s|] == s;
  }

  /** Each scalar times one point. */
  function Scaled<S(!new), P(!new)>(c: Curve<S, P>, s: seq<S>, p: P): (out: seq<P>)
    ensures |out| == |s| && forall k :: 0 <= k < |s| ==> out[k] == c.times(s[k], p)
  {
    seq(|s|, k requires 0 <= k < |s| => c.times(s[k], p))
  }

  /** Scaling a sum is summing the scaled terms. */
  lemma {:induction false} SumScaled<S(!new), P(!new)>(c: Curve<S, P>, s: seq<S>, p: P)
    requires c.Laws()
    ensures SumPoints(c, Scaled(c, s, p)) == c.times(Sum(c.field, s), p)
  {
    if s == [] {
      c.TimesUnits(c.field.zero, p);
    } else {
      var n := |s| - 1;
      SumScaled(c, s[..n], p);
      assert Scaled(c, s, p)[..n] == Scaled(c, s[..n], p);
      c.TimesAdd(Sum(c.field, s[..n]), s[n], p);
    }
  }

  /** Two sums of points added termwise. */
  lemma {:induction false} SumPointsPlus<S(!new), P(!new)>(c: Curve<S, P>, s: seq<P>, t: seq<P>, u: seq<P>)
    requires c.Laws() && |s| == |t| == |u| && forall k :: 0 <= k < |s| ==> u[k] == c.plus(s[k], t[k])
    ensures SumPoints(c, u) == c.plus(SumPoints(c, s), SumPoints(c, t))
  {
    if s == [] {
      c.PlusOrigin(c.origin);
    } else {
      var n := |s| - 1;
      SumPointsPlus(c, s[..n], t[..n], u[..n]);
      c.PlusSwap(SumPoints(c, s[..n]), SumPoints(c, t[..n]), s[n], t[n]);
    }
  }

  /** A scalar taken out of a sum of points. */
  lemma {:induction false} SumPointsTimes<S(!new), P(!new)>(c: Curve<S, P>, a: S, s: seq<P>, u: seq<P>)
    requires c.Laws() && |s| == |u| && forall k :: 0 <= k < |s| ==> u[k] == c.times(a, s[k])
    ensures SumPoints(c, u) == c.times(a, SumPoints(c, s))
  {
    if s == [] {
      c.TimesUnits(a, c.origin);
    } else {
      var n := |s| - 1;
      SumPointsTimes(c, a, s[..n], u[..n]);
      c.TimesPlus(a, SumPoints(c, s[..n]), s[n]);
    }
  }
}
