/** Rearranging a list: removal, the products behind Lagrange coefficients, and lists sorted without ties. */
module Permuted {
  import opened Algebra
  import opened Lagrange

  function Without<T>(s: seq<T>, i: nat): (r: seq<T>)
    requires i < |s|
    ensures |r| == |s| - 1 && forall k :: 0 <= k < |r| ==> r[k] == s[if k < i then k else k + 1]
  {
    s[..i] + s[i + 1..]
  }

  ghost predicate SameElements<T>(s: seq<T>, t: seq<T>) {
    multiset(s) == multiset(t)
  }

  lemma {:induction false} SameLength<T>(s: seq<T>, t: seq<T>)
    requires SameElements(s, t)
    ensures |s| == |t|
  {
    assert |multiset(s)| == |s| && |multiset(t)| == |t|;
  }

  lemma {:induction false} SameTails<T>(s: seq<T>, t: seq<T>)
    requires SameElements(s, t) && s != [] && t != [] && s[0] == t[0]
    ensures SameElements(s[1..], t[1..])
  {
    SplitHead(s);
    SplitHead(t);
    AddCancels(multiset(s[1..]), multiset(t[1..]), s[0]);
  }

  lemma {:induction false} SplitAt<T>(s: seq<T>, i: nat)
    requires i < |s|
    ensures multiset(s) == multiset(Without(s, i)) + multiset{s[i]}
  {
    assert s == s[..i] + [s[i]] + s[i + 1..];
  }

  lemma {:induction false} SplitHead<T>(s: seq<T>)
    requires s != []
    ensures multiset(s) == multiset(s[1..]) + multiset{s[0]}
  {
    assert s == [s[0]] + s[1..];
  }

  lemma {:induction false} AddCancels<T>(a: multiset<T>, b: multiset<T>, x: T)
    requires a + multiset{x} == b + multiset{x}
    ensures a == b
  {
    assert a == a + multiset{x} - multiset{x} && b == b + multiset{x} - multiset{x};
  }

  /** The position in `s` of the last element of `t`, and what is left of both. */
  lemma {:induction false} MatchLast<T>(s: seq<T>, t: seq<T>) returns (i: nat)
    requires SameElements(s, t) && t != []
    ensures i < |s| && s[i] == t[|t| - 1] && SameElements(Without(s, i), t[..|t| - 1])
  {
    var n := |t| - 1;
    assert t == t[..n] + [t[n]];
    assert t[n] in multiset(t);
    assert t[n] in s;
    i :| 0 <= i < |s| && s[i] == t[n];
    var x, a, b := t[n], multiset(Without(s, i)), multiset(t[..n]);
    SplitAt(s, i);
    assert multiset(s) == a + multiset{x} && multiset(t) == b + multiset{x};
    AddCancels(a, b, x);
  }

  // ----- sums do not depend on the order of the terms -----

  lemma {:induction false} SumWithout<S(!new)>(f: Field<S>, s: seq<S>, i: nat)
    requires f.Laws() && i < |s|
    ensures Sum(f, s) == f.add(Sum(f, Without(s, i)), s[i])
    decreases |s|
  {
    var n := |s| - 1;
    if i == n {
      assert Without(s, i) == s[..n];
    } else {
      SumWithout(f, s[..n], i);
      assert Without(s, i)[..n - 1] == Without(s[..n], i) && Without(s, i)[n - 1] == s[n];
      var a := Sum(f, Without(s[..n], i));
      f.AddAssoc(a, s[i], s[n]);
      f.AddComm(s[i], s[n]);
      f.AddAssoc(a, s[n], s[i]);
    }
  }

  lemma {:induction false} SumPermuted<S(!new)>(f: Field<S>, s: seq<S>, t: seq<S>)
    requires f.Laws() && SameElements(s, t)
    ensures Sum(f, s) == Sum(f, t)
    decreases |t|
  {
    SameLength(s, t);
    if t != [] {
      var i := MatchLast(s, t);
      SumPermuted(f, Without(s, i), t[..|t| - 1]);
      SumWithout(f, s, i);
    }
  }

  lemma {:induction false} SumConcat<S(!new)>(f: Field<S>, s: seq<S>, t: seq<S>)
    requires f.Laws()
    ensures Sum(f, s + t) == f.add(Sum(f, s), Sum(f, t))
    decreases |t|
  {
    if t == [] {
      assert s + t == s;
      f.AddZero(Sum(f, s));
    } else {
      var n := |t| - 1;
      SumConcat(f, s, t[..n]);
      assert (s + t)[..|s| + n] == s + t[..n];
      f.AddAssoc(Sum(f, s), Sum(f, t[..n]), t[n]);
    }
  }

  // ----- Lagrange coefficients do not depend on the order of the points -----

  lemma {:induction false} ProductsWithout<S(!new)>(f: Field<S>, x: S, s: seq<S>, i: nat)
    requires f.Laws() && i < |s|
    ensures Numerator(f, x, s) == if s[i] == x then Numerator(f, x, Without(s, i))
            else f.mul(Numerator(f, x, Without(s, i)), s[i])
    ensures Denominator(f, x, s) == if s[i] == x then Denominator(f, x, Without(s, i))
            else f.mul(Denominator(f, x, Without(s, i)), f.Sub(s[i], x))
    decreases |s|
  {
    var n := |s| - 1;
    if i == n {
      assert Without(s, i) == s[..n];
    } else {
      ProductsWithout(f, x, s[..n], i);
      assert Without(s, i)[..n - 1] == Without(s[..n], i) && Without(s, i)[n - 1] == s[n];
      var a, b, y := Numerator(f, x, Without(s[..n], i)), Denominator(f, x, Without(s[..n], i)), s[n];
      SwapFactors(f, a, s[i], y);
      SwapFactors(f, b, f.Sub(s[i], x), f.Sub(y, x));
    }
  }

  lemma {:induction false} SwapFactors<S(!new)>(f: Field<S>, a: S, b: S, c: S)
    requires f.Laws()
    ensures f.mul(f.mul(a, b), c) == f.mul(f.mul(a, c), b)
  {
    f.MulAssoc(a, b, c);
    f.MulComm(b, c);
    f.MulAssoc(a, c, b);
  }

  lemma {:induction false} ProductsPermuted<S(!new)>(f: Field<S>, x: S, s: seq<S>, t: seq<S>)
    requires f.Laws() && SameElements(s, t)
    ensures Numerator(f, x, s) == Numerator(f, x, t) && Denominator(f, x, s) == Denominator(f, x, t)
    decreases |t|
  {
    SameLength(s, t);
    if t != [] {
      var i := MatchLast(s, t);
      ProductsPermuted(f, x, Without(s, i), t[..|t| - 1]);
      ProductsWithout(f, x, s, i);
    }
  }

  lemma {:induction false} CoefficientPermuted<S(!new)>(f: Field<S>, x: S, s: seq<S>, t: seq<S>)
    requires f.Laws() && SameElements(s, t)
    ensures Coefficient(f, x, s) == Coefficient(f, x, t)
  {
    ProductsPermuted(f, x, s, t);
  }

  lemma {:induction false} WeightedPermuted<S(!new)>(f: Field<S>, s: seq<S>, t: seq<S>, some: seq<S>, values: seq<S>)
    requires f.Laws() && SameElements(s, t) && |some| == |values|
    ensures Weighted(f, s, some, values) == Weighted(f, t, some, values)
    decreases |some|
  {
    if some != [] {
      var n := |some| - 1;
      WeightedPermuted(f, s, t, some[..n], values[..n]);
      CoefficientPermuted(f, some[n], s, t);
    }
  }
}
