/**
 An erasure code with the law the erasure results ask for: over a field of bytes,
 the parity shards are further values of the polynomials that pass through the data.
 */
module ReedSolomon {
  import opened Wrappers
  import opened Bytes
  import opened Algebra
  import opened Lagrange
  import opened Polynomials
  import opened Sequences
  import opened Erasure

  // ----- polynomials through given values -----

  /** The polynomial with one coefficient per point that takes the given values there. */
  function Through<S(!new)>(f: Field<S>, xs: seq<S>, ys: seq<S>): (cs: seq<S>)
    requires |xs| == |ys|
    ensures |cs| == |xs|
  {
    if xs == [] then []
    else
      var n := |xs| - 1;
      var before, v := Through(f, xs[..n], ys[..n]), Vanishing(f, xs[..n]);
      PolyAdd(f, before, PolyScale(f, f.Div(f.Sub(ys[n], Eval(f, before, xs[n])), Eval(f, v, xs[n])), v))
  }

  lemma {:induction false} ThroughAt<S(!new)>(f: Field<S>, xs: seq<S>, ys: seq<S>, i: nat)
    requires f.Laws() && NoRepeats(xs) && i < |xs| == |ys|
    ensures Eval(f, Through(f, xs, ys), xs[i]) == ys[i]
    decreases |xs|
  {
    var n := |xs| - 1;
    var before, v := Through(f, xs[..n], ys[..n]), Vanishing(f, xs[..n]);
    var vn, d := Eval(f, v, xs[n]), f.Sub(ys[n], Eval(f, before, xs[n]));
    var k := f.Div(d, vn);
    EvalPolyAdd(f, before, PolyScale(f, k, v), xs[i]);
    EvalPolyScale(f, k, v, xs[i]);
    VanishesExactly(f, xs[..n], xs[i]);
    if i < n {
      ThroughAt(f, xs[..n], ys[..n], i);
      assert xs[i] == xs[..n][i];
      f.MulZero(k);
      f.AddZero(ys[i]);
    } else {
      f.DivMul(d, vn);
      f.SubAdd(ys[n], Eval(f, before, xs[n]));
      f.AddComm(d, Eval(f, before, xs[n]));
    }
  }

  /** A polynomial with no more coefficients than zeros is zero everywhere. */
  lemma {:induction false} FewRoots<S(!new)>(f: Field<S>, cs: seq<S>, xs: seq<S>, x: S)
    requires f.Laws() && NoRepeats(xs) && |cs| <= |xs|
    requires forall i :: 0 <= i < |xs| ==> Eval(f, cs, xs[i]) == f.zero
    ensures Eval(f, cs, x) == f.zero
    decreases |cs|
  {
    if cs != [] {
      var n := |xs| - 1;
      var a, q := xs[n], Quotient(f, cs, xs[n]);
      forall i | 0 <= i < n ensures Eval(f, q, xs[..n][i]) == f.zero {
        Division(f, cs, a, xs[i]);
        f.AddZero(f.mul(f.Sub(xs[i], a), Eval(f, q, xs[i])));
        f.SubZero(xs[i], a);
        f.NoZeroDivisors(f.Sub(xs[i], a), Eval(f, q, xs[i]));
      }
      FewRoots(f, q, xs[..n], x);
      Division(f, cs, a, x);
      f.MulZero(f.Sub(x, a));
      f.AddZero(f.zero);
    }
  }

  /** Two polynomials that agree on as many points as they have coefficients agree everywhere. */
  lemma {:induction false} AgreeEverywhere<S(!new)>(f: Field<S>, p: seq<S>, q: seq<S>, xs: seq<S>, x: S)
    requires f.Laws() && NoRepeats(xs) && |p| == |q| <= |xs|
    requires forall i :: 0 <= i < |xs| ==> Eval(f, p, xs[i]) == Eval(f, q, xs[i])
    ensures Eval(f, p, x) == Eval(f, q, x)
  {
    var minus := f.Neg(f.one);
    var d := PolyAdd(f, p, PolyScale(f, minus, q));
    forall i | 0 <= i < |xs| ensures Eval(f, d, xs[i]) == f.zero {
      DifferenceAt(f, p, q, xs[i]);
      f.SubZero(Eval(f, p, xs[i]), Eval(f, q, xs[i]));
    }
    FewRoots(f, d, xs, x);
    DifferenceAt(f, p, q, x);
    f.SubZero(Eval(f, p, x), Eval(f, q, x));
  }

  lemma {:induction false} DifferenceAt<S(!new)>(f: Field<S>, p: seq<S>, q: seq<S>, x: S)
    requires f.Laws()
    ensures Eval(f, PolyAdd(f, p, PolyScale(f, f.Neg(f.one), q)), x) == f.Sub(Eval(f, p, x), Eval(f, q, x))
  {
    EvalPolyAdd(f, p, PolyScale(f, f.Neg(f.one), q), x);
    EvalPolyScale(f, f.Neg(f.one), q, x);
    f.MulNeg(Eval(f, q, x), f.one);
    f.MulOne(Eval(f, q, x));
  }

  // ----- codewords, one byte of each shard at a time -----

  const POINTS: nat := 255

  /** The points the shards stand for. */
  function Points(n: nat): (r: seq<byte>)
    requires n <= POINTS
    ensures |r| == n && forall i :: 0 <= i < n ==> r[i] == i as byte
  {
    seq(n, i requires 0 <= i < n => i as byte)
  }

  /** The bytes at one place of each shard. */
  function Column(shards: seq<Shard>, length: nat, j: nat): (r: seq<byte>)
    requires UniformLength(shards, length) && j < length
    ensures |r| == |shards| && forall i :: 0 <= i < |r| ==> r[i] == shards[i][j]
  {
    seq(|shards|, i requires 0 <= i < |shards| => shards[i][j])
  }

  /** What shard `k` holds at place `j`. */
  function Symbol(f: Field<byte>, shards: seq<Shard>, length: nat, k: nat, j: nat): byte
    requires UniformLength(shards, length) && j < length && |shards| <= POINTS && k < POINTS
  {
    Eval(f, Through(f, Points(|shards|), Column(shards, length, j)), k as byte)
  }

  /** The `k`-th shard of the codeword. */
  function Word(f: Field<byte>, shards: seq<Shard>, length: nat, k: nat): (r: Shard)
    requires UniformLength(shards, length) && |shards| <= POINTS && k < POINTS
    ensures |r| == length && forall j :: 0 <= j < length ==> r[j] == Symbol(f, shards, length, k, j)
  {
    seq(length, j requires 0 <= j < length => Symbol(f, shards, length, k, j))
  }

  lemma {:induction false} WordIsData(f: Field<byte>, shards: seq<Shard>, length: nat, k: nat)
    requires f.Laws() && UniformLength(shards, length) && k < |shards| <= POINTS
    ensures Word(f, shards, length, k) == shards[k]
  {
    forall j | 0 <= j < length ensures Symbol(f, shards, length, k, j) == shards[k][j] {
      ThroughAt(f, Points(|shards|), Column(shards, length, j), k);
    }
  }

  /** Codewords that agree on as many shards as there are data shards have the same data. */
  lemma {:induction false} WordsAgree(f: Field<byte>, a: seq<Shard>, b: seq<Shard>, length: nat, places: seq<nat>)
    requires f.Laws() && UniformLength(a, length) && UniformLength(b, length) && |a| == |b| <= |places|
    requires NoRepeats(places) && |a| <= POINTS
    requires forall i :: 0 <= i < |places| ==>
                           places[i] < POINTS && Word(f, a, length, places[i]) == Word(f, b, length, places[i])
    ensures a == b
  {
    forall k | 0 <= k < |a| ensures a[k] == b[k] {
      WordIsData(f, a, length, k);
      WordIsData(f, b, length, k);
      forall j | 0 <= j < length ensures Symbol(f, a, length, k, j) == Symbol(f, b, length, k, j) {
        SymbolsAgree(f, a, b, length, places, k, j);
      }
    }
  }

  lemma {:induction false} SymbolsAgree(f: Field<byte>, a: seq<Shard>, b: seq<Shard>, length: nat, places: seq<nat>,
      k: nat, j: nat)
    requires f.Laws() && UniformLength(a, length) && UniformLength(b, length) && |a| == |b| <= |places|
    requires NoRepeats(places) && |a| <= POINTS && k < POINTS && j < length
    requires forall i :: 0 <= i < |places| ==>
                           places[i] < POINTS && Word(f, a, length, places[i]) == Word(f, b, length, places[i])
    ensures Symbol(f, a, length, k, j) == Symbol(f, b, length, k, j)
  {
    var xs := seq(|places|, i requires 0 <= i < |places| => places[i] as byte);
    var p, q := Through(f, Points(|a|), Column(a, length, j)), Through(f, Points(|b|), Column(b, length, j));
    forall i | 0 <= i < |xs| ensures Eval(f, p, xs[i]) == Eval(f, q, xs[i]) {
      assert Word(f, a, length, places[i])[j] == Word(f, b, length, places[i])[j];
    }
    AgreeEverywhere(f, p, q, xs, k as byte);
  }

  // ----- the code -----

  /** Data of the right shape that fits every shard at hand. */
  ghost predicate Explains(f: Field<byte>, data: nat, parity: nat, have: map<nat, Shard>, spare: map<nat, Shard>,
      shards: seq<Shard>, length: nat)
    requires CountsOk(data, parity)
  {
    && |shards| == data && UniformLength(shards, length) && PartOf(have, shards)
    && forall k :: k in spare ==> k < parity && spare[k] == Word(f, shards, length, data + k)
  }

  ghost function ParityOf(f: Field<byte>, data: nat, parity: nat, shards: seq<Shard>): seq<Shard> {
    if CountsOk(data, parity) && |shards| == data && UniformLength(shards, |shards[0]|) then
      seq(parity, k requires 0 <= k < parity => Word(f, shards, |shards[0]|, data + k))
    else []
  }

  ghost function RestoreOf(f: Field<byte>, data: nat, parity: nat, have: map<nat, Shard>, spare: map<nat, Shard>)
    : Option<map<nat, Shard>>
  {
    if CountsOk(data, parity) && exists shards, length :: Explains(f, data, parity, have, spare, shards, length) then
      var shards, length :| Explains(f, data, parity, have, spare, shards, length);
      Some(map i: nat | 0 <= i < data :: shards[i])
    else None
  }

  ghost function CodeOf(f: Field<byte>): Code {
    Code((data: nat, parity: nat, shards: seq<Shard>) => ParityOf(f, data, parity, shards),
         (data: nat, parity: nat, have: map<nat, Shard>, spare: map<nat, Shard>) =>
           RestoreOf(f, data, parity, have, spare))
  }

  /** The elements of a set, each once. */
  lemma {:induction false} Listed(s: set<nat>) returns (list: seq<nat>)
    ensures |list| == |s| && NoRepeats(list) && forall x :: x in list <==> x in s
  {
    if s == {} {
      list := [];
    } else {
      var x :| x in s;
      var rest := Listed(s - {x});
      list := rest + [x];
    }
  }

  /** The shards of a codeword that are at hand, by their places in it. */
  lemma {:induction false} PlacesAtHand(data: nat, parity: nat, have: map<nat, Shard>, spare: map<nat, Shard>)
    returns (places: seq<nat>)
    requires (forall i :: i in have ==> i < data) && (forall k :: k in spare ==> k < parity)
    ensures |places| == |have| + |spare| && NoRepeats(places)
    ensures forall i :: 0 <= i < |places| ==>
                          places[i] in have || (data <= places[i] < data + parity && places[i] - data in spare)
  {
    var hs := Listed(have.Keys);
    var ss := Listed(spare.Keys);
    forall i | 0 <= i < |hs| ensures hs[i] in have { assert hs[i] in hs; }
    var shifted := seq(|ss|, i requires 0 <= i < |ss| => data + ss[i]);
    places := hs + shifted;
    JoinedOnce(hs, shifted, data);
    forall i | 0 <= i < |places|
      ensures places[i] in have || (data <= places[i] < data + parity && places[i] - data in spare)
    {
      if i < |hs| { assert hs[i] in hs; } else { assert ss[i - |hs|] in ss; }
    }
  }

  lemma {:induction false} JoinedOnce(a: seq<nat>, b: seq<nat>, bound: nat)
    requires NoRepeats(a) && NoRepeats(b)
    requires (forall i :: 0 <= i < |a| ==> a[i] < bound) && forall i :: 0 <= i < |b| ==> bound <= b[i]
    ensures NoRepeats(a + b)
  {
  }

  /** As many shards as there are data shards leave only one explanation. */
  lemma {:induction false} ExplainedOnce(f: Field<byte>, data: nat, parity: nat, have: map<nat, Shard>,
      spare: map<nat, Shard>, a: seq<Shard>, m: nat, b: seq<Shard>, n: nat)
    requires f.Laws() && CountsOk(data, parity) && |have| + |spare| >= data
    requires Explains(f, data, parity, have, spare, a, m) && Explains(f, data, parity, have, spare, b, n)
    ensures a == b
  {
    var places := PlacesAtHand(data, parity, have, spare);
    forall i | 0 <= i < |places|
      ensures places[i] < POINTS && Word(f, a, m, places[i]) == Word(f, b, n, places[i])
    {
      if places[i] in have {
        WordIsData(f, a, m, places[i]);
        WordIsData(f, b, n, places[i]);
      } else {
        var k := places[i] - data;
        assert k in spare && places[i] == data + k;
      }
    }
    assert |Word(f, a, m, places[0])| == |Word(f, b, n, places[0])|;
    WordsAgree(f, a, b, m, places);
  }

  lemma {:induction false} ParityShape(f: Field<byte>, data: nat, parity: nat, shards: seq<Shard>, length: nat)
    requires CountsOk(data, parity) && |shards| == data && UniformLength(shards, length)
    ensures |ParityOf(f, data, parity, shards)| == parity && UniformLength(ParityOf(f, data, parity, shards), length)
  {
    assert |shards[0]| == length && UniformLength(shards, |shards[0]|);
    var spare := ParityOf(f, data, parity, shards);
    assert |spare| == parity;
    forall k | 0 <= k < parity ensures |spare[k]| == length {
      assert spare[k] == Word(f, shards, |shards[0]|, data + k);
    }
  }

  /** Over a field whose elements are the bytes, any `data` shards of a codeword restore the rest. */
  lemma {:induction false} FieldCodeRestores(f: Field<byte>)
    requires f.Laws()
    ensures CodeOf(f).AnyKOfN()
  {
    var code := CodeOf(f);
    forall d, p, length, data: seq<Shard> {:trigger code.parity(d, p, data), UniformLength(data, length)}
      | CountsOk(d, p) && |data| == d && UniformLength(data, length) && length % 2 == 0
      ensures |code.parity(d, p, data)| == p && UniformLength(code.parity(d, p, data), length)
    {
      ParityShape(f, d, p, data, length);
    }
    forall d, p, length, data: seq<Shard>, have, spare
      {:trigger code.restore(d, p, have, spare), code.parity(d, p, data), UniformLength(data, length)}
      | CountsOk(d, p) && |data| == d && UniformLength(data, length) && length % 2 == 0
        && PartOf(have, data) && PartOf(spare, code.parity(d, p, data)) && |have| + |spare| >= d
      ensures code.restore(d, p, have, spare).Some? &&
              forall i :: 0 <= i < d && i !in have ==>
                i in code.restore(d, p, have, spare).value && code.restore(d, p, have, spare).value[i] == data[i]
    {
      Restored(f, d, p, length, data, have, spare);
    }
  }

  lemma {:induction false} Restored(f: Field<byte>, d: nat, p: nat, length: nat, data: seq<Shard>,
      have: map<nat, Shard>, spare: map<nat, Shard>)
    requires f.Laws() && CountsOk(d, p) && |data| == d && UniformLength(data, length)
    requires PartOf(have, data) && PartOf(spare, ParityOf(f, d, p, data)) && |have| + |spare| >= d
    ensures RestoreOf(f, d, p, have, spare).Some?
    ensures forall i :: 0 <= i < d ==> i in RestoreOf(f, d, p, have, spare).value
                                       && RestoreOf(f, d, p, have, spare).value[i] == data[i]
  {
    assert Explains(f, d, p, have, spare, data, length);
    forall shards, n | Explains(f, d, p, have, spare, shards, n) ensures shards == data {
      ExplainedOnce(f, d, p, have, spare, shards, n, data, length);
    }
  }
}
