/** Rate limiting: two accepted messages of one key in one epoch give the key away. */
module AirShare {
  import opened Wrappers
  import opened Algebra
  import opened Permutation
  import opened Merkle
  import opened Air
  import opened AirSoundness
  import opened AirTrace

  datatype Share<!S> = Share(nullifier: S, x: S, y: S)

  function RecoverSecret<S(==, !new)>(f: Field<S>, a: Share<S>, b: Share<S>): Option<S> {
    if a.nullifier != b.nullifier then None
    else if a.x == b.x then None
    else
      var a1 := f.Div(f.Sub(a.y, b.y), f.Sub(a.x, b.x));
      Some(f.Sub(a.y, f.mul(a1, a.x)))
  }

  /** The share carried by accepted public inputs. */
  function ShareOf<S>(pub: PublicInputs<S>): Share<S> {
    Share(pub.nullifier, pub.x, pub.y)
  }

  /** Two points of one line differ by the slope times the difference of their abscissas. */
  lemma {:induction false} LineDifference<S(!new)>(f: Field<S>, sk: S, a1: S, x: S, z: S)
    requires f.Laws()
    ensures f.Sub(f.add(sk, f.mul(a1, x)), f.add(sk, f.mul(a1, z))) == f.mul(a1, f.Sub(x, z))
  {
    var m, n := f.mul(a1, x), f.mul(a1, z);
    f.MulSub(a1, x, z);
    f.SubAdd(m, n);
    f.AddAssoc(f.Sub(m, n), n, sk);
    f.AddComm(f.add(f.Sub(m, n), n), sk);
    f.AddComm(n, sk);
    f.SubAdd(f.Sub(m, n), f.add(sk, n));
  }

  /** Two points of one line recover its intercept exactly when their abscissas differ. */
  lemma {:induction false} RecoversIntercept<S(!new)>(f: Field<S>, sk: S, a1: S, a: Share<S>, b: Share<S>)
    requires f.Laws() && a.nullifier == b.nullifier
    requires a.y == f.add(sk, f.mul(a1, a.x)) && b.y == f.add(sk, f.mul(a1, b.x))
    ensures RecoverSecret(f, a, b) == if a.x == b.x then None else Some(sk)
  {
    if a.x != b.x {
      LineDifference(f, sk, a1, a.x, b.x);
      f.SubZero(a.x, b.x);
      f.DivMul(a1, f.Sub(a.x, b.x));
      f.SubAdd(sk, f.mul(a1, a.x));
    }
  }

  /**
   Any two accepted traces of one key in one epoch recover that key from their
   public shares exactly when the messages differ, whatever trees they were for.
   */
  lemma {:induction false} TwoMessagesRevealKey<S(!new)>(p: Params<S>, pub: PublicInputs<S>, depth: nat, t: seq<Row<S>>,
                                      pub': PublicInputs<S>, depth': nat, t': seq<Row<S>>)
    requires p.Valid() && IsValidDepth(depth) && IsValidDepth(depth')
    requires Accepts(p, pub, depth, t) && Accepts(p, pub', depth', t')
    requires pub.epoch == pub'.epoch && t[0][COL_SK] == t'[0][COL_SK]
    ensures RecoverSecret(p.field, ShareOf(pub), ShareOf(pub')) == if pub.x == pub'.x then None else Some(t[0][COL_SK])
  {
    Soundness(p, pub, depth, t);
    Soundness(p, pub', depth', t');
    RecoversIntercept(p.field, t[0][COL_SK], pub.nullifier, ShareOf(pub), ShareOf(pub'));
  }

  /**
   What the prover publishes for a message: the root is read from the trace, the
   nullifier and share are computed beside it.
   */
  function ProvedInputs<S(!new)>(p: Params<S>, w: Witness<S>, epoch: S, x: S): PublicInputs<S>
    requires p.TablesFit()
  {
    var a1 := Compress2(p, w.sk, epoch);
    var t := BuiltTrace(p, w, epoch, x);
    PublicInputs(t[RootRow(|w.path|)][0], epoch, x, p.field.add(w.sk, p.field.mul(a1, x)), a1)
  }

  /** A member's message is accepted for the tree's own root, and two in one epoch reveal the member's key. */
  lemma {:induction false} MemberMessages<S(!new)>(p: Params<S>, depth: nat, levels: seq<seq<S>>, index: nat, sk: S,
      epoch: S, x: S, x': S)
    requires p.Valid() && IsValidDepth(depth) && WellBuilt(p, depth, levels)
    requires index < |levels[0]| && levels[0][index] == Compress2(p, sk, p.field.zero)
    ensures var w := Witness(sk, PathFrom(levels, depth, 0, index));
            var one, two := ProvedInputs(p, w, epoch, x), ProvedInputs(p, w, epoch, x');
            && one.root == levels[depth][0] == two.root
            && Accepts(p, one, depth, BuiltTrace(p, w, epoch, x))
            && RecoverSecret(p.field, ShareOf(one), ShareOf(two)) == if x == x' then None else Some(sk)
  {
    var w := Witness(sk, PathFrom(levels, depth, 0, index));
    MemberProves(p, depth, levels, index, sk, epoch, x);
    MemberProves(p, depth, levels, index, sk, epoch, x');
    RecoversIntercept(p.field, sk, Compress2(p, sk, epoch), ShareOf(Published(p, w, epoch, x)),
        ShareOf(Published(p, w, epoch, x')));
    BuiltRoot(p, w, epoch, x);
    BuiltRoot(p, w, epoch, x');
  }
}
