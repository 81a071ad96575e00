/**
 Threshold Schnorr signing, FROST as in RFC 9591 (crates/mpc/src/frost.rs). The two hashes to scalars are
 uninterpreted.
 */
module Frost {
  import opened Wrappers
  import opened Algebra
  import opened Lagrange
  import opened Curve
  import opened Permuted
  import opened Threshold

  datatype SigningCommitment<P> = SigningCommitment(id: ParticipantId, hiding: P, binding: P)

  datatype Nonces<S> = Nonces(hiding: S, binding: S)

  datatype Signature<S, P> = Signature(r: P, z: S)

  /**
   The curve with the binding-factor hash, over the group key, the message, the
   encoded commitment list and an id, and the challenge hash.
   */
  datatype Suite<!S(!new), !P(!new), !M> =
    Suite(curve: Curve<S, P>, rho: (P, M, seq<SigningCommitment<P>>, ParticipantId) -> S, chal: (P, P, M) -> S)

  // ----- the encoded commitment list -----

  function Insert<P(!new)>(s: seq<SigningCommitment<P>>, x: SigningCommitment<P>): (r: seq<SigningCommitment<P>>)
    ensures multiset(r) == multiset(s) + multiset{x}
    ensures forall y :: y in r <==> y in s || y == x
  {
    if s == [] || s[|s| - 1].id <= x.id then s + [x]
    else
      var n := |s| - 1;
      assert s == s[..n] + [s[n]];
      Insert(s[..n], x) + [s[n]]
  }

  /** The commitments in the order of their participants. */
  function SortById<P(!new)>(s: seq<SigningCommitment<P>>): (r: seq<SigningCommitment<P>>)
    ensures multiset(r) == multiset(s)
    ensures forall y :: y in r <==> y in s
  {
    if s == [] then []
    else
      assert s == s[..|s| - 1] + [s[|s| - 1]];
      Insert(SortById(s[..|s| - 1]), s[|s| - 1])
  }

  ghost predicate DistinctSigners<P>(s: seq<SigningCommitment<P>>) {
    forall i, j :: 0 <= i < j < |s| ==> s[i].id != s[j].id
  }

  ghost predicate Ordered<P>(s: seq<SigningCommitment<P>>) {
    forall i, j :: 0 <= i < j < |s| ==> s[i].id < s[j].id
  }

  lemma {:induction false} FromMultiset<T>(s: seq<T>, x: T)
    ensures x in multiset(s) <==> x in s
  {
  }

  lemma {:induction false} InsertOrdered<P(!new)>(s: seq<SigningCommitment<P>>, x: SigningCommitment<P>)
    requires Ordered(s) && forall y :: y in s ==> y.id != x.id
    ensures Ordered(Insert(s, x))
    decreases |s|
  {
    if s != [] && s[|s| - 1].id > x.id {
      var n := |s| - 1;
      InsertOrdered(s[..n], x);
      assert forall y :: y in Insert(s[..n], x) ==> y.id < s[n].id;
    }
  }

  lemma {:induction false} SortOrdered<P(!new)>(s: seq<SigningCommitment<P>>)
    requires DistinctSigners(s)
    ensures Ordered(SortById(s))
    decreases |s|
  {
    if s != [] {
      var n := |s| - 1;
      SortOrdered(s[..n]);
      InsertOrdered(SortById(s[..n]), s[n]);
    }
  }

  lemma {:induction false} OrderedUnique<P(!new)>(s: seq<SigningCommitment<P>>, t: seq<SigningCommitment<P>>)
    requires Ordered(s) && Ordered(t) && SameElements(s, t)
    ensures s == t
    decreases |s|
  {
    SameLength(s, t);
    if s != [] {
      SameHeads(s, t);
      SameTails(s, t);
      OrderedUnique(s[1..], t[1..]);
      assert s == [s[0]] + s[1..] && t == [t[0]] + t[1..];
    }
  }

  lemma {:induction false} SameHeads<P(!new)>(s: seq<SigningCommitment<P>>, t: seq<SigningCommitment<P>>)
    requires Ordered(s) && Ordered(t) && SameElements(s, t) && s != [] && t != []
    ensures s[0] == t[0]
  {
    assert s[0] in multiset(s) && t[0] in multiset(t);
    FromMultiset(t, s[0]);
    FromMultiset(s, t[0]);
  }

  /** The encoded list, hence every binding factor, does not depend on the order the commitments arrived in. */
  lemma {:induction false} SortPermuted<P(!new)>(s: seq<SigningCommitment<P>>, t: seq<SigningCommitment<P>>)
    requires DistinctSigners(s) && DistinctSigners(t) && SameElements(s, t)
    ensures SortById(s) == SortById(t)
  {
    SortOrdered(s);
    SortOrdered(t);
    OrderedUnique(SortById(s), SortById(t));
  }

  // ----- signing and verification -----

  function BindingFactor<S(!new), P(!new), M>(u: Suite<S, P, M>, id: ParticipantId, key: P, message: M,
      commitments: seq<SigningCommitment<P>>): S {
    u.rho(key, message, SortById(commitments), id)
  }

  /** What one signer adds to the group commitment. */
  function Contribution<S(!new), P(!new), M>(u: Suite<S, P, M>, key: P, message: M,
      commitments: seq<SigningCommitment<P>>, x: SigningCommitment<P>): P {
    u.curve.plus(x.hiding, u.curve.times(BindingFactor(u, x.id, key, message, commitments), x.binding))
  }

  function CommitmentOver<S(!new), P(!new), M>(
      u: Suite<S, P, M>, key: P, message: M, commitments: seq<SigningCommitment<P>>, some: seq<SigningCommitment<P>>): P
  {
    if some == [] then u.curve.origin
    else
      var x := some[|some| - 1];
      u.curve.plus(u.curve.plus(CommitmentOver(u, key, message, commitments, some[..|some| - 1]), x.hiding),
                   u.curve.times(BindingFactor(u, x.id, key, message, commitments), x.binding))
  }

  function GroupCommitment<S(!new), P(!new), M>(u: Suite<S, P, M>, key: P, message: M,
      commitments: seq<SigningCommitment<P>>): P {
    CommitmentOver(u, key, message, commitments, commitments)
  }

  function Challenge<S(!new), P(!new), M>(u: Suite<S, P, M>, key: P, message: M,
      commitments: seq<SigningCommitment<P>>): S {
    u.chal(GroupCommitment(u, key, message, commitments), key, message)
  }

  function Round1Commit<S(!new), P(!new), M>(u: Suite<S, P, M>, id: ParticipantId,
      nonces: Nonces<S>): SigningCommitment<P> {
    SigningCommitment(id, u.curve.times(nonces.hiding, u.curve.base), u.curve.times(nonces.binding, u.curve.base))
  }

  function Round2Sign<S(==, !new), P(!new), M>(
      u: Suite<S, P, M>, share: KeyShare<S, P>, nonces: Nonces<S>, message: M, signers: seq<ParticipantId>,
          commitments: seq<SigningCommitment<P>>): S
  {
    var f := u.curve.field;
    f.add(f.add(nonces.hiding, f.mul(BindingFactor(u, share.id, share.groupKey, message, commitments), nonces.binding)),
          f.mul(f.mul(LagrangeAtZero(u.curve, share.id, signers), share.secret),
              Challenge(u, share.groupKey, message, commitments)))
  }

  /** The first commitment published under an id. */
  function Find<P>(commitments: seq<SigningCommitment<P>>, id: ParticipantId): (r: Option<SigningCommitment<P>>)
    ensures r.None? ==> forall k :: 0 <= k < |commitments| ==> commitments[k].id != id
    ensures r.Some? ==> exists k :: 0 <= k < |commitments| && commitments[k] == r.value && r.value.id == id &&
                                    forall j :: 0 <= j < k ==> commitments[j].id != id
  {
    if commitments == [] then None
    else if commitments[0].id == id then Some(commitments[0])
    else
      var rest := Find(commitments[1..], id);
      assert rest.None? ==> forall k :: 1 <= k < |commitments| ==> commitments[k].id == commitments[1..][k - 1].id;
      assert rest.Some? ==> exists k :: 0 <= k < |commitments| && commitments[k] == rest.value && rest.value.id == id &&
                                        forall j :: 0 <= j < k ==> commitments[j].id != id by {
        if rest.Some? {
          var k :| 0 <= k < |commitments[1..]| && commitments[1..][k] == rest.value
                   && forall j :: 0 <= j < k ==> commitments[1..][j].id != id;
          assert commitments[k + 1] == rest.value;
          assert forall j :: 1 <= j < k + 1 ==> commitments[j].id == commitments[1..][j - 1].id;
        }
      }
      rest
  }

  function ExpectedPoint<S(==, !new), P(!new), M>(
      u: Suite<S, P, M>, verificationShare: P, mine: SigningCommitment<P>, message: M, signers: seq<ParticipantId>,
      commitments: seq<SigningCommitment<P>>, key: P): P
  {
    u.curve.plus(Contribution(u, key, message, commitments, mine),
                 u.curve.times(u.curve.field.mul(LagrangeAtZero(u.curve, mine.id, signers),
                     Challenge(u, key, message, commitments)), verificationShare))
  }

  predicate VerifySignatureShare<S(==, !new), P(==, !new), M>(
      u: Suite<S, P, M>, id: ParticipantId, verificationShare: P, z: S, message: M, signers: seq<ParticipantId>,
      commitments: seq<SigningCommitment<P>>, key: P)
  {
    match Find(commitments, id)
    case None => false
    case Some(mine) => u.curve.times(z, u.curve.base)
                       == ExpectedPoint(u, verificationShare, mine, message, signers, commitments, key)
  }

  function Scalars<S>(shares: seq<(ParticipantId, S)>): (r: seq<S>)
    ensures |r| == |shares| && forall k :: 0 <= k < |r| ==> r[k] == shares[k].1
  {
    seq(|shares|, k requires 0 <= k < |shares| => shares[k].1)
  }

  function Aggregate<S(!new), P(!new), M>(
      u: Suite<S, P, M>, key: P, message: M, commitments: seq<SigningCommitment<P>>,
          shares: seq<(ParticipantId, S)>): Signature<S, P>
  {
    Signature(GroupCommitment(u, key, message, commitments), Sum(u.curve.field, Scalars(shares)))
  }

  predicate Verify<S(==, !new), P(==, !new), M>(u: Suite<S, P, M>, signature: Signature<S, P>, key: P, message: M) {
    u.curve.times(signature.z, u.curve.base)
        == u.curve.plus(signature.r, u.curve.times(u.chal(signature.r, key, message), key))
  }

  // ----- one share -----

  /** In a list without repeated signers every commitment is the one found under its id. */
  lemma {:induction false} FindUnique<P>(commitments: seq<SigningCommitment<P>>, x: SigningCommitment<P>)
    requires DistinctSigners(commitments) && x in commitments
    ensures Find(commitments, x.id) == Some(x)
  {
    var i :| 0 <= i < |commitments| && commitments[i] == x;
    var r := Find(commitments, x.id);
    var k :| 0 <= k < |commitments| && commitments[k] == r.value && r.value.id == x.id;
    assert i == k;
  }

  /** What an honest signer computes is the expected point's logarithm. */
  lemma {:induction false} SignedPoint<S(!new), P(!new), M>(
      u: Suite<S, P, M>, share: KeyShare<S, P>, nonces: Nonces<S>, message: M, signers: seq<ParticipantId>,
          commitments: seq<SigningCommitment<P>>)
    requires u.curve.Laws()
    ensures u.curve.times(Round2Sign(u, share, nonces, message, signers, commitments), u.curve.base)
            == ExpectedPoint(u, u.curve.times(share.secret, u.curve.base), Round1Commit(u, share.id, nonces), message,
                signers, commitments, share.groupKey)
  {
    var c, f := u.curve, u.curve.field;
    var rho, lambda := BindingFactor(u, share.id, share.groupKey, message, commitments),
        LagrangeAtZero(c, share.id, signers);
    var chal := Challenge(u, share.groupKey, message, commitments);
    c.TimesAdd(f.add(nonces.hiding, f.mul(rho, nonces.binding)), f.mul(f.mul(lambda, share.secret), chal), c.base);
    c.TimesAdd(nonces.hiding, f.mul(rho, nonces.binding), c.base);
    c.TimesMul(rho, nonces.binding, c.base);
    SwapFactors(f, lambda, share.secret, chal);
    c.TimesMul(f.mul(lambda, chal), share.secret, c.base);
  }

  /** A signature share is accepted exactly when it is the one its signer would honestly have computed. */
  lemma {:induction false} ShareAcceptedExactly<S(!new), P(!new), M>(
      u: Suite<S, P, M>, share: KeyShare<S, P>, nonces: Nonces<S>, z: S, message: M, signers: seq<ParticipantId>,
          commitments: seq<SigningCommitment<P>>)
    requires u.curve.Laws() && DistinctSigners(commitments) && Round1Commit(u, share.id, nonces) in commitments
    ensures VerifySignatureShare(u, share.id, u.curve.times(share.secret, u.curve.base), z, message, signers,
            commitments, share.groupKey)
            <==> z == Round2Sign(u, share, nonces, message, signers, commitments)
  {
    FindUnique(commitments, Round1Commit(u, share.id, nonces));
    SignedPoint(u, share, nonces, message, signers, commitments);
    var honest := Round2Sign(u, share, nonces, message, signers, commitments);
    if u.curve.times(z, u.curve.base) == u.curve.times(honest, u.curve.base) {
      u.curve.BaseFaithful(z, honest);
    }
  }

  // ----- the order of the lists does not matter -----

  lemma {:induction false} CommitmentWithout<S(!new), P(!new), M>(
      u: Suite<S, P, M>, key: P, message: M, commitments: seq<SigningCommitment<P>>, some: seq<SigningCommitment<P>>,
          i: nat)
    requires u.curve.Laws() && i < |some|
    ensures CommitmentOver(u, key, message, commitments, some)
            == u.curve.plus(CommitmentOver(u, key, message, commitments, Without(some, i)),
                Contribution(u, key, message, commitments, some[i]))
    decreases |some|
  {
    var n := |some| - 1;
    var before, last := CommitmentOver(u, key, message, commitments, some[..n]),
        Contribution(u, key, message, commitments, some[n]);
    u.curve.PlusAssoc(before, some[n].hiding,
        u.curve.times(BindingFactor(u, some[n].id, key, message, commitments), some[n].binding));
    if i == n {
      assert Without(some, i) == some[..n];
    } else {
      CommitmentWithout(u, key, message, commitments, some[..n], i);
      assert Without(some, i)[..n - 1] == Without(some[..n], i) && Without(some, i)[n - 1] == some[n];
      var rest, mine := CommitmentOver(u, key, message, commitments, Without(some[..n], i)),
          Contribution(u, key, message, commitments, some[i]);
      u.curve.PlusAssoc(rest, some[n].hiding,
          u.curve.times(BindingFactor(u, some[n].id, key, message, commitments), some[n].binding));
      u.curve.PlusAssoc(rest, mine, last);
      u.curve.PlusComm(mine, last);
      u.curve.PlusAssoc(rest, last, mine);
    }
  }

  lemma {:induction false} CommitmentPermuted<S(!new), P(!new), M>(
      u: Suite<S, P, M>, key: P, message: M, commitments: seq<SigningCommitment<P>>, s: seq<SigningCommitment<P>>,
          t: seq<SigningCommitment<P>>)
    requires u.curve.Laws() && SameElements(s, t)
    ensures CommitmentOver(u, key, message, commitments, s) == CommitmentOver(u, key, message, commitments, t)
    decreases |t|
  {
    SameLength(s, t);
    if t != [] {
      var i := MatchLast(s, t);
      CommitmentPermuted(u, key, message, commitments, Without(s, i), t[..|t| - 1]);
      CommitmentWithout(u, key, message, commitments, s, i);
      CommitmentWithout(u, key, message, commitments, t, |t| - 1);
      assert Without(t, |t| - 1) == t[..|t| - 1];
    }
  }

  lemma {:induction false} CommitmentRelisted<S(!new), P(!new), M>(
      u: Suite<S, P, M>, key: P, message: M, s: seq<SigningCommitment<P>>, t: seq<SigningCommitment<P>>,
          some: seq<SigningCommitment<P>>)
    requires SortById(s) == SortById(t)
    ensures CommitmentOver(u, key, message, s, some) == CommitmentOver(u, key, message, t, some)
    decreases |some|
  {
    if some != [] {
      CommitmentRelisted(u, key, message, s, t, some[..|some| - 1]);
    }
  }

  lemma {:induction false} PointsWithout<S(!new), P(!new)>(c: Curve<S, P>, s: seq<ParticipantId>, i: nat)
    requires i < |s|
    ensures multiset(Points(c, s)) == multiset(Points(c, Without(s, i))) + multiset{c.scalarOfId(s[i])}
  {
    assert Points(c, Without(s, i)) == Without(Points(c, s), i);
    SplitAt(Points(c, s), i);
  }

  lemma {:induction false} PointsPermuted<S(!new), P(!new)>(c: Curve<S, P>, s: seq<ParticipantId>,
      t: seq<ParticipantId>)
    requires SameElements(s, t)
    ensures SameElements(Points(c, s), Points(c, t))
    decreases |t|
  {
    SameLength(s, t);
    if t != [] {
      var n := |t| - 1;
      var i := MatchLast(s, t);
      PointsPermuted(c, Without(s, i), t[..n]);
      PointsWithout(c, s, i);
      PointsWithout(c, t, n);
      assert Without(t, n) == t[..n];
    }
  }

  /** Signers and aggregator may list the commitments and the quorum in any order and still sign the same thing. */
  lemma {:induction false} OrderIrrelevant<S(!new), P(!new), M>(
      u: Suite<S, P, M>, share: KeyShare<S, P>, nonces: Nonces<S>, message: M,
      signers: seq<ParticipantId>, signers': seq<ParticipantId>,
      commitments: seq<SigningCommitment<P>>, commitments': seq<SigningCommitment<P>>)
    requires u.curve.Laws() && DistinctSigners(commitments) && DistinctSigners(commitments')
    requires SameElements(signers, signers') && SameElements(commitments, commitments')
    ensures Round2Sign(u, share, nonces, message, signers, commitments)
            == Round2Sign(u, share, nonces, message, signers', commitments')
    ensures forall shares: seq<(ParticipantId, S)> ::
              Aggregate(u, share.groupKey, message, commitments, shares)
                  == Aggregate(u, share.groupKey, message, commitments', shares)
  {
    SortPermuted(commitments, commitments');
    CommitmentPermuted(u, share.groupKey, message, commitments, commitments, commitments');
    CommitmentRelisted(u, share.groupKey, message, commitments, commitments', commitments');
    PointsPermuted(u.curve, signers, signers');
    CoefficientPermuted(u.curve.field, u.curve.scalarOfId(share.id), Points(u.curve, signers),
        Points(u.curve, signers'));
  }

  // ----- the aggregate -----

  /** Every share is accepted against the public share of its signer on one polynomial. */
  ghost predicate AllPass<S(!new), P(!new), M>(
      u: Suite<S, P, M>, poly: seq<S>, shares: seq<(ParticipantId, S)>, message: M, signers: seq<ParticipantId>,
      commitments: seq<SigningCommitment<P>>, key: P)
  {
    forall k :: 0 <= k < |shares| ==>
      VerifySignatureShare(u, shares[k].0,
          u.curve.times(Eval(u.curve.field, poly, u.curve.scalarOfId(shares[k].0)), u.curve.base),
                           shares[k].1, message, signers, commitments, key)
  }

  /** `some` is, in some order, the list of commitments of the given ids. */
  ghost predicate CommitmentsOf<P>(some: seq<SigningCommitment<P>>, ids: seq<ParticipantId>) {
    && DistinctSigners(some)
    && (forall x :: x in some ==> x.id in ids)
    && (forall id :: id in ids ==> exists k :: 0 <= k < |some| && some[k].id == id)
  }

  lemma {:induction false} TakeLast<P>(some: seq<SigningCommitment<P>>, ids: seq<ParticipantId>) returns (i: nat)
    requires CommitmentsOf(some, ids) && ids != [] && DistinctIds(ids)
    ensures i < |some| && some[i].id == ids[|ids| - 1] && CommitmentsOf(Without(some, i), ids[..|ids| - 1])
    ensures forall x :: x in Without(some, i) ==> x in some
  {
    var n := |ids| - 1;
    assert ids[n] in ids;
    i :| 0 <= i < |some| && some[i].id == ids[n];
    forall x | x in Without(some, i)
      ensures x in some && x.id in ids[..n]
    {
      LeftOver(some, ids, i, x);
    }
    forall id | id in ids[..n]
      ensures exists k :: 0 <= k < |Without(some, i)| && Without(some, i)[k].id == id
    {
      var k := StillThere(some, ids, i, id);
    }
  }

  lemma {:induction false} LeftOver<P>(some: seq<SigningCommitment<P>>, ids: seq<ParticipantId>, i: nat,
      x: SigningCommitment<P>)
    requires CommitmentsOf(some, ids) && ids != [] && DistinctIds(ids)
    requires i < |some| && some[i].id == ids[|ids| - 1] && x in Without(some, i)
    ensures x in some && x.id in ids[..|ids| - 1]
  {
    var k :| 0 <= k < |some| - 1 && Without(some, i)[k] == x;
    var j := if k < i then k else k + 1;
    assert some[j] == x;
    InRest(ids, x.id);
  }

  lemma {:induction false} StillThere<P>(some: seq<SigningCommitment<P>>, ids: seq<ParticipantId>, i: nat,
      id: ParticipantId) returns (k: nat)
    requires CommitmentsOf(some, ids) && ids != [] && DistinctIds(ids)
    requires i < |some| && some[i].id == ids[|ids| - 1] && id in ids[..|ids| - 1]
    ensures k < |Without(some, i)| && Without(some, i)[k].id == id
  {
    InRest(ids, id);
    var j :| 0 <= j < |some| && some[j].id == id;
    k := if j < i then j else j - 1;
  }

  lemma {:induction false} InRest(ids: seq<ParticipantId>, id: ParticipantId)
    requires ids != [] && DistinctIds(ids)
    ensures id in ids[..|ids| - 1] <==> id in ids && id != ids[|ids| - 1]
  {
  }

  /** One accepted share's point, with the secret's part as a multiple of the base point. */
  lemma {:induction false} AcceptedPoint<S(!new), P(!new), M>(
      u: Suite<S, P, M>, value: S, mine: SigningCommitment<P>, z: S, message: M, signers: seq<ParticipantId>,
      commitments: seq<SigningCommitment<P>>, key: P)
    requires u.curve.Laws() && DistinctSigners(commitments) && mine in commitments
    requires VerifySignatureShare(u, mine.id, u.curve.times(value, u.curve.base), z, message, signers, commitments, key)
    ensures u.curve.times(z, u.curve.base)
            == u.curve.plus(Contribution(u, key, message, commitments, mine),
                            u.curve.times(u.curve.field.mul(Challenge(u, key, message, commitments),
                                                            u.curve.field.mul(LagrangeAtZero(u.curve, mine.id,
                                                                signers), value)), u.curve.base))
  {
    var c, f := u.curve, u.curve.field;
    var lambda, chal := LagrangeAtZero(c, mine.id, signers), Challenge(u, key, message, commitments);
    FindUnique(commitments, mine);
    c.TimesMul(f.mul(lambda, chal), value, c.base);
    f.MulComm(lambda, chal);
    f.MulAssoc(chal, lambda, value);
  }

  /** A running total of shares, of the contributions `some` and of the weighted values of the polynomial. */
  ghost predicate TotalIs<S(!new), P(!new), M>(
      u: Suite<S, P, M>, poly: seq<S>, shares: seq<(ParticipantId, S)>, some: seq<SigningCommitment<P>>, message: M,
      signers: seq<ParticipantId>, commitments: seq<SigningCommitment<P>>, key: P)
  {
    u.curve.times(Sum(u.curve.field, Scalars(shares)), u.curve.base)
    == u.curve.plus(CommitmentOver(u, key, message, commitments, some),
                    u.curve.times(u.curve.field.mul(Challenge(u, key, message, commitments),
                                                    QuorumValue(u.curve, poly, signers, Ids(shares))), u.curve.base))
  }

  /** The sum of accepted shares commits to the sum of the contributions and the weighted secret. */
  lemma {:induction false} SharesTotal<S(!new), P(!new), M>(
      u: Suite<S, P, M>, poly: seq<S>, shares: seq<(ParticipantId, S)>, some: seq<SigningCommitment<P>>, message: M,
      signers: seq<ParticipantId>, commitments: seq<SigningCommitment<P>>, key: P)
    requires u.curve.Laws() && DistinctSigners(commitments) && DistinctIds(Ids(shares))
    requires AllPass(u, poly, shares, message, signers, commitments, key)
    requires CommitmentsOf(some, Ids(shares)) && forall x :: x in some ==> x in commitments
    ensures TotalIs(u, poly, shares, some, message, signers, commitments, key)
    decreases |shares|
  {
    if shares == [] {
      forall x ensures x !in multiset(some) { FromMultiset(some, x); }
      assert |multiset(some)| == |some|;
      assert some == [];
      u.curve.PlusOrigin(u.curve.origin);
      u.curve.field.MulZero(Challenge(u, key, message, commitments));
      u.curve.TimesUnits(u.curve.field.zero, u.curve.base);
    } else {
      var n := |shares| - 1;
      assert Ids(shares[..n]) == Ids(shares)[..n];
      var i := TakeLast(some, Ids(shares));
      SharesTotal(u, poly, shares[..n], Without(some, i), message, signers, commitments, key);
      assert some[i] in some;
      TotalSnoc(u, poly, shares, some, i, message, signers, commitments, key);
    }
  }

  lemma {:induction false} TotalSnoc<S(!new), P(!new), M>(
      u: Suite<S, P, M>, poly: seq<S>, shares: seq<(ParticipantId, S)>, some: seq<SigningCommitment<P>>, i: nat,
          message: M,
      signers: seq<ParticipantId>, commitments: seq<SigningCommitment<P>>, key: P)
    requires u.curve.Laws() && DistinctSigners(commitments) && shares != [] && i < |some| && some[i] in commitments
    requires some[i].id == shares[|shares| - 1].0
    requires AllPass(u, poly, shares, message, signers, commitments, key)
    requires TotalIs(u, poly, shares[..|shares| - 1], Without(some, i), message, signers, commitments, key)
    ensures TotalIs(u, poly, shares, some, message, signers, commitments, key)
  {
    var c, f := u.curve, u.curve.field;
    var n := |shares| - 1;
    var ids := Ids(shares);
    assert Ids(shares[..n]) == ids[..n];
    var value := Eval(f, poly, c.scalarOfId(ids[n]));
    CommitmentWithout(u, key, message, commitments, some, i);
    AcceptedPoint(u, value, some[i], shares[n].1, message, signers, commitments, key);
    assert Scalars(shares)[..n] == Scalars(shares[..n]) && Scalars(shares)[n] == shares[n].1;
    QuorumValueSnoc(c, poly, signers, ids);
    TotalStep(c, Challenge(u, key, message, commitments), Sum(f, Scalars(shares[..n])), shares[n].1,
              CommitmentOver(u, key, message, commitments, Without(some, i)), QuorumValue(c, poly, signers, ids[..n]),
              Contribution(u, key, message, commitments, some[i]), f.mul(LagrangeAtZero(c, ids[n], signers), value));
  }

  /** Adding one more share to a running total. */
  lemma {:induction false} TotalStep<S(!new), P(!new)>(c: Curve<S, P>, chal: S, sum: S, z: S, contributed: P,
      before: S, contribution: P, mine: S)
    requires c.Laws()
    requires c.times(sum, c.base) == c.plus(contributed, c.times(c.field.mul(chal, before), c.base))
    requires c.times(z, c.base) == c.plus(contribution, c.times(c.field.mul(chal, mine), c.base))
    ensures c.times(c.field.add(sum, z), c.base)
            == c.plus(c.plus(contributed, contribution), c.times(c.field.mul(chal, c.field.add(before, mine)), c.base))
  {
    var f := c.field;
    c.TimesAdd(sum, z, c.base);
    c.PlusSwap(contributed, c.times(f.mul(chal, before), c.base), contribution, c.times(f.mul(chal, mine), c.base));
    c.TimesAdd(f.mul(chal, before), f.mul(chal, mine), c.base);
    f.Distribute(chal, before, mine);
  }

  /** The Lagrange-weighted values of one polynomial at `ids`, with coefficients relative to `signers`. */
  function QuorumValue<S(==, !new), P(!new)>(c: Curve<S, P>, poly: seq<S>, signers: seq<ParticipantId>,
      ids: seq<ParticipantId>): S {
    Weighted(c.field, Points(c, signers), Points(c, ids), EvalAll(c.field, poly, Points(c, ids)))
  }

  lemma {:induction false} QuorumValueSnoc<S(!new), P(!new)>(c: Curve<S, P>, poly: seq<S>,
      signers: seq<ParticipantId>, ids: seq<ParticipantId>)
    requires ids != []
    ensures var n := |ids| - 1;
            QuorumValue(c, poly, signers, ids)
            == c.field.add(QuorumValue(c, poly, signers, ids[..n]),
                           c.field.mul(LagrangeAtZero(c, ids[n], signers), Eval(c.field, poly, c.scalarOfId(ids[n]))))
  {
    var n := |ids| - 1;
    assert Points(c, ids)[..n] == Points(c, ids[..n]);
    assert EvalAll(c.field, poly, Points(c, ids))[..n] == EvalAll(c.field, poly, Points(c, ids[..n]));
  }

  /** Any listing of a large enough quorum interpolates to the secret. */
  lemma {:induction false} QuorumValueIs<S(!new), P(!new)>(c: Curve<S, P>, poly: seq<S>, signers: seq<ParticipantId>,
      ids: seq<ParticipantId>)
    requires c.Laws() && DistinctIds(ids) && |poly| <= |ids| && SameElements(signers, ids)
    ensures QuorumValue(c, poly, signers, ids) == Eval(c.field, poly, c.field.zero)
  {
    PointsPermuted(c, signers, ids);
    WeightedPermuted(c.field, Points(c, signers), Points(c, ids), Points(c, ids),
        EvalAll(c.field, poly, Points(c, ids)));
    QuorumInterpolates(c, poly, ids);
  }

  /**
   If every share of a large enough quorum passes its check, the aggregate is an ordinary valid signature
   under the group key.
   */
  lemma {:induction false} PassingSharesAggregate<S(!new), P(!new), M>(
      u: Suite<S, P, M>, poly: seq<S>, shares: seq<(ParticipantId, S)>, message: M, signers: seq<ParticipantId>,
      commitments: seq<SigningCommitment<P>>, key: P)
    requires u.curve.Laws() && DistinctIds(Ids(shares)) && |poly| <= |shares|
    requires key == u.curve.times(Eval(u.curve.field, poly, u.curve.field.zero), u.curve.base)
    requires SameElements(signers, Ids(shares)) && CommitmentsOf(commitments, Ids(shares))
    requires AllPass(u, poly, shares, message, signers, commitments, key)
    ensures Verify(u, Aggregate(u, key, message, commitments, shares), key, message)
  {
    SharesTotal(u, poly, shares, commitments, message, signers, commitments, key);
    QuorumValueIs(u.curve, poly, signers, Ids(shares));
    u.curve.TimesMul(Challenge(u, key, message, commitments), Eval(u.curve.field, poly, u.curve.field.zero),
        u.curve.base);
  }

  /**
   Beside one valid list of shares, another list aggregates to a valid signature exactly when its total is the
   same.
   */
  lemma {:induction false} AggregateVerifiesExactly<S(!new), P(!new), M>(
      u: Suite<S, P, M>, key: P, message: M, commitments: seq<SigningCommitment<P>>, valid: seq<(ParticipantId, S)>,
          shares: seq<(ParticipantId, S)>)
    requires u.curve.Laws() && Verify(u, Aggregate(u, key, message, commitments, valid), key, message)
    ensures Verify(u, Aggregate(u, key, message, commitments, shares), key, message)
            <==> Sum(u.curve.field, Scalars(shares)) == Sum(u.curve.field, Scalars(valid))
  {
    if Verify(u, Aggregate(u, key, message, commitments, shares), key, message) {
      u.curve.BaseFaithful(Sum(u.curve.field, Scalars(shares)), Sum(u.curve.field, Scalars(valid)));
    }
  }

  lemma {:induction false} SumDiffersAt<S(!new)>(f: Field<S>, s: seq<S>, t: seq<S>, i: nat)
    requires f.Laws() && |s| == |t| && i < |s| && s[i] != t[i] && forall k :: 0 <= k < |s| && k != i ==> s[k] == t[k]
    ensures Sum(f, s) != Sum(f, t)
    decreases |s|
  {
    var n := |s| - 1;
    if i == n {
      assert s[..n] == t[..n];
      if Sum(f, s) == Sum(f, t) {
        f.AddComm(Sum(f, s[..n]), s[n]);
        f.AddComm(Sum(f, t[..n]), t[n]);
        f.AddCancel(s[n], t[n], Sum(f, s[..n]));
      }
    } else {
      SumDiffersAt(f, s[..n], t[..n], i);
      if Sum(f, s) == Sum(f, t) {
        f.AddCancel(Sum(f, s[..n]), Sum(f, t[..n]), s[n]);
      }
    }
  }

  /** One wrong share among otherwise valid ones always spoils the signature. */
  lemma {:induction false} OneBadShareSpoils<S(!new), P(!new), M>(
      u: Suite<S, P, M>, key: P, message: M, commitments: seq<SigningCommitment<P>>, valid: seq<(ParticipantId, S)>,
          i: nat, z: S)
    requires u.curve.Laws() && Verify(u, Aggregate(u, key, message, commitments, valid), key, message)
    requires i < |valid| && z != valid[i].1
    ensures !Verify(u, Aggregate(u, key, message, commitments, valid[i := (valid[i].0, z)]), key, message)
  {
    var shares := valid[i := (valid[i].0, z)];
    AggregateVerifiesExactly(u, key, message, commitments, valid, shares);
    SumDiffersAt(u.curve.field, Scalars(shares), Scalars(valid), i);
  }

  // ----- whole sessions -----

  /** The round-1 commitments of a quorum. */
  function Round1<S(!new), P(!new), M>(u: Suite<S, P, M>, quorum: seq<KeyShare<S, P>>,
      nonces: seq<Nonces<S>>): (r: seq<SigningCommitment<P>>)
    requires |quorum| == |nonces|
    ensures |r| == |quorum| && forall k :: 0 <= k < |r| ==> r[k] == Round1Commit(u, quorum[k].id, nonces[k])
  {
    seq(|quorum|, k requires 0 <= k < |quorum| => Round1Commit(u, quorum[k].id, nonces[k]))
  }

  /** The round-2 shares of a quorum. */
  function Round2<S(==, !new), P(!new), M>(
      u: Suite<S, P, M>, quorum: seq<KeyShare<S, P>>, nonces: seq<Nonces<S>>, message: M, signers: seq<ParticipantId>,
      commitments: seq<SigningCommitment<P>>): (r: seq<(ParticipantId, S)>)
    requires |quorum| == |nonces|
    ensures |r| == |quorum|
    ensures forall k :: 0 <= k < |r|
                ==> r[k] == (quorum[k].id, Round2Sign(u, quorum[k], nonces[k], message, signers, commitments))
  {
    seq(|quorum|, k requires 0 <= k < |quorum| => (quorum[k].id,
        Round2Sign(u, quorum[k], nonces[k], message, signers, commitments)))
  }

  function MemberIds<S, P>(quorum: seq<KeyShare<S, P>>): (r: seq<ParticipantId>)
    ensures |r| == |quorum| && forall k :: 0 <= k < |r| ==> r[k] == quorum[k].id
  {
    seq(|quorum|, k requires 0 <= k < |quorum| => quorum[k].id)
  }

  lemma {:induction false} Round1Of<S(!new), P(!new), M>(u: Suite<S, P, M>, quorum: seq<KeyShare<S, P>>,
      nonces: seq<Nonces<S>>)
    requires |quorum| == |nonces| && DistinctIds(MemberIds(quorum))
    ensures CommitmentsOf(Round1(u, quorum, nonces), MemberIds(quorum))
  {
    var signers, commitments := MemberIds(quorum), Round1(u, quorum, nonces);
    assert forall k :: 0 <= k < |quorum| ==> commitments[k].id == signers[k];
  }

  lemma {:induction false} HonestSharePasses<S(!new), P(!new), M>(
      u: Suite<S, P, M>, poly: seq<S>, share: KeyShare<S, P>, nonces: Nonces<S>, message: M,
          signers: seq<ParticipantId>,
      commitments: seq<SigningCommitment<P>>, mine: SigningCommitment<P>, key: P)
    requires u.curve.Laws() && DistinctSigners(commitments) && mine in commitments
             && mine == Round1Commit(u, share.id, nonces)
    requires OnPolynomial(u.curve, poly, share) && share.groupKey == key
    ensures VerifySignatureShare(u, share.id,
            u.curve.times(Eval(u.curve.field, poly, u.curve.scalarOfId(share.id)), u.curve.base),
                                 Round2Sign(u, share, nonces, message, signers, commitments), message, signers,
                                     commitments, key)
  {
    ShareAcceptedExactly(u, share, nonces, Round2Sign(u, share, nonces, message, signers, commitments), message,
        signers, commitments);
  }

  lemma {:induction false} HonestSharesPass<S(!new), P(!new), M>(
      u: Suite<S, P, M>, poly: seq<S>, quorum: seq<KeyShare<S, P>>, nonces: seq<Nonces<S>>, message: M,
          signers: seq<ParticipantId>,
      commitments: seq<SigningCommitment<P>>, shares: seq<(ParticipantId, S)>, key: P)
    requires u.curve.Laws() && |quorum| == |nonces| && DistinctSigners(commitments)
    requires forall k :: 0 <= k < |quorum| ==> OnPolynomial(u.curve, poly, quorum[k]) && quorum[k].groupKey == key
    requires commitments == Round1(u, quorum, nonces)
             && shares == Round2(u, quorum, nonces, message, signers, commitments)
    ensures AllPass(u, poly, shares, message, signers, commitments, key)
  {
    forall k | 0 <= k < |shares|
      ensures VerifySignatureShare(u, shares[k].0,
              u.curve.times(Eval(u.curve.field, poly, u.curve.scalarOfId(shares[k].0)), u.curve.base),
                                   shares[k].1, message, signers, commitments, key)
    {
      HonestSharePasses(u, poly, quorum[k], nonces[k], message, signers, commitments, commitments[k], key);
    }
  }

  /** On one polynomial, a large enough quorum's honest shares all pass and aggregate to a valid signature. */
  lemma {:induction false} HonestQuorumSigns<S(!new), P(!new), M>(
      u: Suite<S, P, M>, poly: seq<S>, quorum: seq<KeyShare<S, P>>, nonces: seq<Nonces<S>>, message: M,
          signers: seq<ParticipantId>,
      commitments: seq<SigningCommitment<P>>, shares: seq<(ParticipantId, S)>, key: P)
    requires u.curve.Laws() && |quorum| == |nonces| && |poly| <= |quorum| && DistinctIds(MemberIds(quorum))
    requires key == u.curve.times(Eval(u.curve.field, poly, u.curve.field.zero), u.curve.base)
    requires forall k :: 0 <= k < |quorum| ==> OnPolynomial(u.curve, poly, quorum[k])
    requires signers == MemberIds(quorum) && commitments == Round1(u, quorum, nonces)
    requires shares == Round2(u, quorum, nonces, message, signers, commitments)
    ensures AllPass(u, poly, shares, message, signers, commitments, key)
    ensures Verify(u, Aggregate(u, key, message, commitments, shares), key, message)
  {
    assert Ids(shares) == signers;
    Round1Of(u, quorum, nonces);
    HonestSharesPass(u, poly, quorum, nonces, message, signers, commitments, shares, key);
    PassingSharesAggregate(u, poly, shares, message, signers, commitments, key);
  }

  /**
   Signing with the keys of a joint dealing. Every quorum of at least `t` distinct
   participants whose dealt shares verified signs: each signature share passes
   against its signer's public verification share, and the aggregate verifies under
   the group key everybody derived.
   */
  lemma {:induction false} QuorumSigns<S(!new), P(!new), M>(
      u: Suite<S, P, M>, dealt: seq<seq<P>>, shares: seq<map<ParticipantId, S>>, excluded: seq<nat>,
          ids: seq<ParticipantId>, t: nat,
      nonces: seq<Nonces<S>>, message: M)
    requires u.curve.Laws() && |dealt| == |shares| && |ids| == |nonces|
    requires forall v :: v in Surviving(dealt, excluded) ==> 1 <= |v| <= t
    requires forall id :: id in ids
                 ==> id != 0 && SharesVerify(u.curve, Surviving(dealt, excluded), Surviving(shares, excluded), id)
    requires DistinctIds(ids) && t <= |ids|
    ensures forall id, m :: id in ids && m in Surviving(shares, excluded) ==> id in m
    ensures var quorum := KeyShares(u.curve, ids, dealt, shares, excluded);
            var key, commitments := SumPoints(u.curve, Heads(Surviving(dealt, excluded))), Round1(u, quorum, nonces);
            var signed := Round2(u, quorum, nonces, message, ids, commitments);
            && (forall k :: 0 <= k < |ids| ==>
                  VerifySignatureShare(u, ids[k], PublicVerificationShare(u.curve, ids[k], dealt, excluded),
                      signed[k].1, message, ids, commitments, key))
            && Verify(u, Aggregate(u, key, message, commitments, signed), key, message)
  {
    var poly := JointDealing(u.curve, dealt, shares, excluded, ids, t);
    var quorum := KeyShares(u.curve, ids, dealt, shares, excluded);
    forall k | 0 <= k < |ids|
      ensures OnPolynomial(u.curve, poly, quorum[k])
      ensures PublicVerificationShare(u.curve, ids[k], dealt, excluded)
              == u.curve.times(Eval(u.curve.field, poly, u.curve.scalarOfId(ids[k])), u.curve.base)
    {
      assert ids[k] in ids;
    }
    assert MemberIds(quorum) == ids;
    var commitments := Round1(u, quorum, nonces);
    HonestQuorumSigns(u, poly, quorum, nonces, message, ids, commitments,
        Round2(u, quorum, nonces, message, ids, commitments),
                      SumPoints(u.curve, Heads(Surviving(dealt, excluded))));
  }
}
