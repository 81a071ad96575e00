/** Feldman dealing, complaint resolution, key finalisation and threshold decryption (crates/mpc/src/lib.rs). */
module Threshold {
  import opened Wrappers
  import opened Algebra
  import opened Lagrange
  import opened Polynomials
  import opened Curve

  // ----- commitments -----

  /** The Feldman commitments of a polynomial. */
  function Commit<S(!new), P(!new)>(c: Curve<S, P>, cs: seq<S>): (r: seq<P>)
    ensures |r| == |cs| && forall k :: 0 <= k < |cs| ==> r[k] == c.times(cs[k], c.base)
  {
    Scaled(c, cs, c.base)
  }

  /** Commitments evaluated at a point, by Horner's rule. */
  function CommitEval<S(!new), P(!new)>(c: Curve<S, P>, commitments: seq<P>, x: S): P {
    if commitments == [] then c.origin
    else c.plus(c.times(x, CommitEval(c, commitments[1..], x)), commitments[0])
  }

  /** Evaluation by a running power of the point, as every verifier computes it. */
  method EvaluateCommitment<S(!new), P(!new)>(c: Curve<S, P>, commitments: seq<P>, x: S) returns (expected: P)
    requires c.Laws()
    ensures expected == CommitEval(c, commitments, x)
  {
    expected := c.origin;
    var power := c.field.one;
    var k := 0;
    c.TimesUnits(x, CommitEval(c, commitments, x));
    c.PlusOrigin(CommitEval(c, commitments, x));
    assert commitments[0..] == commitments;
    while k < |commitments|
      invariant 0 <= k <= |commitments|
      invariant c.plus(expected, c.times(power, CommitEval(c, commitments[k..], x))) == CommitEval(c, commitments, x)
    {
      ghost var rest := CommitEval(c, commitments[k + 1..], x);
      assert commitments[k..][1..] == commitments[k + 1..];
      c.TimesPlus(power, c.times(x, rest), commitments[k]);
      c.TimesMul(power, x, rest);
      c.PlusComm(c.times(c.field.mul(power, x), rest), c.times(power, commitments[k]));
      c.PlusAssoc(expected, c.times(power, commitments[k]), c.times(c.field.mul(power, x), rest));
      expected := c.plus(expected, c.times(power, commitments[k]));
      power := c.field.mul(power, x);
      k := k + 1;
    }
    assert commitments[k..] == [];
    c.TimesUnits(power, c.origin);
    c.PlusOrigin(expected);
  }

  /** Evaluating the commitments of a polynomial commits to its value. */
  lemma {:induction false} CommitEvalIs<S(!new), P(!new)>(c: Curve<S, P>, cs: seq<S>, x: S)
    requires c.Laws()
    ensures CommitEval(c, Commit(c, cs), x) == c.times(Eval(c.field, cs, x), c.base)
  {
    if cs == [] {
      c.TimesUnits(x, c.base);
    } else {
      CommitEvalIs(c, cs[1..], x);
      assert Commit(c, cs)[1..] == Commit(c, cs[1..]);
      var v := Eval(c.field, cs[1..], x);
      c.TimesMul(x, v, c.base);
      c.field.MulComm(x, v);
      c.TimesAdd(c.field.mul(v, x), cs[0], c.base);
    }
  }

  /** Any published vector is the commitment of exactly one polynomial, known to its dealer or not. */
  lemma {:induction false} Opening<S(!new), P(!new)>(c: Curve<S, P>, commitments: seq<P>) returns (cs: seq<S>)
    requires c.Laws()
    ensures Commit(c, cs) == commitments
  {
    if commitments == [] {
      cs := [];
    } else {
      var n := |commitments| - 1;
      var rest := Opening(c, commitments[..n]);
      var last := c.LogOf(commitments[n]);
      cs := rest + [last];
      assert forall k :: 0 <= k < n ==> commitments[k] == Commit(c, rest)[k];
    }
  }

  predicate IsParticipant(id: ParticipantId) { id != 0 }

  predicate VerifyShare<S(==, !new), P(==, !new)>(c: Curve<S, P>, commitments: seq<P>, id: ParticipantId, share: S) {
    IsParticipant(id) && c.times(share, c.base) == CommitEval(c, commitments, c.scalarOfId(id))
  }

  /** A share verifies exactly when it is the committed polynomial's value at a participant. */
  lemma {:induction false} VerifyShareExactly<S(!new), P(!new)>(c: Curve<S, P>, cs: seq<S>, id: ParticipantId, share: S)
    requires c.Laws()
    ensures VerifyShare(c, Commit(c, cs), id, share) <==> id != 0 && share == Eval(c.field, cs, c.scalarOfId(id))
  {
    CommitEvalIs(c, cs, c.scalarOfId(id));
    if VerifyShare(c, Commit(c, cs), id, share) {
      c.BaseFaithful(share, Eval(c.field, cs, c.scalarOfId(id)));
    }
  }

  // ----- dealing -----

  datatype Dealer<!S(!new), !P(!new)> = Dealer(threshold: ParticipantId, participants: ParticipantId,
      coefficients: seq<S>, commitments: seq<P>)
  {
    /** The answer to a complaint: a share for those dealt to, nothing for anyone else. */
    function ShareFor(c: Curve<S, P>, id: ParticipantId): Option<S> {
      if !IsParticipant(id) || id > participants then None
      else Some(Eval(c.field, coefficients, c.scalarOfId(id)))
    }

    /** The reveal round: the commitments, and a share for each participant from 1 on. */
    function Reveal(c: Curve<S, P>): (seq<P>, map<ParticipantId, S>) {
      (commitments, map id: ParticipantId | 1 <= id <= participants :: Eval(c.field, coefficients, c.scalarOfId(id)))
    }
  }

  /** A dealer over the coefficients it drew. */
  function NewDealer<S(!new), P(!new)>(c: Curve<S, P>, threshold: ParticipantId, participants: ParticipantId,
      drawn: seq<S>): Dealer<S, P>
    requires 1 <= threshold <= participants && |drawn| == threshold
  {
    Dealer(threshold, participants, drawn, Commit(c, drawn))
  }

  /**
   Every revealed share verifies, equals the later disclosure, and the point holding the secret is never
   disclosed.
   */
  lemma {:induction false} HonestDealing<S(!new), P(!new)>(c: Curve<S, P>, threshold: ParticipantId,
      participants: ParticipantId, drawn: seq<S>, id: ParticipantId)
    requires c.Laws() && 1 <= threshold <= participants && |drawn| == threshold
    ensures var d := NewDealer(c, threshold, participants, drawn);
            var (commitments, shares) := d.Reveal(c);
            && (id in shares <==> 1 <= id <= participants)
            && d.ShareFor(c, id) == (if id in shares then Some(shares[id]) else None)
            && (id in shares ==> VerifyShare(c, commitments, id, shares[id]))
            && |commitments| == threshold && commitments[0] == c.times(Eval(c.field, drawn, c.field.zero), c.base)
  {
    VerifyShareExactly(c, drawn, id, Eval(c.field, drawn, c.scalarOfId(id)));
    EvalAtZero(c.field, drawn);
  }

  // ----- complaints -----

  datatype Complaint<S> = Complaint(accuser: ParticipantId, dealer: nat, received: S)

  datatype Verdict =
    | MalformedComplaint
    | DealerCannotProduceAValidShare
    | DisclosureIsValidButContradictsTheAccusersClaim
    | ComplaintWasUnfounded
  {
    predicate IsFaulty() { DealerCannotProduceAValidShare? }
  }

  function ResolveComplaint<S(==, !new), P(==, !new)>(c: Curve<S, P>, commitments: seq<P>, complaint: Complaint<S>,
      disclosed: S): Verdict {
    if !IsParticipant(complaint.accuser) then MalformedComplaint
    else if !VerifyShare(c, commitments, complaint.accuser, disclosed) then DealerCannotProduceAValidShare
    else if disclosed != complaint.received then DisclosureIsValidButContradictsTheAccusersClaim
    else ComplaintWasUnfounded
  }

  /** The verdict in terms of the committed polynomial: what is blamed, what is undecidable, what is unfounded. */
  lemma {:induction false} VerdictExactly<S(!new), P(!new)>(c: Curve<S, P>, cs: seq<S>, complaint: Complaint<S>,
      disclosed: S)
    requires c.Laws()
    ensures var verdict := ResolveComplaint(c, Commit(c, cs), complaint, disclosed);
            var truth := Eval(c.field, cs, c.scalarOfId(complaint.accuser));
            && (verdict.IsFaulty() <==> complaint.accuser != 0 && disclosed != truth)
            && (verdict.ComplaintWasUnfounded? <==> complaint.accuser != 0 && disclosed == truth == complaint.received)
            && (verdict.DisclosureIsValidButContradictsTheAccusersClaim? <==>
                  complaint.accuser != 0 && disclosed == truth && complaint.received != truth)
  {
    VerifyShareExactly(c, cs, complaint.accuser, disclosed);
  }

  /** No complaint, true or invented, convicts a dealer that discloses what it dealt. */
  lemma {:induction false} HonestDealerNeverConvicted<S(!new), P(!new)>(
      c: Curve<S, P>, threshold: ParticipantId, participants: ParticipantId, drawn: seq<S>, complaint: Complaint<S>)
    requires c.Laws() && 1 <= threshold <= participants && |drawn| == threshold
    ensures var d := NewDealer(c, threshold, participants, drawn);
            match d.ShareFor(c, complaint.accuser)
            case Some(disclosed) => !ResolveComplaint(c, d.commitments, complaint, disclosed).IsFaulty()
            case None => complaint.accuser == 0 || complaint.accuser > participants
  {
    VerdictExactly(c, drawn, complaint, Eval(c.field, drawn, c.scalarOfId(complaint.accuser)));
  }

  // ----- exclusion -----

  predicate AllVerify<S(==, !new), P(==, !new)>(c: Curve<S, P>, commitments: seq<P>, shares: map<ParticipantId, S>) {
    forall id | id in shares :: VerifyShare(c, commitments, id, shares[id])
  }

  /** The dealers with some share failing against their own commitments, in order. */
  function IdentifyFaultyDealers<S(==, !new), P(==, !new)>(
      c: Curve<S, P>, commitments: seq<seq<P>>, shares: seq<map<ParticipantId, S>>): (faulty: seq<nat>)
    ensures forall d :: d in faulty <==>
              0 <= d < |commitments| && d < |shares| && exists id :: id in shares[d]
                                                            && !VerifyShare(c, commitments[d], id, shares[d][id])
    ensures forall i, j :: 0 <= i < j < |faulty| ==> faulty[i] < faulty[j]
  {
    FaultyBelow(c, commitments, shares, if |commitments| <= |shares| then |commitments| else |shares|)
  }

  function FaultyBelow<S(==, !new), P(==, !new)>(
      c: Curve<S, P>, commitments: seq<seq<P>>, shares: seq<map<ParticipantId, S>>, n: nat): (faulty: seq<nat>)
    requires n <= |commitments| && n <= |shares|
    ensures forall d :: d in faulty <==> 0 <= d < n && !AllVerify(c, commitments[d], shares[d])
    ensures forall i, j :: 0 <= i < j < |faulty| ==> faulty[i] < faulty[j]
  {
    if n == 0 then []
    else
      var before := FaultyBelow(c, commitments, shares, n - 1);
      assert forall i :: 0 <= i < |before| ==> before[i] in before;
      if AllVerify(c, commitments[n - 1], shares[n - 1]) then before else before + [n - 1]
  }

  /** The entries whose index is not excluded, in order. */
  function Surviving<T(!new)>(s: seq<T>, excluded: seq<nat>): (r: seq<T>)
    ensures forall x :: x in r <==> exists d :: 0 <= d < |s| && d !in excluded && s[d] == x
  {
    if s == [] then []
    else
      var n := |s| - 1;
      var before := Surviving(s[..n], excluded);
      assert forall d :: 0 <= d < n ==> s[d] == s[..n][d];
      if n in excluded then before else before + [s[n]]
  }

  // ----- final key shares -----

  datatype KeyShare<S, P> = KeyShare(id: ParticipantId, secret: S, groupKey: P)

  function FinalizeKeyShare<S(!new), P(!new)>(c: Curve<S, P>, id: ParticipantId, shares: seq<S>,
      heads: seq<P>): KeyShare<S, P>
    requires IsParticipant(id)
  {
    KeyShare(id, Sum(c.field, shares), SumPoints(c, heads))
  }

  function SharesFor<S>(shares: seq<map<ParticipantId, S>>, id: ParticipantId): (r: seq<S>)
    requires forall m :: m in shares ==> id in m
    ensures |r| == |shares| && forall d :: 0 <= d < |r| ==> r[d] == shares[d][id]
  {
    seq(|shares|, d requires 0 <= d < |shares| => assert shares[d] in shares; shares[d][id])
  }

  function Heads<P>(commitments: seq<seq<P>>): (r: seq<P>)
    requires forall v :: v in commitments ==> v != []
    ensures |r| == |commitments| && forall d :: 0 <= d < |r|
                                        ==> commitments[d] in commitments && r[d] == commitments[d][0]
  {
    seq(|commitments|, d requires 0 <= d < |commitments| => assert commitments[d] in commitments; commitments[d][0])
  }

  function FinalizeExcludingFaulty<S(!new), P(!new)>(
      c: Curve<S, P>, id: ParticipantId, commitments: seq<seq<P>>, shares: seq<map<ParticipantId, S>>,
          excluded: seq<nat>): KeyShare<S, P>
    requires IsParticipant(id)
    requires forall m :: m in Surviving(shares, excluded) ==> id in m
    requires forall v :: v in Surviving(commitments, excluded) ==> v != []
  {
    FinalizeKeyShare(c, id, SharesFor(Surviving(shares, excluded), id), Heads(Surviving(commitments, excluded)))
  }

  /** The public counterpart of a secret share: every surviving dealer's commitments evaluated at the participant. */
  function VerificationShare<S(!new), P(!new)>(c: Curve<S, P>, id: ParticipantId, dealers: seq<seq<P>>): P {
    if dealers == [] then c.origin
    else c.plus(VerificationShare(c, id, dealers[..|dealers| - 1]),
        CommitEval(c, dealers[|dealers| - 1], c.scalarOfId(id)))
  }

  function PublicVerificationShare<S(!new), P(!new)>(c: Curve<S, P>, id: ParticipantId, commitments: seq<seq<P>>,
      excluded: seq<nat>): P
    requires IsParticipant(id)
  {
    VerificationShare(c, id, Surviving(commitments, excluded))
  }

  // ----- the group polynomial -----

  function SumPolys<S(!new)>(f: Field<S>, polys: seq<seq<S>>): seq<S> {
    if polys == [] then [] else PolyAdd(f, SumPolys(f, polys[..|polys| - 1]), polys[|polys| - 1])
  }

  lemma {:induction false} SumPolysShort<S(!new)>(f: Field<S>, polys: seq<seq<S>>, t: nat)
    requires forall p :: p in polys ==> |p| <= t
    ensures |SumPolys(f, polys)| <= t
  {
    if polys != [] {
      SumPolysShort(f, polys[..|polys| - 1], t);
    }
  }

  function EvalEach<S(!new)>(f: Field<S>, polys: seq<seq<S>>, x: S): (r: seq<S>)
    ensures |r| == |polys| && forall d :: 0 <= d < |r| ==> r[d] == Eval(f, polys[d], x)
  {
    seq(|polys|, d requires 0 <= d < |polys| => Eval(f, polys[d], x))
  }

  lemma {:induction false} EvalSumPolys<S(!new)>(f: Field<S>, polys: seq<seq<S>>, x: S)
    requires f.Laws()
    ensures Eval(f, SumPolys(f, polys), x) == Sum(f, EvalEach(f, polys, x))
  {
    if polys != [] {
      var n := |polys| - 1;
      EvalSumPolys(f, polys[..n], x);
      assert EvalEach(f, polys, x)[..n] == EvalEach(f, polys[..n], x);
      EvalPolyAdd(f, SumPolys(f, polys[..n]), polys[n], x);
    }
  }

  function CommitEach<S(!new), P(!new)>(c: Curve<S, P>, polys: seq<seq<S>>): (r: seq<seq<P>>)
    ensures |r| == |polys| && forall d :: 0 <= d < |r| ==> r[d] == Commit(c, polys[d])
  {
    seq(|polys|, d requires 0 <= d < |polys| => Commit(c, polys[d]))
  }

  lemma {:induction false} OpenEach<S(!new), P(!new)>(c: Curve<S, P>, dealers: seq<seq<P>>) returns (polys: seq<seq<S>>)
    requires c.Laws()
    ensures CommitEach(c, polys) == dealers
  {
    if dealers == [] {
      polys := [];
    } else {
      var n := |dealers| - 1;
      var rest := OpenEach(c, dealers[..n]);
      var last := Opening(c, dealers[n]);
      polys := rest + [last];
      assert forall d :: 0 <= d < n ==> CommitEach(c, rest)[d] == dealers[d];
    }
  }

  /** The verification share is the group polynomial's value, times the base point. */
  lemma {:induction false} VerificationShareIs<S(!new), P(!new)>(c: Curve<S, P>, id: ParticipantId, polys: seq<seq<S>>)
    requires c.Laws()
    ensures VerificationShare(c, id, CommitEach(c, polys))
            == c.times(Eval(c.field, SumPolys(c.field, polys), c.scalarOfId(id)), c.base)
  {
    var x := c.scalarOfId(id);
    if polys == [] {
      c.TimesUnits(x, c.base);
    } else {
      var n := |polys| - 1;
      VerificationShareIs(c, id, polys[..n]);
      assert CommitEach(c, polys)[..n] == CommitEach(c, polys[..n]);
      CommitEvalIs(c, polys[n], x);
      EvalPolyAdd(c.field, SumPolys(c.field, polys[..n]), polys[n], x);
      c.TimesAdd(Eval(c.field, SumPolys(c.field, polys[..n]), x), Eval(c.field, polys[n], x), c.base);
    }
  }

  /** The sum of the published constant terms is the group polynomial's value at zero, times the base point. */
  lemma {:induction false} GroupKeyIs<S(!new), P(!new)>(c: Curve<S, P>, polys: seq<seq<S>>)
    requires c.Laws() && forall p :: p in polys ==> p != []
    ensures forall v :: v in CommitEach(c, polys) ==> v != []
    ensures SumPoints(c, Heads(CommitEach(c, polys)))
            == c.times(Eval(c.field, SumPolys(c.field, polys), c.field.zero), c.base)
  {
    var values := EvalEach(c.field, polys, c.field.zero);
    EvalSumPolys(c.field, polys, c.field.zero);
    SumScaled(c, values, c.base);
    forall d | 0 <= d < |polys|
      ensures CommitEach(c, polys)[d] != [] && CommitEach(c, polys)[d][0] == c.times(values[d], c.base)
    {
      assert polys[d] in polys;
      EvalAtZero(c.field, polys[d]);
    }
    assert Heads(CommitEach(c, polys)) == Scaled(c, values, c.base);
  }

  /** One participant's shares from the surviving dealers all verify against the surviving commitments. */
  predicate SharesVerify<S(==, !new), P(==, !new)>(c: Curve<S, P>, dealers: seq<seq<P>>,
      shares: seq<map<ParticipantId, S>>, id: ParticipantId) {
    |shares| == |dealers| && forall d :: 0 <= d < |dealers|
                                 ==> id in shares[d] && VerifyShare(c, dealers[d], id, shares[d][id])
  }

  /** A key share is the group polynomial's value at its participant. */
  ghost predicate OnPolynomial<S(!new), P(!new)>(c: Curve<S, P>, poly: seq<S>, share: KeyShare<S, P>) {
    && share.id != 0
    && share.secret == Eval(c.field, poly, c.scalarOfId(share.id))
    && share.groupKey == c.times(Eval(c.field, poly, c.field.zero), c.base)
  }

  /** Verified shares are the values of the opened polynomials. */
  lemma {:induction false} SharesAreValues<S(!new), P(!new)>(c: Curve<S, P>, polys: seq<seq<S>>,
      shares: seq<map<ParticipantId, S>>, id: ParticipantId)
    requires c.Laws() && SharesVerify(c, CommitEach(c, polys), shares, id)
    ensures forall m :: m in shares ==> id in m
    ensures SharesFor(shares, id) == EvalEach(c.field, polys, c.scalarOfId(id))
  {
    forall d | 0 <= d < |polys|
      ensures id in shares[d] && shares[d][id] == Eval(c.field, polys[d], c.scalarOfId(id))
    {
      VerifyShareExactly(c, polys[d], id, shares[d][id]);
    }
  }

  /**
   The joint dealing. However the dealers chose their published vectors, the
   surviving ones fix a single polynomial, no longer than their longest vector, such
   that every participant whose received shares verify holds its value, all of them
   derive the same group key from its value at zero, and anyone can compute each
   participant's public share.
   */
  lemma {:induction false} JointDealing<S(!new), P(!new)>(
      c: Curve<S, P>, commitments: seq<seq<P>>, shares: seq<map<ParticipantId, S>>, excluded: seq<nat>,
          ids: seq<ParticipantId>, t: nat)
      returns (poly: seq<S>)
    requires c.Laws() && |commitments| == |shares|
    requires forall v :: v in Surviving(commitments, excluded) ==> 1 <= |v| <= t
    requires forall id :: id in ids
                 ==> id != 0 && SharesVerify(c, Surviving(commitments, excluded), Surviving(shares, excluded), id)
    ensures |poly| <= t
    ensures SumPoints(c, Heads(Surviving(commitments, excluded))) == c.times(Eval(c.field, poly, c.field.zero), c.base)
    ensures forall id :: id in ids ==>
              && (forall m :: m in Surviving(shares, excluded) ==> id in m)
              && OnPolynomial(c, poly, FinalizeExcludingFaulty(c, id, commitments, shares, excluded))
              && PublicVerificationShare(c, id, commitments, excluded)
                  == c.times(Eval(c.field, poly, c.scalarOfId(id)), c.base)
  {
    var dealers, dealt := Surviving(commitments, excluded), Surviving(shares, excluded);
    var polys := OpenEach(c, dealers);
    assert forall d :: 0 <= d < |polys| ==> |polys[d]| == |dealers[d]| && dealers[d] in dealers;
    poly := SumPolys(c.field, polys);
    SumPolysShort(c.field, polys, t);
    GroupKeyIs(c, polys);
    forall id | id in ids
      ensures && (forall m :: m in dealt ==> id in m)
              && OnPolynomial(c, poly, FinalizeExcludingFaulty(c, id, commitments, shares, excluded))
              && PublicVerificationShare(c, id, commitments, excluded)
                  == c.times(Eval(c.field, poly, c.scalarOfId(id)), c.base)
    {
      SharesAreValues(c, polys, dealt, id);
      EvalSumPolys(c.field, polys, c.scalarOfId(id));
      VerificationShareIs(c, id, polys);
    }
  }

  // ----- Lagrange coefficients and combination -----

  function Points<S(!new), P(!new)>(c: Curve<S, P>, ids: seq<ParticipantId>): (r: seq<S>)
    ensures |r| == |ids| && forall k :: 0 <= k < |ids| ==> r[k] == c.scalarOfId(ids[k])
  {
    seq(|ids|, k requires 0 <= k < |ids| => c.scalarOfId(ids[k]))
  }

  /** The coefficient of one participant within a quorum. */
  function LagrangeAtZero<S(==, !new), P(!new)>(c: Curve<S, P>, id: ParticipantId, ids: seq<ParticipantId>): S {
    Coefficient(c.field, c.scalarOfId(id), Points(c, ids))
  }

  /** One pass over the quorum, skipping the participant itself by id. */
  method LagrangeCoefficientAtZero<S(==, !new), P(!new)>(c: Curve<S, P>, id: ParticipantId,
      ids: seq<ParticipantId>) returns (r: S)
    requires c.Laws()
    ensures r == LagrangeAtZero(c, id, ids)
  {
    var x := c.scalarOfId(id);
    var num, den := c.field.one, c.field.one;
    var k := 0;
    ghost var all := Points(c, ids);
    assert all[..0] == [];
    while k < |ids|
      invariant 0 <= k <= |ids|
      invariant num == Numerator(c.field, x, all[..k]) && den == Denominator(c.field, x, all[..k])
    {
      assert all[..k + 1][..k] == all[..k] && all[..k + 1][k] == c.scalarOfId(ids[k]);
      if ids[k] != id {
        var y := c.scalarOfId(ids[k]);
        num := c.field.mul(num, y);
        den := c.field.mul(den, c.field.Sub(y, x));
      }
      k := k + 1;
    }
    assert all[..k] == all;
    r := c.field.mul(num, c.field.Inv(den));
  }

  function Ids<T>(pairs: seq<(ParticipantId, T)>): (r: seq<ParticipantId>)
    ensures |r| == |pairs| && forall k :: 0 <= k < |r| ==> r[k] == pairs[k].0
  {
    seq(|pairs|, k requires 0 <= k < |pairs| => pairs[k].0)
  }

  function CombineOver<S(==, !new), P(!new)>(c: Curve<S, P>, all: seq<ParticipantId>,
      partials: seq<(ParticipantId, P)>): P {
    if partials == [] then c.origin
    else
      var n := |partials| - 1;
      c.plus(CombineOver(c, all, partials[..n]), c.times(LagrangeAtZero(c, partials[n].0, all), partials[n].1))
  }

  function CombinePartials<S(==, !new), P(!new)>(c: Curve<S, P>, partials: seq<(ParticipantId, P)>): P {
    CombineOver(c, Ids(partials), partials)
  }

  /** Partials that are multiples of one point combine to the weighted sum of the multipliers. */
  lemma {:induction false} CombineIsWeighted<S(!new), P(!new)>(
      c: Curve<S, P>, all: seq<ParticipantId>, partials: seq<(ParticipantId, P)>, values: seq<S>, p: P)
    requires c.Laws() && |values| == |partials|
    requires forall k :: 0 <= k < |partials| ==> partials[k].1 == c.times(values[k], p)
    ensures CombineOver(c, all, partials)
            == c.times(Weighted(c.field, Points(c, all), Points(c, Ids(partials)), values), p)
  {
    if partials == [] {
      c.TimesUnits(c.field.zero, p);
    } else {
      var n := |partials| - 1;
      CombineIsWeighted(c, all, partials[..n], values[..n], p);
      assert Points(c, Ids(partials))[..n] == Points(c, Ids(partials[..n]));
      var lambda := LagrangeAtZero(c, partials[n].0, all);
      c.TimesMul(lambda, values[n], p);
      c.TimesAdd(Weighted(c.field, Points(c, all), Points(c, Ids(partials[..n])), values[..n]),
          c.field.mul(lambda, values[n]), p);
    }
  }

  function PartialDecrypt<S(!new), P(!new)>(c: Curve<S, P>, share: KeyShare<S, P>, r: P): P {
    c.times(share.secret, r)
  }

  function Partials<S(!new), P(!new)>(c: Curve<S, P>, quorum: seq<KeyShare<S, P>>,
      r: P): (partials: seq<(ParticipantId, P)>)
    ensures |partials| == |quorum|
    ensures forall k :: 0 <= k < |quorum| ==> partials[k] == (quorum[k].id, PartialDecrypt(c, quorum[k], r))
  {
    seq(|quorum|, k requires 0 <= k < |quorum| => (quorum[k].id, PartialDecrypt(c, quorum[k], r)))
  }

  ghost predicate DistinctIds(ids: seq<ParticipantId>) {
    forall i, j :: 0 <= i < j < |ids| ==> ids[i] != ids[j]
  }

  lemma {:induction false} DistinctPoints<S(!new), P(!new)>(c: Curve<S, P>, ids: seq<ParticipantId>)
    requires c.Laws() && DistinctIds(ids)
    ensures Distinct(Points(c, ids))
  {
  }

  /** Interpolation over ids: the weighted values of any large enough quorum give the value at zero. */
  lemma {:induction false} QuorumInterpolates<S(!new), P(!new)>(c: Curve<S, P>, poly: seq<S>, ids: seq<ParticipantId>)
    requires c.Laws() && DistinctIds(ids) && |poly| <= |ids|
    ensures Weighted(c.field, Points(c, ids), Points(c, ids), EvalAll(c.field, poly, Points(c, ids)))
            == Eval(c.field, poly, c.field.zero)
  {
    DistinctPoints(c, ids);
    Interpolation(c.field, poly, Points(c, ids));
  }

  /** Any large enough quorum on one polynomial combines its partials to the secret times the point. */
  lemma {:induction false} QuorumCombines<S(!new), P(!new)>(c: Curve<S, P>, poly: seq<S>, quorum: seq<KeyShare<S, P>>,
      r: P)
    requires c.Laws() && |poly| <= |quorum|
    requires forall k :: 0 <= k < |quorum| ==> OnPolynomial(c, poly, quorum[k])
    requires DistinctIds(Ids(Partials(c, quorum, r)))
    ensures CombinePartials(c, Partials(c, quorum, r)) == c.times(Eval(c.field, poly, c.field.zero), r)
  {
    var partials := Partials(c, quorum, r);
    var ids := Ids(partials);
    var values := EvalAll(c.field, poly, Points(c, ids));
    CombineIsWeighted(c, ids, partials, values, r);
    QuorumInterpolates(c, poly, ids);
  }

  /** The key shares of a list of participants. */
  function KeyShares<S(!new), P(!new)>(
      c: Curve<S, P>, ids: seq<ParticipantId>, commitments: seq<seq<P>>, shares: seq<map<ParticipantId, S>>,
          excluded: seq<nat>): (r: seq<KeyShare<S, P>>)
    requires forall id :: id in ids ==> IsParticipant(id) && forall m :: m in Surviving(shares, excluded) ==> id in m
    requires forall v :: v in Surviving(commitments, excluded) ==> v != []
    ensures |r| == |ids| && forall k :: 0 <= k < |ids|
                                ==> r[k] == FinalizeExcludingFaulty(c, ids[k], commitments, shares, excluded)
  {
    seq(|ids|, k requires 0 <= k < |ids| => assert ids[k] in ids; FinalizeExcludingFaulty(c, ids[k], commitments,
        shares, excluded))
  }

  /**
   Threshold decryption. A sender encapsulates to the group key with `r`; any quorum
   of at least `t` distinct participants whose shares verified combines its partial
   decryptions of `r·G` to exactly the sender's point.
   */
  lemma {:induction false} QuorumDecrypts<S(!new), P(!new)>(
      c: Curve<S, P>, commitments: seq<seq<P>>, shares: seq<map<ParticipantId, S>>, excluded: seq<nat>,
          ids: seq<ParticipantId>, t: nat, r: S)
    requires c.Laws() && |commitments| == |shares|
    requires forall v :: v in Surviving(commitments, excluded) ==> 1 <= |v| <= t
    requires forall id :: id in ids
                 ==> id != 0 && SharesVerify(c, Surviving(commitments, excluded), Surviving(shares, excluded), id)
    requires DistinctIds(ids) && t <= |ids|
    ensures forall id, m :: id in ids && m in Surviving(shares, excluded) ==> id in m
    ensures var quorum := KeyShares(c, ids, commitments, shares, excluded);
            var groupKey := SumPoints(c, Heads(Surviving(commitments, excluded)));
            && (forall k :: 0 <= k < |ids| ==> quorum[k].groupKey == groupKey)
            && CombinePartials(c, Partials(c, quorum, c.times(r, c.base))) == c.times(r, groupKey)
  {
    var poly := JointDealing(c, commitments, shares, excluded, ids, t);
    var quorum := KeyShares(c, ids, commitments, shares, excluded);
    forall k | 0 <= k < |ids|
      ensures OnPolynomial(c, poly, quorum[k])
    {
      assert ids[k] in ids;
    }
    assert Ids(Partials(c, quorum, c.times(r, c.base))) == ids;
    QuorumCombines(c, poly, quorum, c.times(r, c.base));
    var s := Eval(c.field, poly, c.field.zero);
    c.TimesMul(s, r, c.base);
    c.TimesMul(r, s, c.base);
    c.field.MulComm(r, s);
  }

  // ----- how long a dealer's vector may be -----

  /** What a quorum contributes for a point, each member with its own share. */
  function ShareTimes<S(!new), P(!new)>(c: Curve<S, P>, ids: seq<ParticipantId>, shares: seq<S>,
      r: P): (partials: seq<(ParticipantId, P)>)
    requires |shares| == |ids|
    ensures Ids(partials) == ids
    ensures |partials| == |ids| && forall k :: 0 <= k < |ids| ==> partials[k] == (ids[k], c.times(shares[k], r))
  {
    seq(|ids|, k requires 0 <= k < |ids| => (ids[k], c.times(shares[k], r)))
  }

  /** If every share verifies against the vector, the quorum's shares combine to the secret times the point. */
  ghost predicate SharesRecover<S(!new), P(!new)>(c: Curve<S, P>, ids: seq<ParticipantId>, r: P, v: seq<P>,
      shares: seq<S>, s: S)
  {
    |v| > 0 && |shares| == |ids| && (forall k :: 0 <= k < |ids| ==> VerifyShare(c, v, ids[k], shares[k]))
    && v[0] == c.times(s, c.base)
    ==> CombinePartials(c, ShareTimes(c, ids, shares, r)) == c.times(s, r)
  }

  /** Every vector of `n` commitments, with every choice of verifying shares, recovers its secret. */
  ghost predicate LengthSuffices<S(!new), P(!new)>(c: Curve<S, P>, ids: seq<ParticipantId>, r: P, n: nat) {
    forall v: seq<P>, shares: seq<S>, s: S {:trigger SharesRecover(c, ids, r, v, shares, s)} ::
      |v| == n ==> SharesRecover(c, ids, r, v, shares, s)
  }

  lemma {:induction false} ShortVectorRecovers<S(!new), P(!new)>(c: Curve<S, P>, ids: seq<ParticipantId>, r: P,
      v: seq<P>, shares: seq<S>, s: S)
    requires c.Laws() && DistinctIds(ids) && 0 < |v| <= |ids| == |shares|
    requires (forall k :: 0 <= k < |ids| ==> VerifyShare(c, v, ids[k], shares[k])) && v[0] == c.times(s, c.base)
    ensures CombinePartials(c, ShareTimes(c, ids, shares, r)) == c.times(s, r)
  {
    var cs := Opening(c, v);
    assert |cs| == |v| && v[0] == c.times(cs[0], c.base);
    c.BaseFaithful(cs[0], s);
    EvalAtZero(c.field, cs);
    forall k | 0 <= k < |ids|
      ensures shares[k] == Eval(c.field, cs, Points(c, ids)[k])
    {
      VerifyShareExactly(c, cs, ids[k], shares[k]);
    }
    assert shares == EvalAll(c.field, cs, Points(c, ids));
    CombineIsWeighted(c, ids, ShareTimes(c, ids, shares, r), shares, r);
    QuorumInterpolates(c, cs, ids);
  }

  /**
   For every length above the quorum a dealer can hand each member a share that
   verifies while their combination is not its secret times the point.
   */
  lemma {:induction false} OverlongVectorDefeatsQuorum<S(!new), P(!new)>(c: Curve<S, P>, ids: seq<ParticipantId>,
      r: P, n: nat) returns (v: seq<P>, shares: seq<S>, s: S)
    requires c.Laws() && (forall id :: id in ids ==> id != 0) && r != c.origin && n > |ids|
    ensures |v| == n && !SharesRecover(c, ids, r, v, shares, s)
  {
    var f := c.field;
    var cs := VanishingOfLength(f, Points(c, ids), n);
    v, s, shares := Commit(c, cs), cs[0], seq(|ids|, _ => f.zero);
    forall k | 0 <= k < |ids|
      ensures VerifyShare(c, v, ids[k], shares[k])
    {
      assert ids[k] in ids && Points(c, ids)[k] in Points(c, ids);
      VerifyShareExactly(c, cs, ids[k], f.zero);
    }
    forall k | 0 <= k < |ids|
      ensures Points(c, ids)[k] != f.zero
    {
      assert ids[k] in ids;
    }
    EvalAtZero(f, cs);
    ScaledAway(c, s, r);
    c.TimesUnits(f.zero, r);
    CombineOrigins(c, ids, ShareTimes(c, ids, shares, r));
  }

  /**
   The length a verifier does not check, exactly: every vector of `n` commitments whose
   shares verify combines to its secret times the point if and only if `n` is at most
   the size of the quorum (or the point is the identity, where there is nothing to recover).
   */
  lemma {:induction false} LengthDecidesRecovery<S(!new), P(!new)>(c: Curve<S, P>, ids: seq<ParticipantId>, r: P,
      n: nat)
    requires c.Laws() && DistinctIds(ids) && (forall id :: id in ids ==> id != 0) && n > 0
    ensures LengthSuffices(c, ids, r, n) <==> n <= |ids| || r == c.origin
  {
    if n <= |ids| || r == c.origin {
      forall v: seq<P>, shares: seq<S>, s: S | |v| == n
        ensures SharesRecover(c, ids, r, v, shares, s)
      {
        if |shares| == |ids| && (forall k :: 0 <= k < |ids| ==> VerifyShare(c, v, ids[k], shares[k]))
           && v[0] == c.times(s, c.base) {
          if r == c.origin {
            IdentityRecovers(c, ids, shares, s);
          } else {
            ShortVectorRecovers(c, ids, r, v, shares, s);
          }
        }
      }
    } else {
      var v, shares, s := OverlongVectorDefeatsQuorum(c, ids, r, n);
    }
  }

  lemma {:induction false} IdentityRecovers<S(!new), P(!new)>(c: Curve<S, P>, ids: seq<ParticipantId>,
      shares: seq<S>, s: S)
    requires c.Laws() && |shares| == |ids|
    ensures CombinePartials(c, ShareTimes(c, ids, shares, c.origin)) == c.times(s, c.origin)
  {
    c.TimesUnits(s, c.origin);
    forall k | 0 <= k < |ids|
      ensures c.times(shares[k], c.origin) == c.origin
    {
      c.TimesUnits(shares[k], c.origin);
    }
    CombineOrigins(c, ids, ShareTimes(c, ids, shares, c.origin));
  }

  lemma {:induction false} CombineOrigins<S(!new), P(!new)>(c: Curve<S, P>, all: seq<ParticipantId>,
      partials: seq<(ParticipantId, P)>)
    requires c.Laws() && forall k :: 0 <= k < |partials| ==> partials[k].1 == c.origin
    ensures CombineOver(c, all, partials) == c.origin
  {
    if partials != [] {
      var n := |partials| - 1;
      CombineOrigins(c, all, partials[..n]);
      c.TimesUnits(LagrangeAtZero(c, partials[n].0, all), c.origin);
      c.PlusOrigin(c.origin);
    }
  }

  /** A non-zero multiple of a point other than the origin is not the origin. */
  lemma {:induction false} ScaledAway<S(!new), P(!new)>(c: Curve<S, P>, a: S, p: P)
    requires c.Laws() && a != c.field.zero && p != c.origin
    ensures c.times(a, p) != c.origin
  {
    if c.times(a, p) == c.origin {
      c.TimesMul(c.field.Inv(a), a, p);
      c.field.MulInv(a);
      c.TimesUnits(c.field.Inv(a), p);
    }
  }
}
