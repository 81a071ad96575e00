/**
 Threshold decryption with one independent KEM key per operator (crates/mpc/src/threshold_kem.rs).
 The KEM, the key derivation and the AEAD are free terms: a sealed box opens only
 under its own key, and decapsulation under a foreign key gives an unrelated secret
 without signalling an error.
 */
module ThresholdKem {
  import opened Wrappers
  import opened Algebra
  import opened Lagrange
  import opened Polynomials
  import opened Curve
  import opened Threshold

  datatype KemCiphertext = KemCiphertext(key: nat, coins: nat)

  datatype Secret<S> = Shared(key: nat, coins: nat) | Rejected(key: nat, ciphertext: KemCiphertext) | Master(value: S)

  datatype Info = ShareWrap | PayloadKey

  datatype AeadKey<S> = AeadKey(secret: Secret<S>, info: Info)

  /** What a box can hold: the canonical bytes of a scalar, or any other byte string. */
  datatype Plain<S, B> = ScalarBytes(scalar: S) | Bytes(bytes: B)

  datatype Box<S, B> = TooShort | Forged(tag: nat) | Sealed(key: AeadKey<S>, plain: Plain<S, B>)

  datatype Failure = NoShareForOperator | ShorterThanNonce | AuthenticationFailed | NotAScalar

  function Decapsulate<S>(key: nat, ciphertext: KemCiphertext): Secret<S> {
    if ciphertext.key == key then Shared(key, ciphertext.coins) else Rejected(key, ciphertext)
  }

  function AeadOpen<S(==), B>(key: AeadKey<S>, box: Box<S, B>): Result<Plain<S, B>, Failure> {
    match box
    case TooShort => Err(ShorterThanNonce)
    case Forged(_) => Err(AuthenticationFailed)
    case Sealed(k, plain) => if k == key then Ok(plain) else Err(AuthenticationFailed)
  }

  datatype OperatorShare<S, B> = OperatorShare(ciphertext: KemCiphertext, wrapped: Box<S, B>)

  datatype GroupCiphertext<S, B> =
    GroupCiphertext(shares: map<ParticipantId, OperatorShare<S, B>>, threshold: nat, payload: Box<S, B>)

  datatype Operator = Operator(id: ParticipantId, key: nat)

  /** One operator's entry: its share of the polynomial, wrapped under a fresh encapsulation. */
  function WrapShare<S(!new), P(!new), B>(c: Curve<S, P>, id: ParticipantId, key: nat, coins: nat,
      coefficients: seq<S>): OperatorShare<S, B> {
    OperatorShare(KemCiphertext(key, coins),
                  Sealed(AeadKey(Shared(key, coins), ShareWrap),
                      ScalarBytes(Eval(c.field, coefficients, c.scalarOfId(id)))))
  }

  /** Encryption over the drawn coefficients, the first of them the master secret. */
  function EncryptToGroup<S(!new), P(!new), B>(
      c: Curve<S, P>, operators: map<ParticipantId, nat>, threshold: nat, coefficients: seq<S>,
          coins: ParticipantId -> nat, plaintext: B)
      : GroupCiphertext<S, B>
    requires 1 <= threshold <= |operators| && |coefficients| == threshold && 0 !in operators
  {
    GroupCiphertext(map id | id in operators :: WrapShare(c, id, operators[id], coins(id), coefficients),
                    threshold, Sealed(AeadKey(Master(coefficients[0]), PayloadKey), Bytes(plaintext)))
  }

  function PartialDecrypt<S(==), B>(operator: Operator, ciphertext: GroupCiphertext<S, B>)
      : Result<(ParticipantId, S), Failure>
  {
    if operator.id !in ciphertext.shares then Err(NoShareForOperator)
    else
      var mine := ciphertext.shares[operator.id];
      match AeadOpen(AeadKey(Decapsulate(operator.key, mine.ciphertext), ShareWrap), mine.wrapped)
      case Err(e) => Err(e)
      case Ok(Bytes(_)) => Err(NotAScalar)
      case Ok(ScalarBytes(share)) => Ok((operator.id, share))
  }

  function Values<S>(partials: seq<(ParticipantId, S)>): (r: seq<S>)
    ensures |r| == |partials| && forall k :: 0 <= k < |r| ==> r[k] == partials[k].1
  {
    seq(|partials|, k requires 0 <= k < |partials| => partials[k].1)
  }

  function Reconstruct<S(==, !new), P(!new)>(c: Curve<S, P>, partials: seq<(ParticipantId, S)>): S {
    Weighted(c.field, Points(c, Ids(partials)), Points(c, Ids(partials)), Values(partials))
  }

  function CombineAndDecrypt<S(==, !new), P(!new), B>(
      c: Curve<S, P>, partials: seq<(ParticipantId, S)>, ciphertext: GroupCiphertext<S, B>)
      : Result<Plain<S, B>, Failure>
  {
    AeadOpen(AeadKey(Master(Reconstruct(c, partials)), PayloadKey), ciphertext.payload)
  }

  /**
   Exactly the operators encrypted to, with the key encrypted to, obtain a share, and it is the polynomial's
   value.
   */
  lemma {:induction false} PartialDecryptExactly<S(!new), P(!new), B>(
      c: Curve<S, P>, operators: map<ParticipantId, nat>, threshold: nat, coefficients: seq<S>,
          coins: ParticipantId -> nat, plaintext: B,
      operator: Operator)
    requires 1 <= threshold <= |operators| && |coefficients| == threshold && 0 !in operators
    ensures PartialDecrypt(operator, EncryptToGroup(c, operators, threshold, coefficients, coins, plaintext))
            == if operator.id !in operators then Err(NoShareForOperator)
               else if operators[operator.id] != operator.key then Err(AuthenticationFailed)
               else Ok((operator.id, Eval(c.field, coefficients, c.scalarOfId(operator.id))))
  {
    var ciphertext: GroupCiphertext<S, B> := EncryptToGroup(c, operators, threshold, coefficients, coins, plaintext);
    if operator.id in operators {
      assert ciphertext.shares[operator.id]
             == WrapShare(c, operator.id, operators[operator.id], coins(operator.id), coefficients);
    }
  }

  /** The partials of some of the operators. */
  ghost predicate PartialsOf<S(!new), B(!new)>(operators: map<ParticipantId, nat>, ciphertext: GroupCiphertext<S, B>,
      partials: seq<(ParticipantId, S)>) {
    forall k :: 0 <= k < |partials| ==>
      partials[k].0 in operators
          && PartialDecrypt(Operator(partials[k].0, operators[partials[k].0]), ciphertext) == Ok(partials[k])
  }

  /** Genuine partials are the values of the polynomial at their operators. */
  lemma {:induction false} PartialsAreValues<S(!new), P(!new), B(!new)>(
      c: Curve<S, P>, operators: map<ParticipantId, nat>, threshold: nat, coefficients: seq<S>,
          coins: ParticipantId -> nat, plaintext: B,
      partials: seq<(ParticipantId, S)>)
    requires 1 <= threshold <= |operators| && |coefficients| == threshold && 0 !in operators
    ensures PartialsOf(operators, EncryptToGroup(c, operators, threshold, coefficients, coins, plaintext), partials)
            <==> (forall id :: id in Ids(partials) ==> id in operators)
                 && Values(partials) == EvalAll(c.field, coefficients, Points(c, Ids(partials)))
  {
    var ciphertext := EncryptToGroup(c, operators, threshold, coefficients, coins, plaintext);
    var values := EvalAll(c.field, coefficients, Points(c, Ids(partials)));
    forall k | 0 <= k < |partials|
      ensures Ids(partials)[k] in operators ==>
                (PartialDecrypt(Operator(partials[k].0, operators[partials[k].0]), ciphertext) == Ok(partials[k])
                 <==> Values(partials)[k] == values[k])
    {
      if partials[k].0 in operators {
        PartialDecryptExactly(c, operators, threshold, coefficients, coins, plaintext,
            Operator(partials[k].0, operators[partials[k].0]));
      }
    }
    assert forall k :: 0 <= k < |partials| ==> Ids(partials)[k] in Ids(partials);
  }

  /** Any threshold of the operators recovers the plaintext. */
  lemma {:induction false} QuorumRecovers<S(!new), P(!new), B(!new)>(
      c: Curve<S, P>, operators: map<ParticipantId, nat>, threshold: nat, coefficients: seq<S>,
          coins: ParticipantId -> nat, plaintext: B,
      partials: seq<(ParticipantId, S)>)
    requires c.Laws() && 1 <= threshold <= |operators| && |coefficients| == threshold && 0 !in operators
    requires PartialsOf(operators, EncryptToGroup(c, operators, threshold, coefficients, coins, plaintext), partials)
    requires DistinctIds(Ids(partials)) && threshold <= |partials|
    ensures CombineAndDecrypt(c, partials, EncryptToGroup(c, operators, threshold, coefficients, coins, plaintext))
            == Ok(Bytes(plaintext))
  {
    PartialsAreValues(c, operators, threshold, coefficients, coins, plaintext, partials);
    QuorumInterpolates(c, coefficients, Ids(partials));
    EvalAtZero(c.field, coefficients);
  }

  /**
   Whatever partials are fed in, combining a genuine ciphertext yields its plaintext or a clean error, never
   anything else.
   */
  lemma {:induction false} NeverGarbage<S(!new), P(!new), B(!new)>(
      c: Curve<S, P>, operators: map<ParticipantId, nat>, threshold: nat, coefficients: seq<S>,
          coins: ParticipantId -> nat, plaintext: B,
      partials: seq<(ParticipantId, S)>)
    requires 1 <= threshold <= |operators| && |coefficients| == threshold && 0 !in operators
    ensures CombineAndDecrypt(c, partials, EncryptToGroup(c, operators, threshold, coefficients, coins, plaintext))
            == if Reconstruct(c, partials) == coefficients[0] then Ok(Bytes(plaintext)) else Err(AuthenticationFailed)
  {
    assert Master(Reconstruct(c, partials)) == Master(coefficients[0]) <==> Reconstruct(c, partials) == coefficients[0];
  }

  /**
   Fewer than `threshold` operators learn nothing of the master secret: for every
   other candidate there is an encryption with that master secret in which the same
   operators unwrap the very same shares.
   */
  lemma {:induction false} CoalitionUndetermined<S(!new), P(!new), B(!new)>(
      c: Curve<S, P>, operators: map<ParticipantId, nat>, threshold: nat, coefficients: seq<S>,
          coins: ParticipantId -> nat, plaintext: B,
      partials: seq<(ParticipantId, S)>, candidate: S) returns (other: seq<S>)
    requires c.Laws() && 1 <= threshold <= |operators| && |coefficients| == threshold && 0 !in operators
    requires PartialsOf(operators, EncryptToGroup(c, operators, threshold, coefficients, coins, plaintext), partials)
    requires |partials| < threshold
    ensures |other| == threshold && other[0] == candidate
    ensures PartialsOf(operators, EncryptToGroup(c, operators, threshold, other, coins, plaintext), partials)
  {
    var xs := Points(c, Ids(partials));
    PartialsAreValues(c, operators, threshold, coefficients, coins, plaintext, partials);
    forall k | 0 <= k < |xs| ensures xs[k] != c.field.zero {
      assert Ids(partials)[k] in Ids(partials);
    }
    other := CoalitionLearnsNothing(c.field, coefficients, xs, candidate);
    EvalAtZero(c.field, other);
    assert EvalAll(c.field, other, xs) == EvalAll(c.field, coefficients, xs);
    PartialsAreValues(c, operators, threshold, other, coins, plaintext, partials);
  }
}
