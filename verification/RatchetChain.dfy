/**
 One receive chain of the ratchet and its cache of skipped keys
 (crates/core/src/ratchet.rs). Chain keys and message keys are free terms: a
 message key is its chain's base and position; a sealed body opens only under its
 own key and header.
 */
module RatchetChain {
  import opened Wrappers
  import opened Sequences

  const MAX_SKIPPED_KEYS: nat := 1000

  datatype Direction = FromInitiator | FromResponder

  /** A root key: from the handshake, or from a root and a fresh shared secret. */
  datatype Root = Handshake(id: nat) | NextRoot(root: Root, secret: Secret)

  /**
   What a key exchange gives: the two sides' shared secret, or an unrelated value when the reply was for
   another exchange.
   */
  datatype Secret = Shared(initiator: nat, responder: nat) | Mismatched(initiator: nat, replyTo: nat, responder: nat)

  /** Where a chain starts: a root, the secret of its step if any, and a direction. */
  datatype Base = Epoch0(root: Root, direction: Direction) | StepBase(root: Root, secret: Secret, direction: Direction)

  datatype ChainKey = ChainKey(base: Base, position: nat)
  {
    /** One step of the hash chain: the next state, and the one-time key of this position. */
    function Advance(): (ChainKey, MessageKey) {
      (ChainKey(base, position + 1), MessageKey(base, position))
    }
  }

  datatype MessageKey = MessageKey(base: Base, position: nat)

  datatype Payload = Application(data: seq<bv8>) | Step1(exchange: nat) | Step2(replyTo: nat,
      responder: nat) | Unknown(tag: nat) | Empty

  datatype Body = Sealed(key: MessageKey, epoch: nat, seqNo: nat, payload: Payload) | Forged(id: nat)

  datatype Error =
    | Malformed | UnknownEpoch | Replay | Decrypt | TooManySkippedKeys | WrongState | RatchetInProgress

  function OpenWith(key: MessageKey, epoch: nat, seqNo: nat, body: Body): Result<Payload, Error> {
    if body.Sealed? && body.key == key && body.epoch == epoch && body.seqNo == seqNo then Ok(body.payload)
        else Err(Decrypt)
  }

  datatype RecvChain = RecvChain(epoch: nat, chain: ChainKey, expected: nat, skipped: map<nat, MessageKey>)

  /** A fresh chain. */
  function NewChain(epoch: nat, base: Base): RecvChain {
    RecvChain(epoch, ChainKey(base, 0), 0, map[])
  }

  /** The cached keys are the right ones for numbers already passed, and not too many. */
  ghost predicate ChainOk(c: RecvChain) {
    && c.chain.position == c.expected
    && |c.skipped| <= MAX_SKIPPED_KEYS
    && forall s :: s in c.skipped ==> s < c.expected && c.skipped[s] == MessageKey(c.chain.base, s)
  }

  /** The keys of a stretch of positions. */
  function KeysBetween(base: Base, from: nat, upper: nat): (m: map<nat, MessageKey>)
    requires from <= upper
    ensures forall s :: s in m <==> from <= s < upper
    ensures forall s :: s in m ==> m[s] == MessageKey(base, s)
  {
    map s: nat | from <= s < upper :: MessageKey(base, s)
  }

  predicate TooFarAhead(c: RecvChain, seqNo: nat) {
    seqNo > c.expected && (seqNo - c.expected > MAX_SKIPPED_KEYS
        || |c.skipped| + (seqNo - c.expected) > MAX_SKIPPED_KEYS)
  }

  /** Opening one record on a chain: the chain afterwards and the outcome. */
  function OpenOn(c: RecvChain, seqNo: nat, body: Body): (RecvChain, Result<Payload, Error>) {
    if seqNo < c.expected then
      if seqNo !in c.skipped then (c, Err(Replay))
      else (c.(skipped := c.skipped - {seqNo}), OpenWith(c.skipped[seqNo], c.epoch, seqNo, body))
    else if TooFarAhead(c, seqNo) then (c, Err(TooManySkippedKeys))
    else
      match OpenWith(MessageKey(c.chain.base, seqNo), c.epoch, seqNo, body)
      case Err(e) => (c, Err(e))
      case Ok(p) =>
        (RecvChain(c.epoch, ChainKey(c.chain.base, seqNo + 1), seqNo + 1,
            c.skipped + KeysBetween(c.chain.base, c.expected, seqNo)), Ok(p))
  }

  /** A number whose key is gone: opened, or burned by a forgery. */
  predicate Spent(c: RecvChain, seqNo: nat) {
    seqNo < c.expected && seqNo !in c.skipped
  }

  lemma {:induction false} DisjointSize<K, V>(a: map<K, V>, b: map<K, V>)
    requires a.Keys !! b.Keys
    ensures |a + b| == |a| + |b|
  {
    assert (a + b).Keys == a.Keys + b.Keys;
    assert |a.Keys + b.Keys| == |a.Keys| + |b.Keys|;
  }

  lemma {:induction false} KeysSnoc(base: Base, from: nat, upper: nat)
    requires from <= upper
    ensures KeysBetween(base, from, upper + 1) == KeysBetween(base, from, upper)[upper := MessageKey(base, upper)]
  {
  }

  lemma {:induction false} RangeSize(base: Base, from: nat, upper: nat)
    requires from <= upper
    ensures |KeysBetween(base, from, upper)| == upper - from
    decreases upper
  {
    if from < upper {
      RangeSize(base, from, upper - 1);
      KeysSnoc(base, from, upper - 1);
    }
  }

  /**
   Which records open: exactly the authentic ones whose number is not spent and not
   too far ahead, each to its own payload.
   */
  lemma {:induction false} OpensExactly(c: RecvChain, seqNo: nat, body: Body, payload: Payload)
    requires ChainOk(c)
    ensures OpenOn(c, seqNo, body).1 == Ok(payload) <==>
            body == Sealed(MessageKey(c.chain.base, seqNo), c.epoch, seqNo, payload) && !Spent(c, seqNo)
                && !TooFarAhead(c, seqNo)
  {
  }

  lemma {:induction false} TakenFits(skipped: map<nat, MessageKey>, seqNo: nat)
    ensures |skipped - {seqNo}| <= |skipped|
  {
    assert (skipped - {seqNo}).Keys == skipped.Keys - {seqNo};
    assert |(skipped - {seqNo}).Keys| <= |skipped.Keys|;
  }

  /** A record that is not too far ahead leaves room for the keys it skips. */
  lemma {:induction false} CacheFits(c: RecvChain, seqNo: nat)
    requires ChainOk(c) && c.expected <= seqNo && !TooFarAhead(c, seqNo)
    ensures |c.skipped + KeysBetween(c.chain.base, c.expected, seqNo)| <= MAX_SKIPPED_KEYS
  {
    RangeSize(c.chain.base, c.expected, seqNo);
    DisjointSize(c.skipped, KeysBetween(c.chain.base, c.expected, seqNo));
  }

  /** The record expected next skips nothing. */
  lemma {:induction false} OpenNext(c: RecvChain, body: Body)
    ensures OpenOn(c, c.expected, body)
            == match OpenWith(MessageKey(c.chain.base, c.expected), c.epoch, c.expected, body)
               case Err(e) => (c, Err(e))
               case Ok(p) =>
                 (RecvChain(c.epoch, ChainKey(c.chain.base, c.expected + 1), c.expected + 1, c.skipped), Ok(p))
  {
    assert c.skipped + KeysBetween(c.chain.base, c.expected, c.expected) == c.skipped;
  }

  /**
   What a record changes. The chain stays sound and within the cache bound. A record
   that opens spends exactly its own number; one that fails changes nothing, except
   that naming a cached number removes that one key.
   */
  lemma {:induction false} OpenOnKeeps(c: RecvChain, seqNo: nat, body: Body)
    requires ChainOk(c)
    ensures var (c', r) := OpenOn(c, seqNo, body);
            && ChainOk(c') && c'.epoch == c.epoch && c'.chain.base == c.chain.base && c'.expected >= c.expected
            && (r.Ok? ==> !Spent(c, seqNo) && forall s :: Spent(c', s) <==> Spent(c, s) || s == seqNo)
            && (r.Err? ==> c' == if seqNo in c.skipped then c.(skipped := c.skipped - {seqNo}) else c)
  {
    if seqNo < c.expected {
      TakenFits(c.skipped, seqNo);
    } else if !TooFarAhead(c, seqNo) {
      CacheFits(c, seqNo);
    }
  }

  // ----- runs -----

  datatype Arrival = Arrival(seqNo: nat, body: Body)

  /** The chain after a run of arrivals, and the numbers that yielded a plaintext, in order. */
  function RunChain(c: RecvChain, arrivals: seq<Arrival>): (RecvChain, seq<nat>)
    decreases |arrivals|
  {
    if arrivals == [] then (c, [])
    else
      var n := |arrivals| - 1;
      var before := RunChain(c, arrivals[..n]);
      var step := OpenOn(before.0, arrivals[n].seqNo, arrivals[n].body);
      (step.0, if step.1.Ok? then before.1 + [arrivals[n].seqNo] else before.1)
  }

  /** The cached numbers a failing record named, losing their keys unread. */
  function Burned(c: RecvChain, arrivals: seq<Arrival>): set<nat>
    decreases |arrivals|
  {
    if arrivals == [] then {}
    else
      var n := |arrivals| - 1;
      var before := RunChain(c, arrivals[..n]).0;
      var a := arrivals[n];
      Burned(c, arrivals[..n])
      + if OpenOn(before, a.seqNo, a.body).1.Err? && a.seqNo in before.skipped then {a.seqNo} else {}
  }

  /** A failing record spends its number exactly if the number was cached, and no other. */
  lemma {:induction false} FailureBurns(c: RecvChain, seqNo: nat, body: Body, s: nat)
    requires ChainOk(c) && OpenOn(c, seqNo, body).1.Err?
    ensures Spent(OpenOn(c, seqNo, body).0, s) <==> Spent(c, s) || (s == seqNo && seqNo in c.skipped)
  {
    OpenOnKeeps(c, seqNo, body);
  }

  /**
   Under any run of genuine and forged records each number yields a plaintext at most
   once, the cache stays bounded, and a number is spent exactly if it was opened or
   burned, never both. So the cache holds the keys of exactly the skipped numbers that
   are neither.
   */
  lemma {:induction false} RunOpensOnce(epoch: nat, base: Base, arrivals: seq<Arrival>)
    ensures var (c, numbers) := RunChain(NewChain(epoch, base), arrivals);
            && ChainOk(c) && c.epoch == epoch && c.chain.base == base && NoRepeats(numbers)
            && (forall s :: Spent(c, s) <==> s in numbers || s in Burned(NewChain(epoch, base), arrivals))
            && (forall s :: s in numbers ==> s !in Burned(NewChain(epoch, base), arrivals))
    decreases |arrivals|
  {
    if arrivals != [] {
      var n := |arrivals| - 1;
      RunOpensOnce(epoch, base, arrivals[..n]);
      var (before, numbers) := RunChain(NewChain(epoch, base), arrivals[..n]);
      var a := arrivals[n];
      OpenOnKeeps(before, a.seqNo, a.body);
      if OpenOn(before, a.seqNo, a.body).1.Err? {
        forall s { FailureBurns(before, a.seqNo, a.body, s); }
        assert a.seqNo in before.skipped ==> !Spent(before, a.seqNo);
      }
    }
  }
}
