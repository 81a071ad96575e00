/** A ratcheted session, as functions of its state and as an object (crates/core/src/ratchet.rs). */
module RatchetSession {
  import opened Wrappers
  import opened RatchetChain
  import Erasure

  // ----- records and chunks -----

  /** A record on the wire, or bytes too short for its header. */
  datatype Record = Stub | Record(epoch: nat, seqNo: nat, body: Body)

  datatype ChunkKind = Step1Chunk | Step2Chunk | OtherChunk

  /** A sealed shard is bound to the root, the attempt, the direction and its whole header. */
  datatype ShardBody =
    | SealedShard(root: Root, kind: ChunkKind, attempt: nat, index: nat, data: nat, parity: nat, payload: Payload)
    | ForgedShard(id: nat)

  datatype Chunk = Chunk(kind: ChunkKind, attempt: nat, index: nat, data: nat, parity: nat, body: ShardBody)

  predicate ShardOpens(root: Root, c: Chunk) {
    && c.body.SealedShard? && c.body.root == root && c.body.kind == c.kind && c.body.attempt == c.attempt
    && c.body.index == c.index && c.body.data == c.data && c.body.parity == c.parity
  }

  function BuildChunks(root: Root, kind: ChunkKind, attempt: nat, payload: Payload, data: nat,
      parity: nat): (r: seq<Chunk>)
    ensures |r| == data + parity
    ensures forall i :: 0 <= i < |r|
                ==> r[i] == Chunk(kind, attempt, i, data, parity,
                    SealedShard(root, kind, attempt, i, data, parity, payload))
  {
    seq(data + parity, i requires 0 <= i < data + parity => Chunk(kind, attempt, i, data, parity,
        SealedShard(root, kind, attempt, i, data, parity, payload)))
  }

  /**
   What has arrived of one attempt. The payload stands for the declared length and checksum that every chunk
   repeats.
   */
  datatype Slot = Slot(attempt: nat, data: nat, parity: nat, payload: Payload, got: set<nat>)

  /** Files an opened chunk: the slot afterwards, and the payload once enough different shards are there. */
  function Accumulate(slot: Option<Slot>, c: Chunk): (Option<Slot>, Result<Option<Payload>, Error>)
    requires c.body.SealedShard?
  {
    if c.index >= c.data + c.parity then (slot, Err(Malformed))
    else
      var acc := if slot.Some? && slot.value.attempt == c.attempt then slot.value
          else Slot(c.attempt, c.data, c.parity, c.body.payload, {});
      if acc.data != c.data || acc.parity != c.parity || acc.payload != c.body.payload then (Some(acc), Err(Malformed))
      else
        var got := acc.got + {c.index};
        if |got| < c.data then (Some(acc.(got := got)), Ok(None))
        else if !Erasure.CountsOk(c.data, c.parity) then (None, Err(Malformed))
        else (None, Ok(Some(c.body.payload)))
  }

  // ----- the session as a value -----

  datatype Session =
    Session(root: Root, sendEpoch: nat, sendChain: ChainKey, sendSeq: nat, current: RecvChain,
        previous: Option<RecvChain>,
            pending: Option<nat>, pendingEpoch: nat, slot1: Option<Slot>, slot2: Option<Slot>, last1: Option<nat>,
                last2: Option<nat>)

  datatype Opened = Delivered(data: seq<bv8>) | RatchetAdvanced(reply: Option<Record>)

  datatype ChunkOutcome = StillAccumulating | Step1Complete(reply: seq<Chunk>) | Step2Complete

  function NewSession(root: Root, isInitiator: bool): Session {
    var send, recv := if isInitiator then FromInitiator else FromResponder, if isInitiator then FromResponder
        else FromInitiator;
    Session(root, 0, ChainKey(Epoch0(root, send), 0), 0, NewChain(0, Epoch0(root, recv)), None, None, 0, None, None,
        None, None)
  }

  function SealPayload(s: Session, payload: Payload): (Session, Record) {
    var (next, key) := s.sendChain.Advance();
    (s.(sendChain := next, sendSeq := s.sendSeq + 1),
        Record(s.sendEpoch, s.sendSeq, Sealed(key, s.sendEpoch, s.sendSeq, payload)))
  }

  function InitiateRatchet(s: Session, exchange: nat): (Session, Result<Record, Error>) {
    if s.pending.Some? then (s, Err(RatchetInProgress))
    else
      var (s', record) := SealPayload(s, Step1(exchange));
      (s'.(pending := Some(exchange), pendingEpoch := s'.sendEpoch), Ok(record))
  }

  function InitiateIncremental(s: Session, exchange: nat, attempt: nat, data: nat, parity: nat): (Session,
      Result<seq<Chunk>, Error>) {
    if s.pending.Some? then (s, Err(RatchetInProgress))
    else if !Erasure.CountsOk(data, parity) then (s, Err(Malformed))
    else (s.(pending := Some(exchange), pendingEpoch := s.sendEpoch),
        Ok(BuildChunks(s.root, Step1Chunk, attempt, Step1(exchange), data, parity)))
  }

  /** The secret the initiator of `exchange` computes from a reply. */
  function Finish(exchange: nat, replyTo: nat, responder: nat): Secret {
    if replyTo == exchange then Shared(exchange, responder) else Mismatched(exchange, replyTo, responder)
  }

  function AdvanceEpoch(s: Session, oldEpoch: nat, secret: Secret, isInitiator: bool): Session {
    var i2r, r2i := StepBase(s.root, secret, FromInitiator), StepBase(s.root, secret, FromResponder);
    var send, recv := if isInitiator then i2r else r2i, if isInitiator then r2i else i2r;
    s.(root := NextRoot(s.root, secret), sendEpoch := oldEpoch + 1, sendChain := ChainKey(send, 0), sendSeq := 0,
       current := NewChain(oldEpoch + 1, recv), previous := Some(s.current))
  }

  function HandleStep1(s: Session, epoch: nat, exchange: nat, responder: nat): (Session, Result<Record, Error>) {
    if s.pending.Some? then (s, Err(RatchetInProgress))
    else if epoch != s.sendEpoch then (s, Err(WrongState))
    else
      var (s', reply) := SealPayload(s, Step2(exchange, responder));
      (AdvanceEpoch(s', epoch, Shared(exchange, responder), false), Ok(reply))
  }

  function HandleStep2(s: Session, epoch: nat, replyTo: nat, responder: nat): (Session, Result<(), Error>) {
    if s.pending.None? || s.pendingEpoch != epoch then (s, Err(WrongState))
    else (AdvanceEpoch(s.(pending := None), epoch, Finish(s.pending.value, replyTo, responder), true), Ok(()))
  }

  /** Decrypting a record on whichever chain has its epoch. */
  function Decrypted(s: Session, epoch: nat, seqNo: nat, body: Body): (Session, Result<Payload, Error>) {
    if epoch == s.current.epoch then
      var (c, r) := OpenOn(s.current, seqNo, body);
      (s.(current := c), r)
    else if s.previous.Some? && s.previous.value.epoch == epoch then
      var (c, r) := OpenOn(s.previous.value, seqNo, body);
      (s.(previous := Some(c)), r)
    else (s, Err(UnknownEpoch))
  }

  /** Acting on a decrypted payload; `responder` is the randomness an answered step would draw. */
  function Act(s: Session, epoch: nat, payload: Payload, responder: nat): (Session, Result<Opened, Error>) {
    match payload
    case Empty => (s, Err(Malformed))
    case Unknown(_) => (s, Err(Malformed))
    case Application(data) => (s, Ok(Delivered(data)))
    case Step1(exchange) =>
      var (s', r) := HandleStep1(s, epoch, exchange, responder);
      (s', match r case Ok(reply) => Ok(RatchetAdvanced(Some(reply))) case Err(e) => Err(e))
    case Step2(replyTo, j) =>
      var (s', r) := HandleStep2(s, epoch, replyTo, j);
      (s', match r case Ok(_) => Ok(RatchetAdvanced(None)) case Err(e) => Err(e))
  }

  function Open(s: Session, record: Record, responder: nat): (Session, Result<Opened, Error>) {
    match record
    case Stub => (s, Err(Malformed))
    case Record(epoch, seqNo, body) =>
      var (s', r) := Decrypted(s, epoch, seqNo, body);
      match r
      case Err(e) => (s', Err(e))
      case Ok(payload) => Act(s', epoch, payload, responder)
  }

  function OpenChunk(s: Session, c: Chunk, responder: nat, replyAttempt: nat): (Session, Result<ChunkOutcome, Error>) {
    match c.kind
    case OtherChunk => (s, Err(Malformed))
    case Step1Chunk => OpenStep1Chunk(s, c, responder, replyAttempt)
    case Step2Chunk => OpenStep2Chunk(s, c)
  }

  function OpenStep1Chunk(s: Session, c: Chunk, responder: nat, replyAttempt: nat): (Session,
      Result<ChunkOutcome, Error>) {
    if s.last1 == Some(c.attempt) then (s, Ok(StillAccumulating))
    else if s.pending.Some? then (s, Err(RatchetInProgress))
    else if !ShardOpens(s.root, c) then (s, Err(Decrypt))
    else
      var (slot, r) := Accumulate(s.slot1, c);
      var s' := s.(slot1 := slot);
      match r
      case Err(e) => (s', Err(e))
      case Ok(None) => (s', Ok(StillAccumulating))
      case Ok(Some(payload)) =>
        if !payload.Step1? then (s', Err(Malformed))
        else
          var reply := BuildChunks(s.root, Step2Chunk, replyAttempt, Step2(payload.exchange, responder), c.data,
              c.parity);
          (AdvanceEpoch(s', s'.sendEpoch, Shared(payload.exchange, responder), false).(last1 := Some(c.attempt)),
              Ok(Step1Complete(reply)))
  }

  function OpenStep2Chunk(s: Session, c: Chunk): (Session, Result<ChunkOutcome, Error>) {
    if s.last2 == Some(c.attempt) then (s, Ok(StillAccumulating))
    else if s.pending.None? then (s, Err(WrongState))
    else if !ShardOpens(s.root, c) then (s, Err(Decrypt))
    else
      var (slot, r) := Accumulate(s.slot2, c);
      var s' := s.(slot2 := slot);
      match r
      case Err(e) => (s', Err(e))
      case Ok(None) => (s', Ok(StillAccumulating))
      case Ok(Some(payload)) =>
        if !payload.Step2? then (s', Err(Malformed))
        else
          var secret := Finish(s.pending.value, payload.replyTo, payload.responder);
          (AdvanceEpoch(s'.(pending := None), s'.sendEpoch, secret, true).(last2 := Some(c.attempt)), Ok(Step2Complete))
  }

  // ----- what every step keeps of one session -----

  function Depth(r: Root): nat {
    match r
    case Handshake(_) => 0
    case NextRoot(before, _) => Depth(before) + 1
  }

  /** Epochs, chains and the pending step of one session fit together. */
  ghost predicate SessionOk(s: Session) {
    && s.current.epoch == s.sendEpoch && ChainOk(s.current)
    && (s.previous.Some? ==> s.previous.value.epoch + 1 == s.sendEpoch && ChainOk(s.previous.value))
    && (s.sendEpoch > 0 ==> s.previous.Some?)
    && (s.pending.Some? ==> s.pendingEpoch == s.sendEpoch)
    && s.sendChain.position == s.sendSeq && Depth(s.root) == s.sendEpoch
  }

  lemma {:induction false} NewSessionOk(root: Root, isInitiator: bool)
    requires root.Handshake?
    ensures SessionOk(NewSession(root, isInitiator))
  {
  }

  lemma {:induction false} DecryptedOk(s: Session, epoch: nat, seqNo: nat, body: Body)
    requires SessionOk(s)
    ensures SessionOk(Decrypted(s, epoch, seqNo, body).0)
  {
    OpenOnKeeps(s.current, seqNo, body);
    if s.previous.Some? {
      OpenOnKeeps(s.previous.value, seqNo, body);
    }
  }

  lemma {:induction false} OpenOk(s: Session, record: Record, responder: nat)
    requires SessionOk(s)
    ensures SessionOk(Open(s, record, responder).0)
  {
    if record.Record? {
      DecryptedOk(s, record.epoch, record.seqNo, record.body);
    }
  }

  lemma {:induction false} Step1ChunkOk(s: Session, c: Chunk, responder: nat, replyAttempt: nat)
    requires SessionOk(s)
    ensures SessionOk(OpenStep1Chunk(s, c, responder, replyAttempt).0)
  {
  }

  lemma {:induction false} Step2ChunkOk(s: Session, c: Chunk)
    requires SessionOk(s)
    ensures SessionOk(OpenStep2Chunk(s, c).0)
  {
  }

  lemma {:induction false} OpenChunkOk(s: Session, c: Chunk, responder: nat, replyAttempt: nat)
    requires SessionOk(s)
    ensures SessionOk(OpenChunk(s, c, responder, replyAttempt).0)
  {
    Step1ChunkOk(s, c, responder, replyAttempt);
    Step2ChunkOk(s, c);
  }

  /** What a session can no longer yield for an epoch and number: opened, burned, or of an epoch left behind. */
  ghost predicate Gone(s: Session, epoch: nat, seqNo: nat) {
    if epoch == s.current.epoch then Spent(s.current, seqNo)
    else if s.previous.Some? && s.previous.value.epoch == epoch then Spent(s.previous.value, seqNo)
    else epoch < s.current.epoch
  }

  lemma {:induction false} DecryptedSpends(s: Session, epoch: nat, seqNo: nat, body: Body, e: nat, n: nat)
    requires SessionOk(s)
    ensures var (s', r) := Decrypted(s, epoch, seqNo, body);
            && (Gone(s, e, n) ==> Gone(s', e, n))
            && (r.Ok? ==> !Gone(s, epoch, seqNo) && Gone(s', epoch, seqNo))
  {
    OpenOnKeeps(s.current, seqNo, body);
    if s.previous.Some? {
      OpenOnKeeps(s.previous.value, seqNo, body);
    }
  }

  /** Moving to the next epoch forgets nothing that was gone. */
  lemma {:induction false} AdvanceGone(s: Session, secret: Secret, isInitiator: bool, e: nat, n: nat)
    requires SessionOk(s) && Gone(s, e, n)
    ensures Gone(AdvanceEpoch(s, s.sendEpoch, secret, isInitiator), e, n)
  {
  }

  /** A record yields its payload only if its epoch and number were still to come, and never again afterwards. */
  lemma {:induction false} OpenSpends(s: Session, record: Record, responder: nat, e: nat, n: nat)
    requires SessionOk(s)
    ensures var (s', r) := Open(s, record, responder);
            && (Gone(s, e, n) ==> Gone(s', e, n))
            && (r.Ok? ==> record.Record? && !Gone(s, record.epoch, record.seqNo)
                          && Gone(s', record.epoch, record.seqNo))
  {
    if record.Record? {
      DecryptedOk(s, record.epoch, record.seqNo, record.body);
      DecryptedSpends(s, record.epoch, record.seqNo, record.body, e, n);
      var (s1, r) := Decrypted(s, record.epoch, record.seqNo, record.body);
      if r.Ok? {
        ActKeepsGone(s1, record.epoch, r.value, responder, e, n);
        ActKeepsGone(s1, record.epoch, r.value, responder, record.epoch, record.seqNo);
      }
    }
  }

  lemma {:induction false} ActKeepsGone(s: Session, epoch: nat, payload: Payload, responder: nat, e: nat, n: nat)
    requires SessionOk(s)
    ensures Gone(s, e, n) ==> Gone(Act(s, epoch, payload, responder).0, e, n)
  {
  }

  lemma {:induction false} OpenChunkKeepsGone(s: Session, c: Chunk, responder: nat, replyAttempt: nat, e: nat, n: nat)
    requires SessionOk(s) && Gone(s, e, n)
    ensures Gone(OpenChunk(s, c, responder, replyAttempt).0, e, n)
  {
  }

  // ----- runs of one session -----

  /** Anything a caller can do with a session, with the randomness it would draw. */
  datatype Call =
    | CallSeal(payload: Payload)
    | CallInitiate(exchange: nat)
    | CallIncremental(newExchange: nat, attempt: nat, data: nat, parity: nat)
    | CallOpen(record: Record, responder: nat)
    | CallOpenChunk(chunk: Chunk, chunkResponder: nat, replyAttempt: nat)

  function Do(s: Session, call: Call): Session {
    match call
    case CallSeal(payload) => SealPayload(s, payload).0
    case CallInitiate(exchange) => InitiateRatchet(s, exchange).0
    case CallIncremental(exchange, attempt, data, parity) => InitiateIncremental(s, exchange, attempt, data, parity).0
    case CallOpen(record, responder) => Open(s, record, responder).0
    case CallOpenChunk(chunk, responder, replyAttempt) => OpenChunk(s, chunk, responder, replyAttempt).0
  }

  /** The record a call opens, as its epoch and number. */
  function Yields(s: Session, call: Call): Option<(nat, nat)> {
    if call.CallOpen? && call.record.Record?
        && Open(s, call.record, call.responder).1.Ok? then Some((call.record.epoch, call.record.seqNo)) else None
  }

  lemma {:induction false} DoKeeps(s: Session, call: Call, e: nat, n: nat)
    requires SessionOk(s)
    ensures SessionOk(Do(s, call)) && (Gone(s, e, n) ==> Gone(Do(s, call), e, n))
    ensures Yields(s, call).Some? ==> var (x, y) := Yields(s, call).value; !Gone(s, x, y) && Gone(Do(s, call), x, y)
  {
    match call {
      case CallOpen(record, responder) =>
        OpenOk(s, record, responder);
        OpenSpends(s, record, responder, e, n);
      case CallOpenChunk(chunk, responder, replyAttempt) =>
        OpenChunkOk(s, chunk, responder, replyAttempt);
        if Gone(s, e, n) { OpenChunkKeepsGone(s, chunk, responder, replyAttempt, e, n); }
      case _ =>
    }
  }

  /** The session after a run, and the records that opened, in order. */
  function RunSession(s: Session, calls: seq<Call>): (Session, seq<(nat, nat)>)
    decreases |calls|
  {
    if calls == [] then (s, [])
    else
      var n := |calls| - 1;
      var before := RunSession(s, calls[..n]);
      var yielded := Yields(before.0, calls[n]);
      (Do(before.0, calls[n]), if yielded.Some? then before.1 + [yielded.value] else before.1)
  }

  ghost predicate AllGone(s: Session, log: seq<(nat, nat)>) {
    forall k :: 0 <= k < |log| ==> Gone(s, log[k].0, log[k].1)
  }

  /** Over any run of calls, epoch changes included, each (epoch, number) yields a plaintext at most once. */
  lemma {:induction false} RunYieldsOnce(s: Session, calls: seq<Call>)
    requires SessionOk(s)
    ensures var (end, log) := RunSession(s, calls);
            SessionOk(end) && AllGone(end, log) && forall i, j :: 0 <= i < j < |log| ==> log[i] != log[j]
    decreases |calls|
  {
    if calls != [] {
      var n := |calls| - 1;
      RunYieldsOnce(s, calls[..n]);
      var (before, log) := RunSession(s, calls[..n]);
      DoKeeps(before, calls[n], 0, 0);
      forall k | 0 <= k < |log| ensures Gone(Do(before, calls[n]), log[k].0, log[k].1) {
        DoKeeps(before, calls[n], log[k].0, log[k].1);
      }
    }
  }

  // ----- the session as an object -----

  class RatchetedSession {
    var root: Root
    var sendEpoch: nat
    var sendChain: ChainKey
    var sendSeq: nat
    var current: RecvChain
    var previous: Option<RecvChain>
    var pending: Option<nat>
    var pendingEpoch: nat
    var slot1: Option<Slot>
    var slot2: Option<Slot>
    var last1: Option<nat>
    var last2: Option<nat>

    function View(): Session
      reads this
    {
      Session(root, sendEpoch, sendChain, sendSeq, current, previous, pending, pendingEpoch, slot1, slot2, last1, last2)
    }

    ghost predicate Valid()
      reads this
    {
      SessionOk(View())
    }

    constructor (sessionRoot: Root, isInitiator: bool)
      requires sessionRoot.Handshake?
      ensures Valid() && View() == NewSession(sessionRoot, isInitiator)
    {
      root := sessionRoot;
      sendEpoch := 0;
      sendChain := ChainKey(Epoch0(sessionRoot, if isInitiator then FromInitiator else FromResponder), 0);
      sendSeq := 0;
      current := NewChain(0, Epoch0(sessionRoot, if isInitiator then FromResponder else FromInitiator));
      previous := None;
      pending := None;
      pendingEpoch := 0;
      slot1, slot2, last1, last2 := None, None, None, None;
    }

    method Seal(payload: Payload) returns (record: Record)
      modifies this`sendChain, this`sendSeq
      ensures (View(), record) == old(SealPayload(View(), payload))
    {
      var (next, key) := sendChain.Advance();
      var epoch, seqNo := sendEpoch, sendSeq;
      sendSeq := sendSeq + 1;
      sendChain := next;
      record := Record(epoch, seqNo, Sealed(key, epoch, seqNo, payload));
    }

    method Initiate(exchange: nat) returns (r: Result<Record, Error>)
      modifies this
      ensures (View(), r) == old(InitiateRatchet(View(), exchange))
    {
      if pending.Some? {
        return Err(RatchetInProgress);
      }
      var record := Seal(Step1(exchange));
      pending := Some(exchange);
      pendingEpoch := sendEpoch;
      return Ok(record);
    }

    method Advance(oldEpoch: nat, secret: Secret, isInitiator: bool)
      modifies this
      ensures View() == old(AdvanceEpoch(View(), oldEpoch, secret, isInitiator))
    {
      var i2r, r2i := StepBase(root, secret, FromInitiator), StepBase(root, secret, FromResponder);
      var newEpoch := oldEpoch + 1;
      root := NextRoot(root, secret);
      sendEpoch := newEpoch;
      sendChain := ChainKey(if isInitiator then i2r else r2i, 0);
      sendSeq := 0;
      var oldCurrent := current;
      current := NewChain(newEpoch, if isInitiator then r2i else i2r);
      previous := Some(oldCurrent);
    }

    method AnswerStep1(epoch: nat, exchange: nat, responder: nat) returns (r: Result<Record, Error>)
      modifies this
      ensures (View(), r) == old(HandleStep1(View(), epoch, exchange, responder))
    {
      if pending.Some? {
        return Err(RatchetInProgress);
      }
      if epoch != sendEpoch {
        return Err(WrongState);
      }
      var reply := Seal(Step2(exchange, responder));
      Advance(epoch, Shared(exchange, responder), false);
      return Ok(reply);
    }

    method CompleteStep2(epoch: nat, replyTo: nat, responder: nat) returns (r: Result<(), Error>)
      modifies this
      ensures (View(), r) == old(HandleStep2(View(), epoch, replyTo, responder))
    {
      if pending.None? || pendingEpoch != epoch {
        return Err(WrongState);
      }
      var exchange := pending.value;
      pending := None;
      Advance(epoch, Finish(exchange, replyTo, responder), true);
      return Ok(());
    }

    /** Walks a copy of the chain up to a later position, collecting the keys passed over. */
    method WalkTo(c: RecvChain, seqNo: nat) returns (chain: ChainKey, newly: map<nat, MessageKey>)
      requires ChainOk(c) && c.expected <= seqNo
      ensures chain == ChainKey(c.chain.base, seqNo) && newly == KeysBetween(c.chain.base, c.expected, seqNo)
    {
      chain := c.chain;
      newly := map[];
      for s := c.expected to seqNo
        invariant chain == ChainKey(c.chain.base, s)
        invariant newly == KeysBetween(c.chain.base, c.expected, s)
      {
        KeysSnoc(c.chain.base, c.expected, s);
        var (next, key) := chain.Advance();
        newly := newly[s := key];
        chain := next;
      }
    }

    /** One record on one chain, walking the chain key by key up to the record's number. */
    method OpenOnChain(c: RecvChain, seqNo: nat, body: Body) returns (c': RecvChain, r: Result<Payload, Error>)
      requires ChainOk(c)
      ensures (c', r) == OpenOn(c, seqNo, body)
    {
      c' := c;
      if seqNo < c.expected {
        if seqNo !in c.skipped {
          return c, Err(Replay);
        }
        var key := c.skipped[seqNo];
        c' := c.(skipped := c.skipped - {seqNo});
        r := OpenWith(key, c.epoch, seqNo, body);
      } else if seqNo == c.expected {
        OpenNext(c, body);
        var (next, key) := c.chain.Advance();
        r := OpenWith(key, c.epoch, seqNo, body);
        if r.Ok? {
          c' := c.(chain := next, expected := c.expected + 1);
        }
      } else {
        var skip := seqNo - c.expected;
        if skip > MAX_SKIPPED_KEYS || |c.skipped| + skip > MAX_SKIPPED_KEYS {
          return c, Err(TooManySkippedKeys);
        }
        var chain, newly := WalkTo(c, seqNo);
        var (next, key) := chain.Advance();
        r := OpenWith(key, c.epoch, seqNo, body);
        if r.Ok? {
          c' := RecvChain(c.epoch, next, seqNo + 1, c.skipped + newly);
        }
      }
    }

    method OpenRecord(record: Record, responder: nat) returns (r: Result<Opened, Error>)
      requires Valid()
      modifies this
      ensures Valid() && (View(), r) == old(Open(View(), record, responder))
    {
      OpenOk(View(), record, responder);
      if record.Stub? {
        return Err(Malformed);
      }
      var epoch, seqNo, body := record.epoch, record.seqNo, record.body;
      var plaintext: Result<Payload, Error>;
      if epoch == current.epoch {
        current, plaintext := OpenOnChain(current, seqNo, body);
      } else if previous.Some? && previous.value.epoch == epoch {
        var c;
        c, plaintext := OpenOnChain(previous.value, seqNo, body);
        previous := Some(c);
      } else {
        return Err(UnknownEpoch);
      }
      if plaintext.Err? {
        return Err(plaintext.error);
      }
      var payload := plaintext.value;
      if payload.Empty? || payload.Unknown? {
        return Err(Malformed);
      } else if payload.Application? {
        return Ok(Delivered(payload.data));
      } else if payload.Step1? {
        var reply := AnswerStep1(epoch, payload.exchange, responder);
        return if reply.Ok? then Ok(RatchetAdvanced(Some(reply.value))) else Err(reply.error);
      } else {
        var done := CompleteStep2(epoch, payload.replyTo, payload.responder);
        return if done.Ok? then Ok(RatchetAdvanced(None)) else Err(done.error);
      }
    }
  }
}
