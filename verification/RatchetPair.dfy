/**
 Two sessions over a network that loses, repeats and reorders records and chunks and
 injects forgeries (crates/core/src/ratchet.rs). Every interleaving of sealing,
 one-shot and incremental initiation and delivery is a run.
 */
module RatchetPair {
  import opened Wrappers
  import opened RatchetChain
  import opened RatchetSession
  import Erasure

  /** One side and everything it has ever put on the network. */
  datatype Party = Party(session: Session, sent: set<Record>, chunks: set<Chunk>)

  datatype Pair = Pair(x: Party, y: Party)

  function Swap(p: Pair): Pair { Pair(p.y, p.x) }

  // ----- how the two sides relate -----

  /** Same epoch: one root, and each side's send chain is the other's receive chain. */
  ghost predicate Same(x: Session, y: Session) {
    && x.sendEpoch == y.sendEpoch && x.root == y.root
    && x.sendChain.base == y.current.chain.base && y.sendChain.base == x.current.chain.base
  }

  /** `x` is one epoch behind: `y` has answered the exchange `x` still has pending, and keeps the chain `x` sends on. */
  ghost predicate Behind(x: Session, y: Session) {
    && y.sendEpoch == x.sendEpoch + 1 && x.pending.Some? && y.previous.Some?
    && y.root.NextRoot? && y.root.root == x.root && y.root.secret.Shared? && y.root.secret.initiator == x.pending.value
    && y.sendChain.base == StepBase(x.root, y.root.secret, FromResponder)
    && y.current.chain.base == StepBase(x.root, y.root.secret, FromInitiator)
    && y.previous.value.chain.base == x.sendChain.base
  }

  /** `y` has answered exchange `k` of `x` with randomness `j`, and `x` has not completed it. */
  ghost predicate Answered(x: Session, y: Session, k: nat, j: nat) {
    x.pending == Some(k) && y.root == NextRoot(x.root, Shared(k, j))
  }

  /** What is true of every record `x` has sent, for the receiver `y`. */
  ghost predicate RecordFrom(x: Session, y: Session, r: Record) {
    && r.Record? && r.body.Sealed? && r.body.epoch == r.epoch && r.body.seqNo == r.seqNo
        && r.body.key.position == r.seqNo
    && r.epoch <= x.sendEpoch
    && (r.epoch == x.sendEpoch ==> r.body.key.base == x.sendChain.base && r.seqNo < x.sendSeq)
    && (r.epoch == y.current.epoch ==> r.body.key.base == y.current.chain.base)
    && (y.previous.Some? && r.epoch == y.previous.value.epoch ==> r.body.key.base == y.previous.value.chain.base)
    && (r.body.payload.Step1? && r.epoch == x.sendEpoch ==> x.pending == Some(r.body.payload.exchange))
    && (r.body.payload.Step2? ==>
          r.epoch < x.sendEpoch && (r.epoch == y.sendEpoch
              ==> Answered(y, x, r.body.payload.replyTo, r.body.payload.responder)))
  }

  /** What is true of every chunk `x` has sent, for the receiver `y`. */
  ghost predicate ChunkFrom(x: Session, y: Session, c: Chunk) {
    && c.body.SealedShard? && ShardOpens(c.body.root, c) && Depth(c.body.root) <= x.sendEpoch
    && (c.body.payload.Step1? && c.body.root == x.root ==> x.pending == Some(c.body.payload.exchange))
    && (c.body.payload.Step2? ==>
          Depth(c.body.root) < x.sendEpoch
              && (c.body.root == y.root ==> Answered(y, x, c.body.payload.replyTo, c.body.payload.responder)))
  }

  ghost predicate Half(x: Party, y: Party) {
    && SessionOk(x.session)
    && (forall r :: r in x.sent ==> RecordFrom(x.session, y.session, r))
    && (forall c :: c in x.chunks ==> ChunkFrom(x.session, y.session, c))
  }

  ghost predicate Linked(x: Session, y: Session) {
    Same(x, y) || Behind(x, y) || Behind(y, x)
  }

  /**
   How far `y` has read what `x` sends: never past the last number `x` has used in its
   epoch, and not at all in an epoch `x` has yet to reach.
   */
  ghost predicate Paced(x: Session, y: Session) {
    && (x.sendEpoch == y.current.epoch ==> y.current.expected <= x.sendSeq)
    && (y.previous.Some? && y.previous.value.epoch == x.sendEpoch ==> y.previous.value.expected <= x.sendSeq)
    && (x.sendEpoch < y.current.epoch ==> y.current.expected == 0)
  }

  ghost predicate PairInv(p: Pair) {
    && Half(p.x, p.y) && Half(p.y, p.x) && Linked(p.x.session, p.y.session)
    && Paced(p.x.session, p.y.session) && Paced(p.y.session, p.x.session)
  }

  lemma {:induction false} SwapInv(p: Pair)
    requires PairInv(p)
    ensures PairInv(Swap(p))
  {
  }

  // ----- steps -----

  /** What one side does, with the randomness it draws. */
  datatype Move =
    | MoveSeal(data: seq<bv8>)
    | MoveInitiate(exchange: nat)
    | MoveIncremental(newExchange: nat, attempt: nat, dataShards: nat, parity: nat)
    | MoveOpen(record: Record, responder: nat)
    | MoveOpenChunk(chunk: Chunk, chunkResponder: nat, replyAttempt: nat)

  /** What the network can deliver: anything the peer ever sent, any number of times and in any order, or a forgery. */
  predicate Deliverable(from: Party, move: Move) {
    match move
    case MoveOpen(record, _) => record in from.sent || record.Stub? || record.body.Forged?
    case MoveOpenChunk(chunk, _, _) => chunk in from.chunks || chunk.body.ForgedShard?
    case _ => true
  }

  function Move1(x: Party, move: Move): Party {
    match move
    case MoveSeal(data) =>
      var (s, record) := SealPayload(x.session, Application(data));
      Party(s, x.sent + {record}, x.chunks)
    case MoveInitiate(exchange) =>
      var (s, r) := InitiateRatchet(x.session, exchange);
      Party(s, if r.Ok? then x.sent + {r.value} else x.sent, x.chunks)
    case MoveIncremental(exchange, attempt, data, parity) =>
      var (s, r) := InitiateIncremental(x.session, exchange, attempt, data, parity);
      Party(s, x.sent, if r.Ok? then x.chunks + (set c | c in r.value) else x.chunks)
    case MoveOpen(record, responder) =>
      var (s, r) := Open(x.session, record, responder);
      Party(s, if r.Ok? && r.value.RatchetAdvanced? && r.value.reply.Some? then x.sent + {r.value.reply.value}
          else x.sent, x.chunks)
    case MoveOpenChunk(chunk, responder, replyAttempt) =>
      var (s, r) := OpenChunk(x.session, chunk, responder, replyAttempt);
      Party(s, x.sent, if r.Ok? && r.value.Step1Complete? then x.chunks + (set c | c in r.value.reply) else x.chunks)
  }

  /** A step of the pair: a side and its move. */
  datatype Event = Event(first: bool, move: Move)

  predicate Enabled(p: Pair, e: Event) {
    Deliverable(if e.first then p.y else p.x, e.move)
  }

  function Step(p: Pair, e: Event): Pair {
    if e.first then Pair(Move1(p.x, e.move), p.y) else Pair(p.x, Move1(p.y, e.move))
  }

  // ----- what keeps the invariant -----

  /** Only receive chains, slots and straggler marks differ. */
  ghost predicate ReceivedOnly(s: Session, t: Session) {
    && t.root == s.root && t.sendEpoch == s.sendEpoch && t.sendChain == s.sendChain && t.sendSeq == s.sendSeq
    && t.pending == s.pending && t.pendingEpoch == s.pendingEpoch
    && t.current.epoch == s.current.epoch && t.current.chain.base == s.current.chain.base
    && (t.previous.Some? <==> s.previous.Some?)
    && (s.previous.Some? ==> t.previous.value.epoch == s.previous.value.epoch
                             && t.previous.value.chain.base == s.previous.value.chain.base)
  }

  lemma {:induction false} ReceivedKeeps(p: Pair, t: Session)
    requires PairInv(p) && ReceivedOnly(p.x.session, t) && SessionOk(t) && Paced(p.y.session, t)
    ensures PairInv(p.(x := p.x.(session := t)))
  {
    var x, y := p.x.session, p.y.session;
    forall r | r in p.x.sent ensures RecordFrom(t, y, r) { assert RecordFrom(x, y, r); }
    forall c | c in p.x.chunks ensures ChunkFrom(t, y, c) { assert ChunkFrom(x, y, c); }
    forall r | r in p.y.sent ensures RecordFrom(y, t, r) { assert RecordFrom(y, x, r); }
    forall c | c in p.y.chunks ensures ChunkFrom(y, t, c) { assert ChunkFrom(y, x, c); }
  }

  /** A record just sealed is one the peer can read now or as soon as it catches up. */
  lemma {:induction false} SealedFrom(x: Session, y: Session, payload: Payload)
    requires SessionOk(x) && SessionOk(y) && Linked(x, y) && !payload.Step2?
    requires payload.Step1? ==> x.pending == Some(payload.exchange)
    ensures RecordFrom(SealPayload(x, payload).0, y, SealPayload(x, payload).1)
  {
  }

  /** Sealing: the send chain moves on by one record. */
  lemma {:induction false} SealKeeps(p: Pair, payload: Payload)
    requires PairInv(p) && !payload.Step2? && (payload.Step1? ==> p.x.session.pending == Some(payload.exchange))
    ensures var (s, record) := SealPayload(p.x.session, payload);
            PairInv(p.(x := Party(s, p.x.sent + {record}, p.x.chunks)))
  {
    var x, y := p.x.session, p.y.session;
    var (s, record) := SealPayload(x, payload);
    SealedFrom(x, y, payload);
    forall r | r in p.x.sent ensures RecordFrom(s, y, r) { assert RecordFrom(x, y, r); }
    forall c | c in p.x.chunks ensures ChunkFrom(s, y, c) { assert ChunkFrom(x, y, c); }
    forall r | r in p.y.sent ensures RecordFrom(y, s, r) { assert RecordFrom(y, x, r); }
    forall c | c in p.y.chunks ensures ChunkFrom(y, s, c) { assert ChunkFrom(y, x, c); }
  }

  /** Marking an exchange as pending where none was. */
  lemma {:induction false} PendingKeeps(p: Pair, exchange: nat)
    requires PairInv(p) && p.x.session.pending.None?
    ensures PairInv(p.(x := p.x.(session := p.x.session.(pending := Some(exchange),
            pendingEpoch := p.x.session.sendEpoch))))
  {
    var x, y := p.x.session, p.y.session;
    var t := x.(pending := Some(exchange), pendingEpoch := x.sendEpoch);
    forall r | r in p.x.sent ensures RecordFrom(t, y, r) { assert RecordFrom(x, y, r); }
    forall c | c in p.x.chunks ensures ChunkFrom(t, y, c) { assert ChunkFrom(x, y, c); }
    forall r | r in p.y.sent ensures RecordFrom(y, t, r) { assert RecordFrom(y, x, r); }
    forall c | c in p.y.chunks ensures ChunkFrom(y, t, c) { assert ChunkFrom(y, x, c); }
  }

  /** Putting chunks of the pending exchange on the network. */
  lemma {:induction false} ChunksKeep(p: Pair, more: set<Chunk>)
    requires PairInv(p) && forall c :: c in more ==> ChunkFrom(p.x.session, p.y.session, c)
    ensures PairInv(p.(x := p.x.(chunks := p.x.chunks + more)))
  {
  }

  /** `t` is `s` moved to the next epoch with the given secret. */
  ghost predicate Advanced(s: Session, t: Session, secret: Secret, isInitiator: bool) {
    && t.root == NextRoot(s.root, secret) && t.sendEpoch == s.sendEpoch + 1
    && t.sendChain == ChainKey(StepBase(s.root, secret, if isInitiator then FromInitiator else FromResponder), 0)
        && t.sendSeq == 0
    && t.current == NewChain(t.sendEpoch,
        StepBase(s.root, secret, if isInitiator then FromResponder else FromInitiator))
    && t.previous == Some(s.current) && t.pending.None?
  }

  /**
   Answering: from the same epoch, with nothing pending here and the exchange pending there, the peer falls
   behind.
   */
  lemma {:induction false} AnswerKeeps(p: Pair, t: Session, k: nat, j: nat)
    requires PairInv(p) && Same(p.x.session, p.y.session) && p.x.session.pending.None? && p.y.session.pending == Some(k)
    requires Advanced(p.x.session, t, Shared(k, j), false)
    ensures PairInv(p.(x := p.x.(session := t))) && Behind(p.y.session, t) && Answered(p.y.session, t, k, j)
  {
    var x, y := p.x.session, p.y.session;
    forall r | r in p.x.sent ensures RecordFrom(t, y, r) { assert RecordFrom(x, y, r); }
    forall c | c in p.x.chunks ensures ChunkFrom(t, y, c) { assert ChunkFrom(x, y, c); }
    forall r | r in p.y.sent ensures RecordFrom(y, t, r) { assert RecordFrom(y, x, r); }
    forall c | c in p.y.chunks ensures ChunkFrom(y, t, c) { assert ChunkFrom(y, x, c); }
  }

  /** Completing: the side that was behind catches up, to the same root and matching chains. */
  lemma {:induction false} CompleteKeeps(p: Pair, t: Session, k: nat, j: nat)
    requires PairInv(p) && Behind(p.x.session, p.y.session) && Answered(p.x.session, p.y.session, k, j)
    requires Advanced(p.x.session, t, Shared(k, j), true)
    ensures PairInv(p.(x := p.x.(session := t))) && Same(t, p.y.session)
  {
    var x, y := p.x.session, p.y.session;
    forall r | r in p.x.sent ensures RecordFrom(t, y, r) { assert RecordFrom(x, y, r); }
    forall c | c in p.x.chunks ensures ChunkFrom(t, y, c) { assert ChunkFrom(x, y, c); }
    forall r | r in p.y.sent ensures RecordFrom(y, t, r) { assert RecordFrom(y, x, r); }
    forall c | c in p.y.chunks ensures ChunkFrom(y, t, c) { assert ChunkFrom(y, x, c); }
  }

  // ----- moves -----

  lemma {:induction false} InitiateKeeps(p: Pair, exchange: nat)
    requires PairInv(p)
    ensures PairInv(p.(x := Move1(p.x, MoveInitiate(exchange))))
  {
    if p.x.session.pending.None? {
      PendingKeeps(p, exchange);
      var q := p.(x := p.x.(session := p.x.session.(pending := Some(exchange), pendingEpoch := p.x.session.sendEpoch)));
      SealKeeps(q, Step1(exchange));
    }
  }

  lemma {:induction false} IncrementalKeeps(p: Pair, exchange: nat, attempt: nat, data: nat, parity: nat)
    requires PairInv(p)
    ensures PairInv(p.(x := Move1(p.x, MoveIncremental(exchange, attempt, data, parity))))
  {
    if p.x.session.pending.None? && Erasure.CountsOk(data, parity) {
      PendingKeeps(p, exchange);
      var q := p.(x := p.x.(session := p.x.session.(pending := Some(exchange), pendingEpoch := p.x.session.sendEpoch)));
      var chunks := BuildChunks(p.x.session.root, Step1Chunk, attempt, Step1(exchange), data, parity);
      ChunksKeep(q, set c | c in chunks);
    }
  }

  lemma {:induction false} DecryptedReceives(s: Session, epoch: nat, seqNo: nat, body: Body)
    requires SessionOk(s)
    ensures ReceivedOnly(s, Decrypted(s, epoch, seqNo, body).0)
  {
    OpenOnKeeps(s.current, seqNo, body);
    if s.previous.Some? {
      OpenOnKeeps(s.previous.value, seqNo, body);
    }
  }

  lemma {:induction false} OpenOnYields(c: RecvChain, seqNo: nat, body: Body)
    ensures OpenOn(c, seqNo, body).1.Ok? ==> body.Sealed? && OpenOn(c, seqNo, body).1.value == body.payload
  {
  }

  /** Reading a record of the peer, or refusing a forgery, never gets ahead of the peer. */
  lemma {:induction false} DecryptedPaced(p: Pair, record: Record)
    requires PairInv(p) && record.Record? && (record in p.y.sent || record.body.Forged?)
    ensures Paced(p.y.session, Decrypted(p.x.session, record.epoch, record.seqNo, record.body).0)
  {
    if record in p.y.sent {
      assert RecordFrom(p.y.session, p.x.session, record);
    }
  }

  /** A record of the peer that decrypts carries what the peer sealed; a forgery never decrypts. */
  lemma {:induction false} DecryptedFrom(s: Session, record: Record)
    requires SessionOk(s) && record.Record?
    ensures var (t, r) := Decrypted(s, record.epoch, record.seqNo, record.body);
            SessionOk(t) && ReceivedOnly(s, t) && (r.Ok? ==> record.body.Sealed? && r.value == record.body.payload)
  {
    DecryptedOk(s, record.epoch, record.seqNo, record.body);
    DecryptedReceives(s, record.epoch, record.seqNo, record.body);
    OpenOnYields(s.current, record.seqNo, record.body);
    if s.previous.Some? {
      OpenOnYields(s.previous.value, record.seqNo, record.body);
    }
  }

  /** A peer's step 1 that is accepted: the peer is in the same epoch and waiting for exactly this exchange. */
  lemma {:induction false} Step1Keeps(p: Pair, record: Record, responder: nat)
    requires PairInv(p) && record in p.y.sent && record.body.payload.Step1?
    requires p.x.session.pending.None? && record.epoch == p.x.session.sendEpoch
    ensures var (t, r) := HandleStep1(p.x.session, record.epoch, record.body.payload.exchange, responder);
            r.Ok? && PairInv(p.(x := Party(t, p.x.sent + {r.value}, p.x.chunks)))
  {
    var x, y, k := p.x.session, p.y.session, record.body.payload.exchange;
    assert RecordFrom(y, x, record);
    assert Same(x, y);
    var (t, r) := HandleStep1(x, record.epoch, k, responder);
    AnswerKeeps(p, t, k, responder);
    assert r.value.body.key.base == x.sendChain.base == y.current.chain.base;
    assert RecordFrom(t, y, r.value);
  }

  /**
   A peer's step 2 that is accepted: it answers the exchange pending here, and completing it ends in the same
   epoch.
   */
  lemma {:induction false} Step2Keeps(p: Pair, record: Record)
    requires PairInv(p) && record in p.y.sent && record.body.payload.Step2?
    requires p.x.session.pending.Some? && p.x.session.pendingEpoch == record.epoch
    ensures var t := HandleStep2(p.x.session, record.epoch, record.body.payload.replyTo,
            record.body.payload.responder).0;
            PairInv(p.(x := p.x.(session := t))) && Same(t, p.y.session)
  {
    var x, y := p.x.session, p.y.session;
    assert RecordFrom(y, x, record);
    assert Behind(x, y);
    var t := HandleStep2(x, record.epoch, record.body.payload.replyTo, record.body.payload.responder).0;
    CompleteKeeps(p, t, record.body.payload.replyTo, record.body.payload.responder);
  }

  /** A party after acting on a payload it has decrypted. */
  function Acted(x: Party, epoch: nat, payload: Payload, responder: nat): Party {
    var (s, r) := Act(x.session, epoch, payload, responder);
    Party(s,
          if r.Ok? && r.value.RatchetAdvanced? && r.value.reply.Some? then x.sent + {r.value.reply.value} else x.sent,
          x.chunks)
  }

  lemma {:induction false} ActKeeps(p: Pair, record: Record, responder: nat)
    requires PairInv(p) && record in p.y.sent
    ensures record.Record? && record.body.Sealed?
    ensures PairInv(p.(x := Acted(p.x, record.epoch, record.body.payload, responder)))
  {
    var t, payload := p.x.session, record.body.payload;
    assert RecordFrom(p.y.session, t, record);
    if payload.Step1? && t.pending.None? && record.epoch == t.sendEpoch {
      Step1Keeps(p, record, responder);
    } else if payload.Step2? && t.pending.Some? && t.pendingEpoch == record.epoch {
      Step2Keeps(p, record);
    } else {
      assert Acted(p.x, record.epoch, payload, responder) == p.x;
    }
  }

  /** Opening is decrypting, then acting on what was decrypted. */
  lemma {:induction false} OpenIs(x: Party, record: Record, responder: nat)
    requires record.Record?
    ensures var (t, r) := Decrypted(x.session, record.epoch, record.seqNo, record.body);
            Move1(x, MoveOpen(record, responder))
            == if r.Ok? then Acted(x.(session := t), record.epoch, r.value, responder) else x.(session := t)
  {
  }

  lemma {:induction false} OpenKeeps(p: Pair, record: Record, responder: nat)
    requires PairInv(p) && Deliverable(p.y, MoveOpen(record, responder))
    ensures PairInv(p.(x := Move1(p.x, MoveOpen(record, responder))))
  {
    if record.Record? {
      OpenIs(p.x, record, responder);
      DecryptedFrom(p.x.session, record);
      DecryptedPaced(p, record);
      var (t, r) := Decrypted(p.x.session, record.epoch, record.seqNo, record.body);
      ReceivedKeeps(p, t);
      if r.Ok? {
        ActKeeps(p.(x := p.x.(session := t)), record, responder);
      }
    }
  }

  /** A party that has filed an opened step-1 chunk: still waiting, or with the exchange answered in chunks. */
  function Filed1(x: Party, c: Chunk, responder: nat, replyAttempt: nat): Party
    requires c.body.SealedShard?
  {
    var (slot, r) := Accumulate(x.session.slot1, c);
    var s := x.session.(slot1 := slot);
    if !(r.Ok? && r.value.Some? && r.value.value.Step1?) then x.(session := s)
    else
      var k := r.value.value.exchange;
      var reply := BuildChunks(s.root, Step2Chunk, replyAttempt, Step2(k, responder), c.data, c.parity);
      Party(AdvanceEpoch(s, s.sendEpoch, Shared(k, responder), false).(last1 := Some(c.attempt)), x.sent,
            x.chunks + (set d | d in reply))
  }

  lemma {:induction false} Chunk1Is(x: Party, c: Chunk, responder: nat, replyAttempt: nat)
    requires c.kind == Step1Chunk
    ensures Move1(x, MoveOpenChunk(c, responder, replyAttempt))
            == if x.session.last1 != Some(c.attempt) && x.session.pending.None? && ShardOpens(x.session.root, c)
               then Filed1(x, c, responder, replyAttempt) else x
  {
  }

  lemma {:induction false} Filed1Keeps(p: Pair, c: Chunk, responder: nat, replyAttempt: nat)
    requires PairInv(p) && c in p.y.chunks && p.x.session.pending.None? && ShardOpens(p.x.session.root, c)
    ensures PairInv(p.(x := Filed1(p.x, c, responder, replyAttempt)))
  {
    var x, y := p.x.session, p.y.session;
    assert ChunkFrom(y, x, c);
    var (slot, r) := Accumulate(x.slot1, c);
    var s := x.(slot1 := slot);
    ReceivedKeeps(p, s);
    if r.Ok? && r.value.Some? && r.value.value.Step1? {
      var k := c.body.payload.exchange;
      assert Same(x, y);
      var t := AdvanceEpoch(s, s.sendEpoch, Shared(k, responder), false).(last1 := Some(c.attempt));
      AnswerKeeps(p.(x := p.x.(session := s)), t, k, responder);
      var reply := BuildChunks(x.root, Step2Chunk, replyAttempt, Step2(k, responder), c.data, c.parity);
      ChunksKeep(p.(x := p.x.(session := t)), set d | d in reply);
    }
  }

  /** An incremental step 1: filed when it opens, refused or ignored otherwise. */
  lemma {:induction false} Chunk1Keeps(p: Pair, c: Chunk, responder: nat, replyAttempt: nat)
    requires PairInv(p) && c in p.y.chunks && c.kind == Step1Chunk
    ensures PairInv(p.(x := Move1(p.x, MoveOpenChunk(c, responder, replyAttempt))))
  {
    Chunk1Is(p.x, c, responder, replyAttempt);
    if p.x.session.last1 != Some(c.attempt) && p.x.session.pending.None? && ShardOpens(p.x.session.root, c) {
      Filed1Keeps(p, c, responder, replyAttempt);
    }
  }

  /** A party that has filed an opened step-2 chunk: still waiting, or with its own exchange completed. */
  function Filed2(x: Party, c: Chunk): Party
    requires c.body.SealedShard? && x.session.pending.Some?
  {
    var (slot, r) := Accumulate(x.session.slot2, c);
    var s := x.session.(slot2 := slot);
    if !(r.Ok? && r.value.Some? && r.value.value.Step2?) then x.(session := s)
    else
      var secret := Finish(s.pending.value, r.value.value.replyTo, r.value.value.responder);
      x.(session := AdvanceEpoch(s.(pending := None), s.sendEpoch, secret, true).(last2 := Some(c.attempt)))
  }

  lemma {:induction false} Chunk2Is(x: Party, c: Chunk, responder: nat, replyAttempt: nat)
    requires c.kind == Step2Chunk
    ensures Move1(x, MoveOpenChunk(c, responder, replyAttempt))
            == if x.session.last2 != Some(c.attempt) && x.session.pending.Some? && ShardOpens(x.session.root, c)
               then Filed2(x, c) else x
  {
  }

  lemma {:induction false} Filed2Keeps(p: Pair, c: Chunk)
    requires PairInv(p) && c in p.y.chunks && p.x.session.pending.Some? && ShardOpens(p.x.session.root, c)
    ensures PairInv(p.(x := Filed2(p.x, c)))
  {
    var x, y := p.x.session, p.y.session;
    assert ChunkFrom(y, x, c);
    var (slot, r) := Accumulate(x.slot2, c);
    var s := x.(slot2 := slot);
    ReceivedKeeps(p, s);
    if r.Ok? && r.value.Some? && r.value.value.Step2? {
      assert Behind(x, y);
      CompleteKeeps(p.(x := p.x.(session := s)), Filed2(p.x, c).session, c.body.payload.replyTo,
                    c.body.payload.responder);
    }
  }

  /** An incremental step 2: filed when it opens, refused or ignored otherwise. */
  lemma {:induction false} Chunk2Keeps(p: Pair, c: Chunk, responder: nat, replyAttempt: nat)
    requires PairInv(p) && c in p.y.chunks && c.kind == Step2Chunk
    ensures PairInv(p.(x := Move1(p.x, MoveOpenChunk(c, responder, replyAttempt))))
  {
    Chunk2Is(p.x, c, responder, replyAttempt);
    if p.x.session.last2 != Some(c.attempt) && p.x.session.pending.Some? && ShardOpens(p.x.session.root, c) {
      Filed2Keeps(p, c);
    }
  }

  lemma {:induction false} MoveKeeps(p: Pair, move: Move)
    requires PairInv(p) && Deliverable(p.y, move)
    ensures PairInv(p.(x := Move1(p.x, move)))
  {
    match move {
      case MoveSeal(data) => SealKeeps(p, Application(data));
      case MoveInitiate(exchange) => InitiateKeeps(p, exchange);
      case MoveIncremental(exchange, attempt, data, parity) => IncrementalKeeps(p, exchange, attempt, data, parity);
      case MoveOpen(record, responder) => OpenKeeps(p, record, responder);
      case MoveOpenChunk(chunk, responder, replyAttempt) =>
        if chunk in p.y.chunks {
          if chunk.kind == Step1Chunk { Chunk1Keeps(p, chunk, responder, replyAttempt); }
          else if chunk.kind == Step2Chunk { Chunk2Keeps(p, chunk, responder, replyAttempt); }
        }
    }
  }

  // ----- runs -----

  function Start(root: Root): Pair {
    Pair(Party(NewSession(root, true), {}, {}), Party(NewSession(root, false), {}, {}))
  }

  ghost predicate RunOf(p: Pair, events: seq<Event>, end: Pair)
    decreases |events|
  {
    if events == [] then end == p
    else Enabled(p, events[0]) && RunOf(Step(p, events[0]), events[1..], end)
  }

  lemma {:induction false} StepKeeps(p: Pair, e: Event)
    requires PairInv(p) && Enabled(p, e)
    ensures PairInv(Step(p, e))
  {
    if e.first {
      MoveKeeps(p, e.move);
    } else {
      SwapInv(p);
      MoveKeeps(Swap(p), e.move);
      SwapInv(Swap(p).(x := Move1(p.y, e.move)));
    }
  }

  lemma {:induction false} RunKeeps(p: Pair, events: seq<Event>, end: Pair)
    requires PairInv(p) && RunOf(p, events, end)
    ensures PairInv(end)
    decreases |events|
  {
    if events != [] {
      StepKeeps(p, events[0]);
      RunKeeps(Step(p, events[0]), events[1..], end);
    }
  }

  /** The chain on which `x` would read a record of this epoch, if it holds one. */
  function ChainFor(x: Session, epoch: nat): Option<RecvChain> {
    if epoch == x.current.epoch then Some(x.current)
    else if x.previous.Some? && epoch == x.previous.value.epoch then x.previous
    else None
  }

  /** `y` holds the chain `x` sends on, and has read no further on it than `x` has sent. */
  ghost predicate Follows(x: Session, y: Session) {
    var c := ChainFor(y, x.sendEpoch);
    c.Some? && c.value.chain.base == x.sendChain.base && c.value.expected <= x.sendSeq
  }

  /** `x` lags one epoch: its own initiation is pending, and `y` has read nothing of the new epoch yet. */
  ghost predicate Lags(x: Session, y: Session) {
    y.sendEpoch == x.sendEpoch + 1 && x.pending.Some? && x.pendingEpoch == x.sendEpoch && y.current.expected == 0
  }

  /** One root and epoch, or one side lagging; each side that is not ahead followed by the other. */
  ghost predicate InStep(x: Session, y: Session) {
    || (x.sendEpoch == y.sendEpoch && x.root == y.root && Follows(x, y) && Follows(y, x))
    || (Lags(x, y) && Follows(x, y))
    || (Lags(y, x) && Follows(y, x))
  }

  /**
   Safety of the two-party ratchet. After any run from a handshake either both sides
   are in one epoch with one root, each following the other's send chain, or one side
   lags by one epoch, its own initiation pending, and the other still follows it.
   */
  lemma {:induction false} PairSafety(root: Root, events: seq<Event>, end: Pair)
    requires root.Handshake? && RunOf(Start(root), events, end)
    ensures PairInv(end) && InStep(end.x.session, end.y.session)
  {
    NewSessionOk(root, true);
    NewSessionOk(root, false);
    RunKeeps(Start(root), events, end);
  }

  /**
   Whatever was sealed in an epoch the receiver still holds opens to exactly what was
   sealed, unless its number is spent or too far ahead: the current epoch, and the
   previous one through the kept chain.
   */
  lemma {:induction false} PeerRecordDecrypts(p: Pair, record: Record)
    requires PairInv(p) && record in p.y.sent
    ensures var c := ChainFor(p.x.session, record.epoch);
            Decrypted(p.x.session, record.epoch, record.seqNo, record.body).1 == Ok(record.body.payload)
            <==> c.Some? && !Spent(c.value, record.seqNo) && !TooFarAhead(c.value, record.seqNo)
  {
    var x := p.x.session;
    assert RecordFrom(p.y.session, x, record);
    var c := ChainFor(x, record.epoch);
    if c.Some? {
      OpensExactly(c.value, record.seqNo, record.body, record.body.payload);
    }
  }

  /** What `y` seals next opens at `x` exactly when `y` is not ahead and `x` has not fallen too many records behind. */
  ghost predicate NextOpens(x: Session, y: Session, data: seq<bv8>, responder: nat) {
    var c := ChainFor(x, y.sendEpoch);
    && (c.Some? <==> y.sendEpoch <= x.sendEpoch)
    && (Open(x, SealPayload(y, Application(data)).1, responder).1 == Ok(Delivered(data))
        <==> c.Some? && !TooFarAhead(c.value, y.sendSeq))
  }

  lemma {:induction false} SealedNextOpens(p: Pair, data: seq<bv8>, responder: nat)
    requires PairInv(p) && InStep(p.x.session, p.y.session)
    ensures NextOpens(p.x.session, p.y.session, data, responder)
  {
    SwapInv(p);
    SealKeeps(Swap(p), Application(data));
    var (s, record) := SealPayload(p.y.session, Application(data));
    var q := Pair(p.x, Party(s, p.y.sent + {record}, p.y.chunks));
    SwapInv(Swap(q));
    PeerRecordDecrypts(q, record);
  }

  /**
   After any run, and in both directions, what a side seals next opens at its peer exactly
   when that side is not an epoch ahead and the peer has not fallen too many records behind.
   */
  lemma {:induction false} FreshRecordOpens(root: Root, events: seq<Event>, p: Pair, data: seq<bv8>, responder: nat)
    requires root.Handshake? && RunOf(Start(root), events, p)
    ensures NextOpens(p.x.session, p.y.session, data, responder)
    ensures NextOpens(p.y.session, p.x.session, data, responder)
  {
    PairSafety(root, events, p);
    SealedNextOpens(p, data, responder);
    SwapInv(p);
    SealedNextOpens(Swap(p), data, responder);
  }
}
