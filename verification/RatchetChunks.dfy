/**
 The session's chunk slot against the erasure-coded one (crates/core/src/ratchet.rs):
 the session model keeps the payload itself where the code keeps its length, its
 checksum and the shards that have arrived. For chunks cut from a payload the two
 file alike and complete alike.
 */
module RatchetChunks {
  import opened Wrappers
  import opened Bytes
  import opened RatchetChain
  import opened RatchetSession
  import Erasure

  /** Payloads as bytes; length and checksum together tell any two apart. */
  ghost predicate TellsApart(bytes: Payload -> seq<byte>, checksum: seq<byte> -> seq<byte>) {
    forall p, q :: |bytes(p)| == |bytes(q)| && checksum(bytes(p)) == checksum(bytes(q)) ==> p == q
  }

  function AttemptOf(code: Erasure.Code, checksum: seq<byte> -> seq<byte>, id: nat, payload: seq<byte>, data: nat,
      parity: nat): Erasure.Attempt
    requires Erasure.CountsOk(data, parity)
  {
    Erasure.Attempt(id, payload, data, parity, Erasure.Encoded(code, payload, data, parity), checksum(payload))
  }

  /** The fields a chunk of the session carries: its own place, and its shard of the payload's encoding. */
  ghost predicate CutFrom(code: Erasure.Code, checksum: seq<byte> -> seq<byte>, payload: seq<byte>, c: Chunk,
      f: Erasure.Fields)
  {
    && Erasure.CountsOk(c.data, c.parity)
    && (f.index, f.data, f.parity) == (c.index, c.data, c.parity)
    && (c.index < c.data + c.parity ==>
          var t := AttemptOf(code, checksum, c.attempt, payload, c.data, c.parity);
          c.index < |t.all| && f == Erasure.ChunkOf(t, c.index))
  }

  /** The slot with the shards stands for the slot with the payload. */
  ghost predicate Stands(code: Erasure.Code, checksum: seq<byte> -> seq<byte>, bytes: Payload -> seq<byte>,
      slot: Option<Slot>, acc: Option<Erasure.Accumulator>)
  {
    match slot
    case None => acc == None
    case Some(s) =>
      && Erasure.CountsOk(s.data, s.parity) && s.got != {} && |s.got| < s.data
      && (forall i :: i in s.got ==> i < s.data + s.parity)
      && acc == Some(Erasure.Partly(AttemptOf(code, checksum, s.attempt, bytes(s.payload), s.data, s.parity), s.got))
  }

  /** The same answer: nothing yet, the payload, or a refusal. */
  ghost predicate Alike(bytes: Payload -> seq<byte>, r: Result<Option<Payload>, Error>,
      a: Result<Erasure.Rebuilt, Erasure.Failure>)
  {
    match r
    case Err(_) => a.Err?
    case Ok(None) => a == Ok(None)
    case Ok(Some(p)) => a.Ok? && a.value.Some? && a.value.value.0 == bytes(p)
  }

  /** Filing one chunk keeps the two slots together and gives the same answer. */
  lemma {:induction false} FilesAlike(code: Erasure.Code, checksum: seq<byte> -> seq<byte>,
      bytes: Payload -> seq<byte>, slot: Option<Slot>, acc: Option<Erasure.Accumulator>, c: Chunk, f: Erasure.Fields)
    requires code.AnyKOfN() && TellsApart(bytes, checksum) && c.body.SealedShard?
    requires CutFrom(code, checksum, bytes(c.body.payload), c, f) && Stands(code, checksum, bytes, slot, acc)
    ensures var (slot', r) := Accumulate(slot, c);
            var (acc', a) := Erasure.Accumulate(code, checksum, acc, c.attempt, f);
            Stands(code, checksum, bytes, slot', acc') && Alike(bytes, r, a)
  {
    if c.index < c.data + c.parity {
      var same := slot.Some? && slot.value.attempt == c.attempt;
      if !same || (slot.value.data == c.data && slot.value.parity == c.parity && slot.value.payload == c.body.payload) {
        FilesOn(code, checksum, bytes, slot, acc, c, if same then slot.value.got else {});
      }
    }
  }

  /** A chunk that fits what has arrived. */
  lemma {:induction false} FilesOn(code: Erasure.Code, checksum: seq<byte> -> seq<byte>,
      bytes: Payload -> seq<byte>, slot: Option<Slot>, acc: Option<Erasure.Accumulator>, c: Chunk, got: set<nat>)
    requires code.AnyKOfN() && Erasure.CountsOk(c.data, c.parity) && c.body.SealedShard?
             && c.index < c.data + c.parity && Stands(code, checksum, bytes, slot, acc)
    requires if slot.Some? && slot.value.attempt == c.attempt
             then slot.value == Slot(c.attempt, c.data, c.parity, c.body.payload, got) else got == {}
    ensures var t := AttemptOf(code, checksum, c.attempt, bytes(c.body.payload), c.data, c.parity);
            && c.index < |t.all|
            && var (slot', r) := Accumulate(slot, c);
               var (acc', a) := Erasure.Accumulate(code, checksum, acc, c.attempt, Erasure.ChunkOf(t, c.index));
               Stands(code, checksum, bytes, slot', acc') && Alike(bytes, r, a)
  {
    var payload := bytes(c.body.payload);
    var t := AttemptOf(code, checksum, c.attempt, payload, c.data, c.parity);
    Erasure.EncodingGenuine(code, checksum, c.attempt, payload, c.data, c.parity);
    Erasure.FileNext(code, checksum, acc, t, got, c.index);
  }
}
