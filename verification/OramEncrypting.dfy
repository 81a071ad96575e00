/**
 The encrypting layer between the client and the server (crates/oram/src/lib.rs).
 The AEAD is a free term that opens only under its own key; the plaintext layout,
 the padding and the nonce counter are byte for byte.
 */
module OramEncrypting {
  import opened Wrappers
  import opened Bytes

  const NONCE_LEN := 12
  const AEAD_TAG_LEN := 16
  const ID_LEN := 8
  const TAG_LEN := 1
  const VALUE_LEN_LEN := 4
  const HEADER := 13
  const TAG_REAL: byte := 1
  const TAG_DUMMY: byte := 0

  /** A block with an opaque byte value. */
  datatype Plain = Plain(id: nat, value: seq<byte>)

  /** What reaches the server: a nonce and a ciphertext, or bytes too short to hold a nonce. */
  datatype Sealed = Short(size: nat) | Box(nonce: nat, cipher: Cipher)

  datatype Cipher = Genuine(key: nat, nonce: nat, plaintext: seq<byte>) | Forged(size: nat)

  /** The length in bytes the server sees. */
  function Size(s: Sealed): nat {
    match s
    case Short(n) => n
    case Box(_, Genuine(_, _, plaintext)) => NONCE_LEN + |plaintext| + AEAD_TAG_LEN
    case Box(_, Forged(n)) => NONCE_LEN + n
  }

  /** `tag || id || length || value`, padded with zeros. */
  function Layout(tag: byte, id: nat, value: seq<byte>, blockValueLen: nat): (plaintext: seq<byte>)
    requires |value| <= blockValueLen
    ensures |plaintext| == HEADER + blockValueLen
  {
    [tag] + ToBe(id, ID_LEN) + ToBe(|value|, VALUE_LEN_LEN) + value + Zeros(blockValueLen - |value|)
  }

  function Seal(key: nat, nonce: nat, tag: byte, id: nat, value: seq<byte>, blockValueLen: nat): (s: Sealed)
    requires |value| <= blockValueLen
    ensures Size(s) == NONCE_LEN + HEADER + blockValueLen + AEAD_TAG_LEN
  {
    Box(nonce, Genuine(key, nonce, Layout(tag, id, value, blockValueLen)))
  }

  function Open(key: nat, s: Sealed): Option<Plain> {
    match s
    case Short(_) => None
    case Box(_, Forged(_)) => None
    case Box(nonce, Genuine(k, n, plaintext)) =>
      if k != key || n != nonce then None
      else if |plaintext| < HEADER || plaintext[0] != TAG_REAL then None
      else
        var id, length := FromBe(plaintext[TAG_LEN..TAG_LEN + ID_LEN]), FromBe(plaintext[TAG_LEN + ID_LEN..HEADER]);
        if HEADER + length > |plaintext| then None else Some(Plain(id, plaintext[HEADER..HEADER + length]))
  }

  lemma {:induction false} LayoutParts(tag: byte, id: nat, value: seq<byte>, blockValueLen: nat)
    requires |value| <= blockValueLen
    ensures var p := Layout(tag, id, value, blockValueLen);
            && p[0] == tag && p[TAG_LEN..TAG_LEN + ID_LEN] == ToBe(id, ID_LEN)
            && p[TAG_LEN + ID_LEN..HEADER] == ToBe(|value|, VALUE_LEN_LEN) && p[HEADER..HEADER + |value|] == value
  {
  }

  /** A sealed real block opens to itself, under the sealing key and under no other; padding never opens. */
  lemma {:induction false} OpenSealed(key: nat, nonce: nat, id: nat, value: seq<byte>, blockValueLen: nat, other: nat)
    requires |value| <= blockValueLen < U32 && id < U64
    ensures Open(other, Seal(key, nonce, TAG_REAL, id, value, blockValueLen)) == if other
            == key then Some(Plain(id, value)) else None
    ensures Open(other, Seal(key, nonce, TAG_DUMMY, id, value, blockValueLen)) == None
  {
    LayoutParts(TAG_REAL, id, value, blockValueLen);
    LayoutParts(TAG_DUMMY, id, value, blockValueLen);
    Widths();
    FromToBe(id, ID_LEN);
    FromToBe(|value|, VALUE_LEN_LEN);
  }

  /** The blocks of a bucket that open, in order. */
  function OpenAll(key: nat, bucket: seq<Sealed>): seq<Plain> {
    if bucket == [] then []
    else
      var before, last := OpenAll(key, bucket[..|bucket| - 1]), Open(key, bucket[|bucket| - 1]);
      if last.Some? then before + [last.value] else before
  }

  lemma {:induction false} OpenAllSnoc(key: nat, bucket: seq<Sealed>, s: Sealed)
    ensures OpenAll(key, bucket + [s]) == if Open(key, s).Some? then OpenAll(key, bucket) + [Open(key, s).value]
            else OpenAll(key, bucket)
  {
    assert (bucket + [s])[..|bucket|] == bucket;
  }

  /** The numbers below `n`, in order. */
  function Below(n: nat): (s: seq<nat>)
    ensures |s| == n && forall k :: 0 <= k < n ==> s[k] == k
  {
    seq(n, k => k)
  }

  predicate Storable(blocks: seq<Plain>, blockValueLen: nat) {
    forall k :: 0 <= k < |blocks| ==> |blocks[k].value| <= blockValueLen && blocks[k].id < U64
  }

  /** Every ciphertext of a bucket has the one length every ciphertext has. */
  predicate Uniform(bucket: seq<Sealed>, blockValueLen: nat) {
    forall k :: 0 <= k < |bucket| ==> Size(bucket[k]) == NONCE_LEN + HEADER + blockValueLen + AEAD_TAG_LEN
  }

  class EncryptingStorage {
    const key: nat
    const blockValueLen: nat
    const capacity: nat
    /** What the server stores, bucket by bucket; the ids it sees are all zero and are not kept here. */
    var inner: seq<seq<Sealed>>
    var nonceCounter: nat
    /** Every nonce used so far, in order. */
    ghost var used: seq<nat>
    /** What each bucket was last given and has not been cleared of. */
    ghost var model: seq<seq<Plain>>

    /** The layer is transparent: the stored ciphertexts open to exactly what was written, and no nonce repeats. */
    ghost predicate Valid()
      reads this
    {
      && 0 < blockValueLen < U32
      && nonceCounter <= U64 - 1 && used == Below(nonceCounter)
      && |inner| == |model|
      && forall node :: 0 <= node < |inner| ==> OpenAll(key, inner[node]) == model[node]
    }

    constructor (key: nat, blockValueLen: nat, capacity: nat, numNodes: nat)
      requires 0 < blockValueLen < U32
      ensures Valid() && this.key == key && this.blockValueLen == blockValueLen && this.capacity == capacity
      ensures model == seq(numNodes, _ => []) && nonceCounter == 0
    {
      this.key := key;
      this.blockValueLen := blockValueLen;
      this.capacity := capacity;
      inner := seq(numNodes, _ => []);
      nonceCounter := 0;
      used := [];
      model := seq(numNodes, _ => []);
    }

    method NextNonce() returns (nonce: nat)
      requires nonceCounter < U64 - 1 && used == Below(nonceCounter)
      modifies this`nonceCounter, this`used
      ensures nonce == old(nonceCounter) && nonce !in old(used)
      ensures nonceCounter == old(nonceCounter) + 1 && used == Below(nonceCounter)
    {
      nonce := nonceCounter;
      nonceCounter := nonceCounter + 1;
      used := used + [nonce];
    }

    /** Unseals a bucket, dropping padding and whatever does not open, and leaves it empty. */
    method ReadAndClear(node: nat) returns (blocks: seq<Plain>)
      requires Valid() && node < |inner|
      modifies this`inner, this`model
      ensures Valid() && blocks == old(model)[node] && model == old(model)[node := []]
      ensures inner == old(inner)[node := []]
    {
      var bucket := inner[node];
      blocks := [];
      for k := 0 to |bucket|
        invariant blocks == OpenAll(key, bucket[..k])
        invariant inner == old(inner) && model == old(model) && Valid()
      {
        assert bucket[..k + 1] == bucket[..k] + [bucket[k]];
        OpenAllSnoc(key, bucket[..k], bucket[k]);
        var plain := Open(key, bucket[k]);
        if plain.Some? {
          blocks := blocks + [plain.value];
        }
      }
      assert bucket[..|bucket|] == bucket;
      inner := inner[node := []];
      model := model[node := []];
    }

    /** Seals every block and fills the bucket up with padding: always `capacity` ciphertexts of one length. */
    method Write(node: nat, blocks: seq<Plain>)
      requires Valid() && node < |inner| && |blocks| <= capacity && Storable(blocks, blockValueLen)
      requires nonceCounter + capacity < U64
      modifies this
      ensures Valid() && model == old(model)[node := blocks] && inner == old(inner)[node := inner[node]]
      ensures |inner[node]| == capacity && Uniform(inner[node], blockValueLen)
      ensures nonceCounter == old(nonceCounter) + capacity
      ensures forall k :: 0 <= k < capacity ==> inner[node][k].Box? && inner[node][k].nonce == old(nonceCounter) + k
    {
      var sealed: seq<Sealed> := [];
      for k := 0 to |blocks|
        invariant |sealed| == k && Uniform(sealed, blockValueLen) && OpenAll(key, sealed) == blocks[..k]
        invariant nonceCounter == old(nonceCounter) + k && used == Below(nonceCounter)
        invariant inner == old(inner) && model == old(model)
        invariant forall j :: 0 <= j < k ==> sealed[j].Box? && sealed[j].nonce == old(nonceCounter) + j
      {
        var nonce := NextNonce();
        var s := Seal(key, nonce, TAG_REAL, blocks[k].id, blocks[k].value, blockValueLen);
        OpenSealed(key, nonce, blocks[k].id, blocks[k].value, blockValueLen, key);
        OpenAllSnoc(key, sealed, s);
        assert blocks[..k + 1] == blocks[..k] + [blocks[k]];
        sealed := sealed + [s];
      }
      for k := |blocks| to capacity
        invariant |sealed| == k && Uniform(sealed, blockValueLen) && OpenAll(key, sealed) == blocks
        invariant nonceCounter == old(nonceCounter) + k && used == Below(nonceCounter)
        invariant inner == old(inner) && model == old(model)
        invariant forall j :: 0 <= j < k ==> sealed[j].Box? && sealed[j].nonce == old(nonceCounter) + j
      {
        var nonce := NextNonce();
        var s := Seal(key, nonce, TAG_DUMMY, 0, [], blockValueLen);
        OpenSealed(key, nonce, 0, [], blockValueLen, key);
        OpenAllSnoc(key, sealed, s);
        sealed := sealed + [s];
      }
      inner := inner[node := sealed];
      model := model[node := blocks];
    }
  }

  /** A run of writes and reads against the layer, as the plain storage answers it. */
  datatype StorageOp = WriteBucket(node: nat, blocks: seq<Plain>) | ReadBucket(node: nat)

  function ModelRun(model: seq<seq<Plain>>, ops: seq<StorageOp>): (r: (seq<seq<Plain>>, seq<seq<Plain>>))
    requires forall k :: 0 <= k < |ops| ==> ops[k].node < |model|
    ensures |r.0| == |model|
    decreases |ops|
  {
    if ops == [] then (model, [])
    else
      var (m, answers) := ModelRun(model, ops[..|ops| - 1]);
      match ops[|ops| - 1]
      case WriteBucket(node, blocks) => (m[node := blocks], answers)
      case ReadBucket(node) => (m[node := []], answers + [m[node]])
  }

  lemma {:induction false} OneMoreFits(k: nat, n: nat, size: nat)
    requires k < n
    ensures (k + 1) * size == k * size + size <= n * size
  {
    assert n * size == (k + 1) * size + (n - k - 1) * size;
  }

  /**
   Over any run of writes and reads the layer answers as the plain storage, and the nonces used are the first
   naturals, each once.
   */
  method RunStorage(storage: EncryptingStorage, ops: seq<StorageOp>) returns (answers: seq<seq<Plain>>)
    requires storage.Valid() && storage.nonceCounter + |ops| * storage.capacity < U64
    requires forall k :: 0 <= k < |ops| ==>
               ops[k].node < |storage.inner|
                   && (ops[k].WriteBucket?
                   ==> |ops[k].blocks| <= storage.capacity && Storable(ops[k].blocks, storage.blockValueLen))
    modifies storage
    ensures storage.Valid() && (storage.model, answers) == ModelRun(old(storage.model), ops)
    ensures storage.nonceCounter <= old(storage.nonceCounter) + |ops| * storage.capacity
  {
    answers := [];
    for k := 0 to |ops|
      invariant storage.Valid() && |storage.inner| == |old(storage.inner)|
      invariant (storage.model, answers) == ModelRun(old(storage.model), ops[..k])
      invariant storage.nonceCounter <= old(storage.nonceCounter) + k * storage.capacity
    {
      assert ops[..k + 1][..k] == ops[..k];
      OneMoreFits(k, |ops|, storage.capacity);
      match ops[k] {
        case WriteBucket(node, blocks) => storage.Write(node, blocks);
        case ReadBucket(node) =>
          var blocks := storage.ReadAndClear(node);
          answers := answers + [blocks];
      }
    }
    assert ops[..|ops|] == ops;
  }
}
