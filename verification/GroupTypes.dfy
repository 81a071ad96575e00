/**
 The group's data, with cryptography symbolic: secrets are free terms, a public
 key names the secret it was derived from, and a ciphertext opens only under the
 key it was sealed to.
 */
module GroupTypes {
  import opened Wrappers
  import opened GroupTree
  import opened Powers

  const MAX_CAPACITY: nat := 0x10_0000
  const U64_MAX: nat := 0xFFFF_FFFF_FFFF_FFFF

  type Identity = nat
  type GroupId = nat
  type Plaintext = seq<nat>

  /** A commit's fresh random value, and the one-way path step applied to it. */
  datatype PathSecret = Fresh(id: nat) | PathStep(prev: PathSecret)

  /** A public key is derived injectively from a path secret, or is a generated leaf key. */
  datatype PublicKey = NodeKey(secret: PathSecret) | LeafKey(id: nat)

  datatype LeafKeyPackage = LeafKeyPackage(identity: Identity, publicKey: PublicKey)

  datatype TreeNode = Blank | Leaf(package: LeafKeyPackage) | Internal(key: PublicKey)

  /** A path secret sealed to one node's public key. */
  datatype Sealed = Sealed(target: PublicKey, secret: PathSecret)

  datatype GroupOp = Add(leafIndex: nat, package: LeafKeyPackage) | Remove(leafIndex: nat) | Update

  datatype UpdatePathNode = UpdatePathNode(publicKey: PublicKey, ciphertexts: seq<Sealed>)

  /** The fields a commit's signature covers. */
  datatype CommitBody = CommitBody(groupId: GroupId, fromEpoch: nat, senderLeaf: nat, op: GroupOp,
                                   path: seq<UpdatePathNode>)

  datatype Commit = Commit(body: CommitBody, signer: Identity, signedBody: CommitBody)

  datatype Transcript = Genesis(groupId: GroupId) | Extended(prev: Transcript, body: CommitBody)

  datatype EpochSecret =
    | InitialSecret(seed: nat, groupId: GroupId)
    | NextSecret(prev: EpochSecret, commitSecret: PathSecret, transcript: Transcript)

  /** A sender's hash chain; the application secret is a function of the epoch secret. */
  datatype ChainKey = SenderChain(epochSecret: EpochSecret, leaf: nat) | NextChain(prev: ChainKey)

  /** An application record: header, then a body that opens only under the key and header it was sealed with. */
  datatype Header = Header(epoch: nat, senderLeaf: nat, seqNo: nat)
  datatype Record = Record(header: Header, key: ChainKey, aad: Header, plaintext: Plaintext)

  datatype Snapshot = Snapshot(groupId: GroupId, capacity: nat, epoch: nat, epochSecret: EpochSecret,
                               transcript: Transcript, nodes: seq<TreeNode>, targetLeaf: nat)

  /** A snapshot sealed to the joiner's leaf key, with the signature that covers it. */
  datatype Welcome = Welcome(target: PublicKey, snapshot: Snapshot, signer: Identity, signedSnapshot: Snapshot)

  datatype Error =
    | Malformed | WrongState | NotAGroupMember | BadSignature | CommitNotDecryptable | PathKeyMismatch
    | GroupFull | UnknownEpoch | Replay | Decrypt | SequenceExhausted

  function Walk(secret: PathSecret, k: nat): PathSecret {
    if k == 0 then secret else PathStep(Walk(secret, k - 1))
  }

  function RootOf(secret: PathSecret): nat {
    match secret
    case Fresh(id) => id
    case PathStep(prev) => RootOf(prev)
  }

  function StepsOf(secret: PathSecret): nat {
    match secret
    case Fresh(_) => 0
    case PathStep(prev) => 1 + StepsOf(prev)
  }

  lemma {:induction false} WalkIs(secret: PathSecret, k: nat)
    ensures RootOf(Walk(secret, k)) == RootOf(secret)
    ensures StepsOf(Walk(secret, k)) == StepsOf(secret) + k
  {
    if k > 0 { WalkIs(secret, k - 1); }
  }

  /** Stepping first or last is the same walk. */
  lemma {:induction false} WalkStep(secret: PathSecret, k: nat)
    ensures Walk(PathStep(secret), k) == Walk(secret, k + 1)
  {
    if k > 0 { WalkStep(secret, k - 1); }
  }

  function ChainWalk(chain: ChainKey, k: nat): ChainKey {
    if k == 0 then chain else NextChain(ChainWalk(chain, k - 1))
  }

  /** As many nodes as the capacity asks for, whatever stands in each. */
  predicate SizedTree(nodes: seq<TreeNode>, capacity: nat) {
    capacity >= 2 && |nodes| == 2 * capacity - 1
  }

  predicate CapacityOk(capacity: nat) {
    2 <= capacity <= MAX_CAPACITY && IsPowerOfTwo(capacity)
  }

  ghost predicate Creatable(capacity: nat) {
    forall u: nat {:trigger LookInto(u)} :: u == 0 ==> CapacityOk(capacity)
  }

  /** A tree a group can reach: members only in leaf slots, keys only above them. */
  ghost predicate ValidTree(nodes: seq<TreeNode>, capacity: nat) {
    && SizedTree(nodes, capacity) && Creatable(capacity)
    && forall n :: 0 <= n < |nodes|
           ==> (nodes[n].Leaf? ==> IsLeaf(capacity, n)) && (nodes[n].Internal? ==> !IsLeaf(capacity, n))
  }

  function NodePublicKey(node: TreeNode): PublicKey
    requires !node.Blank?
  {
    if node.Leaf? then node.package.publicKey else node.key
  }
}
