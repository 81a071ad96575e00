/**
 What each group operation computes, as functions on one member's view. The class
 in `GroupMember` is proved against these; the whole-run results are about them.
 */
module GroupSpec {
  import opened Wrappers
  import opened GroupTree
  import opened GroupTypes
  import opened GroupResolution

  /** One member's copy of the group state. */
  datatype View = View(
    groupId: GroupId,
    capacity: nat,
    nodes: seq<TreeNode>,
    epoch: nat,
    epochSecret: EpochSecret,
    transcript: Transcript,
    myLeaf: nat,
    myLeafKey: PublicKey,
    knownSecrets: map<nat, PathSecret>,
    sendSeq: nat,
    sendChain: ChainKey,
    recvChains: map<nat, (ChainKey, nat)>)

  /** What every operation of a member rests on. */
  ghost predicate SizedView(v: View) {
    SizedTree(v.nodes, v.capacity) && v.myLeaf < v.capacity
  }

  ghost predicate ValidView(v: View) {
    ValidTree(v.nodes, v.capacity) && v.myLeaf < v.capacity
  }

  predicate IsMember(v: View, leaf: nat)
    requires v.capacity >= 1 && |v.nodes| == 2 * v.capacity - 1
  {
    leaf < v.capacity && v.nodes[LeafToNode(v.capacity, leaf)].Leaf?
  }

  function MyNode(v: View): nat
    requires v.capacity >= 1
  {
    LeafToNode(v.capacity, v.myLeaf)
  }

  // ----- splicing and installing -----

  function BlankAll(nodes: seq<TreeNode>, path: seq<nat>): (out: seq<TreeNode>)
    ensures |out| == |nodes|
    decreases path
  {
    if path == [] then nodes
    else BlankAll(if path[0] < |nodes| then nodes[path[0] := Blank] else nodes, path[1..])
  }

  function Spliced(nodes: seq<TreeNode>, capacity: nat, op: GroupOp): (r: Result<seq<TreeNode>, Error>)
    requires SizedTree(nodes, capacity)
    ensures r.Ok? ==> |r.value| == |nodes|
  {
    match op
    case Add(leaf, package) =>
      if leaf >= capacity then Err(Malformed)
      else if !nodes[LeafToNode(capacity, leaf)].Blank? then Err(Malformed)
      else Ok(nodes[LeafToNode(capacity, leaf) := Leaf(package)])
    case Remove(leaf) =>
      if leaf >= capacity then Err(Malformed)
      else if nodes[LeafToNode(capacity, leaf)].Blank? then Err(NotAGroupMember)
      else
        var n := LeafToNode(capacity, leaf);
        Ok(BlankAll(nodes[n := Blank], Ancestors(n)))
    case Update => Ok(nodes)
  }

  function InstallPath(nodes: seq<TreeNode>, path: seq<nat>, pathNodes: seq<UpdatePathNode>): (out: seq<TreeNode>)
    ensures |out| == |nodes|
    decreases path
  {
    if path == [] || pathNodes == [] then nodes
    else InstallPath(if path[0] < |nodes| then nodes[path[0] := Internal(pathNodes[0].publicKey)] else nodes,
                     path[1..], pathNodes[1..])
  }

  // ----- building a commit -----

  /** One ciphertext of `secret` for each member of a resolution, in order. */
  function SealAll(nodes: seq<TreeNode>, targets: seq<nat>, secret: PathSecret): (out: seq<Sealed>)
    requires forall k :: 0 <= k < |targets| ==> targets[k] < |nodes| && !nodes[targets[k]].Blank?
    ensures |out| == |targets|
    ensures forall k :: 0 <= k < |out| ==> out[k] == Sealed(NodePublicKey(nodes[targets[k]]), secret)
  {
    seq(|targets|, k requires 0 <= k < |targets| =>
      Sealed(NodePublicKey(nodes[targets[k]]), secret))
  }

  function LevelTargets(nodes: seq<TreeNode>, capacity: nat, from: nat, i: nat): (out: seq<nat>)
    requires capacity >= 1 && |nodes| == 2 * capacity - 1 && from < |nodes| && i < Depth(from)
    ensures forall k :: 0 <= k < |out| ==> out[k] < |nodes| && !nodes[out[k]].Blank?
  {
    SiblingInTree(capacity, from, i);
    var out := Resolution(nodes, capacity, Sibling(Prev(from, i)));
    assert forall k :: 0 <= k < |out| ==> out[k] in out;
    out
  }

  lemma {:induction false} SiblingInTree(capacity: nat, from: nat, i: nat)
    requires capacity >= 1 && from < 2 * capacity - 1 && i < Depth(from)
    ensures Sibling(Prev(from, i)) < 2 * capacity - 1
  {
    UpWithin(from, i);
    WithinBelow(from, Prev(from, i));
  }

  /** The update path from `from`: level `i` carries the `i`-times stepped secret. */
  function PathUpdate(nodes: seq<TreeNode>, capacity: nat, from: nat, secret: PathSecret): (out: seq<UpdatePathNode>)
    requires capacity >= 1 && |nodes| == 2 * capacity - 1 && from < |nodes|
    ensures |out| == Depth(from)
    ensures forall i :: 0 <= i < |out| ==>
                          out[i] == UpdatePathNode(NodeKey(Walk(secret, i)),
                                                   SealAll(nodes, LevelTargets(nodes, capacity, from, i),
                                                       Walk(secret, i)))
  {
    seq(Depth(from), i requires 0 <= i < Depth(from) =>
      UpdatePathNode(NodeKey(Walk(secret, i)),
                     SealAll(nodes, LevelTargets(nodes, capacity, from, i), Walk(secret, i))))
  }

  /** The secrets of `path[k..]`, the one at `path[i]` being `secret` stepped `i - k` times. */
  function SecretsFrom(path: seq<nat>, k: nat, secret: PathSecret): map<nat, PathSecret>
    requires k <= |path|
    decreases |path| - k
  {
    if k == |path| then map[] else SecretsFrom(path, k + 1, PathStep(secret))[path[k] := secret]
  }

  // ----- the shared tail -----

  /** Installs the post-commit tree, mixes the commit secret into a new epoch and resets the chains. */
  function Applied(v: View, pre: seq<TreeNode>, path: seq<nat>, body: CommitBody, commitSecret: PathSecret): View {
    var transcript := Extended(v.transcript, body);
    var epochSecret := NextSecret(v.epochSecret, commitSecret, transcript);
    v.(nodes := InstallPath(pre, path, body.path),
       transcript := transcript,
       epochSecret := epochSecret,
       epoch := v.epoch + 1,
       sendChain := SenderChain(epochSecret, v.myLeaf),
       sendSeq := 0,
       recvChains := map[])
  }

  function Committed(v: View, signer: Identity, op: GroupOp, secret: PathSecret): (r: Result<(View, Commit), Error>)
    requires SizedView(v)
  {
    match Spliced(v.nodes, v.capacity, op)
    case Err(e) => Err(e)
    case Ok(pre) =>
      var from := MyNode(v);
      var path := Ancestors(from);
      var body := CommitBody(v.groupId, v.epoch, v.myLeaf, op, PathUpdate(pre, v.capacity, from, secret));
      var after := Applied(v, pre, path, body, Walk(secret, |path| - 1));
      Ok((after.(knownSecrets := v.knownSecrets + SecretsFrom(path, 0, secret)), Commit(body, signer, body)))
  }

  function FirstBlankLeaf(nodes: seq<TreeNode>, capacity: nat, leaf: nat): (r: Option<nat>)
    requires capacity >= 1 && |nodes| == 2 * capacity - 1 && leaf <= capacity
    ensures r.Some? ==> leaf <= r.value < capacity && !nodes[LeafToNode(capacity, r.value)].Leaf?
    ensures r.Some? ==> forall l :: leaf <= l < r.value ==> nodes[LeafToNode(capacity, l)].Leaf?
    ensures r.None? ==> forall l :: leaf <= l < capacity ==> nodes[LeafToNode(capacity, l)].Leaf?
    decreases capacity - leaf
  {
    if leaf == capacity then None
    else if !nodes[LeafToNode(capacity, leaf)].Leaf? then Some(leaf)
    else FirstBlankLeaf(nodes, capacity, leaf + 1)
  }

  function SnapshotOf(v: View, targetLeaf: nat): Snapshot {
    Snapshot(v.groupId, v.capacity, v.epoch, v.epochSecret, v.transcript, v.nodes, targetLeaf)
  }

  function ProposedAdd(v: View, signer: Identity, package: LeafKeyPackage, secret: PathSecret)
    : Result<(View, Commit, Welcome), Error>
    requires SizedView(v)
  {
    match FirstBlankLeaf(v.nodes, v.capacity, 0)
    case None => Err(GroupFull)
    case Some(target) =>
      var snapshot := SnapshotOf(v, target);
      match Committed(v, signer, Add(target, package), secret)
      case Err(e) => Err(e)
      case Ok(p) => Ok((p.0, p.1, Welcome(package.publicKey, snapshot, signer, snapshot)))
  }

  function ProposedRemove(v: View, signer: Identity, leaf: nat, secret: PathSecret): Result<(View, Commit), Error>
    requires SizedView(v)
  {
    if !IsMember(v, leaf) then Err(NotAGroupMember) else Committed(v, signer, Remove(leaf), secret)
  }

  // ----- receiving a commit -----

  /** The first ciphertext that opens under `key`. */
  function OpenFirst(key: PublicKey, cts: seq<Sealed>): (r: Option<PathSecret>)
    ensures r.Some? ==> exists k :: 0 <= k < |cts| && cts[k] == Sealed(key, r.value)
    ensures r.None? ==> forall k :: 0 <= k < |cts| ==> cts[k].target != key
  {
    if cts == [] then None
    else if cts[0].target == key then Some(cts[0].secret)
    else
      var r := OpenFirst(key, cts[1..]);
      assert forall k :: 0 <= k < |cts[1..]| ==> cts[1..][k] == cts[k + 1];
      assert forall k :: 1 <= k < |cts| ==> cts[k] == cts[1..][k - 1];
      r
  }

  /** The key this member would try for resolution member `t`, if it holds one. */
  function KeyFor(v: View, t: nat): Option<PublicKey>
    requires v.capacity >= 1
  {
    if t == MyNode(v) then Some(v.myLeafKey)
    else if t in v.knownSecrets then Some(NodeKey(v.knownSecrets[t]))
    else None
  }

  function DecryptAmong(v: View, targets: seq<nat>, cts: seq<Sealed>): Option<PathSecret>
    requires v.capacity >= 1
  {
    if targets == [] then None
    else
      var key := KeyFor(v, targets[0]);
      var unsealed := if key.Some? then OpenFirst(key.value, cts) else None;
      if unsealed.Some? then unsealed else DecryptAmong(v, targets[1..], cts)
  }

  /** The first level, from `i` up, whose resolution this member can decrypt. */
  function FindAndDecrypt(v: View, pre: seq<TreeNode>, from: nat, i: nat, path: seq<UpdatePathNode>)
    : (r: Option<(nat, PathSecret)>)
    requires v.capacity >= 1 && |pre| == 2 * v.capacity - 1 && from < |pre|
    requires |path| == Depth(from) && i <= Depth(from)
    ensures r.Some? ==> i <= r.value.0 < Depth(from)
    decreases Depth(from) - i
  {
    if i == Depth(from) then None
    else
      var found := DecryptAmong(v, LevelTargets(pre, v.capacity, from, i), path[i].ciphertexts);
      if found.Some? then Some((i, found.value)) else FindAndDecrypt(v, pre, from, i + 1, path)
  }

  /** Every key the commit publishes from level `i` up is the one the decrypted secret derives. */
  predicate PathKeysMatch(path: seq<UpdatePathNode>, i: nat, secret: PathSecret)
    requires i <= |path|
    decreases |path| - i
  {
    i == |path| || (path[i].publicKey == NodeKey(secret) && PathKeysMatch(path, i + 1, PathStep(secret)))
  }

  function CommitApplied(v: View, c: Commit): Result<View, Error>
    requires SizedView(v)
  {
    if c.body.groupId != v.groupId then Err(Malformed)
    else if c.body.fromEpoch != v.epoch then Err(WrongState)
    else if !IsMember(v, c.body.senderLeaf) then Err(NotAGroupMember)
    else
      var from := LeafToNode(v.capacity, c.body.senderLeaf);
      if !(c.signer == v.nodes[from].package.identity && c.signedBody == c.body) then Err(BadSignature)
      else match Spliced(v.nodes, v.capacity, c.body.op)
        case Err(e) => Err(e)
        case Ok(pre) =>
          var path := Ancestors(from);
          AncestorsLength(from);
          if |path| != |c.body.path| then Err(Malformed)
          else match FindAndDecrypt(v, pre, from, 0, c.body.path)
            case None => Err(CommitNotDecryptable)
            case Some(found) =>
              if !PathKeysMatch(c.body.path, found.0, found.1) then Err(PathKeyMismatch)
              else
                var after := Applied(v, pre, path, c.body, Walk(found.1, |path| - 1 - found.0));
                Ok(after.(knownSecrets := v.knownSecrets + SecretsFrom(path, found.0, found.1)))
  }

  /** The view an accepted commit leads to. */
  function AcceptedView(v: View, body: CommitBody, from: nat, pre: seq<TreeNode>, level: nat, secret: PathSecret): View
    requires level < |Ancestors(from)|
  {
    var path := Ancestors(from);
    Applied(v, pre, path, body, Walk(secret, |path| - 1 - level))
      .(knownSecrets := v.knownSecrets + SecretsFrom(path, level, secret))
  }

  /** With every check passed, the commit leads to that view. */
  lemma {:induction false} CommitAppliedAccepts(v: View, c: Commit, from: nat, pre: seq<TreeNode>, level: nat,
      secret: PathSecret)
    requires SizedView(v) && IsMember(v, c.body.senderLeaf) && from == LeafToNode(v.capacity, c.body.senderLeaf)
    requires c.body.groupId == v.groupId && c.body.fromEpoch == v.epoch
    requires c.signer == v.nodes[from].package.identity && c.signedBody == c.body
    requires Spliced(v.nodes, v.capacity, c.body.op) == Ok(pre)
    requires |c.body.path| == Depth(from) && level < |Ancestors(from)|
    requires FindAndDecrypt(v, pre, from, 0, c.body.path) == Some((level, secret))
    requires PathKeysMatch(c.body.path, level, secret)
    ensures CommitApplied(v, c) == Ok(AcceptedView(v, c.body, from, pre, level, secret))
  {
    AncestorsLength(from);
  }

  // ----- joining -----

  /** What reading a snapshot's bytes checks. Which kind of node stands in which slot is not among it. */
  predicate SnapshotParses(s: Snapshot) {
    CapacityOk(s.capacity) && s.targetLeaf < s.capacity && |s.nodes| == 2 * s.capacity - 1
  }

  function Joined(identity: Identity, leafKey: PublicKey, w: Welcome, c: Commit): Result<View, Error> {
    var s := w.snapshot;
    if w.target != leafKey then Err(Decrypt)
    else if !SnapshotParses(s) then Err(Malformed)
    else if c.body.groupId != s.groupId then Err(Malformed)
    else if c.body.fromEpoch != s.epoch then Err(WrongState)
    else if c.body.op != Add(s.targetLeaf, LeafKeyPackage(identity, leafKey)) then Err(Malformed)
    else if c.body.senderLeaf >= s.capacity then Err(NotAGroupMember)
    else
      var committer := s.nodes[LeafToNode(s.capacity, c.body.senderLeaf)];
      if !committer.Leaf? then Err(NotAGroupMember)
      else if !(w.signer == committer.package.identity && w.signedSnapshot == s) then Err(BadSignature)
      else CommitApplied(Joining(leafKey, s), c)
  }

  /** The state a joiner starts from: the snapshot and its own leaf key, no path secret yet. */
  function Joining(leafKey: PublicKey, s: Snapshot): View {
    View(s.groupId, s.capacity, s.nodes, s.epoch, s.epochSecret, s.transcript, s.targetLeaf, leafKey,
         map[], 0, SenderChain(s.epochSecret, s.targetLeaf), map[])
  }

  // ----- application records -----

  function SealedRecord(v: View, plaintext: Plaintext): Result<(View, Record), Error> {
    if v.sendSeq >= U64_MAX then Err(SequenceExhausted)
    else
      var header := Header(v.epoch, v.myLeaf, v.sendSeq);
      Ok((v.(sendSeq := v.sendSeq + 1, sendChain := NextChain(v.sendChain)),
          Record(header, v.sendChain, header, plaintext)))
  }

  /** The view after opening a record, which a missing receive chain changes even when opening fails. */
  function OpenedRecord(v: View, r: Record): (View, Result<(nat, Plaintext), Error>)
    requires v.capacity >= 1 && |v.nodes| == 2 * v.capacity - 1
  {
    var sender := r.header.senderLeaf;
    if r.header.epoch != v.epoch then (v, Err(UnknownEpoch))
    else if sender == v.myLeaf then (v, Err(Malformed))
    else if !IsMember(v, sender) then (v, Err(NotAGroupMember))
    else
      var ready := if sender in v.recvChains then v
                   else v.(recvChains := v.recvChains[sender := (SenderChain(v.epochSecret, sender), 0)]);
      var (chain, expected) := ready.recvChains[sender];
      if r.header.seqNo != expected then (ready, Err(Replay))
      else if r.key != chain || r.aad != r.header then (ready, Err(Decrypt))
      else (ready.(recvChains := ready.recvChains[sender := (NextChain(chain), expected + 1)]),
            Ok((sender, r.plaintext)))
  }

  // ----- what the pieces above compute -----

  lemma {:induction false} BlankAllIs(nodes: seq<TreeNode>, path: seq<nat>)
    ensures forall n :: 0 <= n < |nodes| ==> BlankAll(nodes, path)[n] == if n in path then Blank else nodes[n]
    decreases path
  {
    if path != [] {
      var next := if path[0] < |nodes| then nodes[path[0] := Blank] else nodes;
      BlankAllIs(next, path[1..]);
      assert forall n :: n in path <==> n == path[0] || n in path[1..];
    }
  }

  /** Entry `i` of the update path lands on `path[i]`; everything off the path stays. */
  lemma {:induction false} InstallPathIs(nodes: seq<TreeNode>, path: seq<nat>, pathNodes: seq<UpdatePathNode>)
    requires |path| == |pathNodes|
    requires forall i, j :: 0 <= i < j < |path| ==> path[i] != path[j]
    requires forall i :: 0 <= i < |path| ==> path[i] < |nodes|
    ensures forall n :: 0 <= n < |nodes| && n !in path ==> InstallPath(nodes, path, pathNodes)[n] == nodes[n]
    ensures forall i :: 0 <= i < |path| ==>
                          InstallPath(nodes, path, pathNodes)[path[i]] == Internal(pathNodes[i].publicKey)
    decreases path
  {
    if path != [] {
      var next := nodes[path[0] := Internal(pathNodes[0].publicKey)];
      InstallPathIs(next, path[1..], pathNodes[1..]);
      assert forall n :: n in path <==> n == path[0] || n in path[1..];
      forall i | 0 <= i < |path|
        ensures InstallPath(nodes, path, pathNodes)[path[i]] == Internal(pathNodes[i].publicKey)
      {
        if i > 0 {
          assert path[i] == path[1..][i - 1];
        } else {
          assert path[0] !in path[1..];
        }
      }
    }
  }

  lemma {:induction false} SecretsFromIs(path: seq<nat>, k: nat, secret: PathSecret)
    requires k <= |path|
    requires forall i, j :: 0 <= i < j < |path| ==> path[i] != path[j]
    ensures forall n :: n in SecretsFrom(path, k, secret) <==> n in path[k..]
    ensures forall i :: k <= i < |path| ==>
                          path[i] in SecretsFrom(path, k, secret)
                              && SecretsFrom(path, k, secret)[path[i]] == Walk(secret, i - k)
    decreases |path| - k
  {
    if k < |path| {
      SecretsFromIs(path, k + 1, PathStep(secret));
      assert path[k..] == [path[k]] + path[k + 1..];
      forall i | k < i < |path|
        ensures path[i] in SecretsFrom(path, k, secret) && SecretsFrom(path, k, secret)[path[i]] == Walk(secret, i - k)
      {
        WalkStep(secret, i - k - 1);
      }
    }
  }

  lemma {:induction false} PathKeysMatchIs(path: seq<UpdatePathNode>, i: nat, secret: PathSecret)
    requires i <= |path|
    ensures PathKeysMatch(path, i, secret) <==>
            forall k :: i <= k < |path| ==> path[k].publicKey == NodeKey(Walk(secret, k - i))
    decreases |path| - i
  {
    if i < |path| {
      PathKeysMatchIs(path, i + 1, PathStep(secret));
      forall k | i < k < |path|
        ensures path[k].publicKey == NodeKey(Walk(PathStep(secret), k - (i + 1))) <==>
                path[k].publicKey == NodeKey(Walk(secret, k - i))
      {
        WalkStep(secret, k - i - 1);
      }
    }
  }

  /** The direct path lists distinct nodes: exactly the node's proper ancestors. */
  lemma {:induction false} AncestorsDistinct(node: nat)
    ensures forall i, j :: 0 <= i < j < |Ancestors(node)| ==> Ancestors(node)[i] != Ancestors(node)[j]
    ensures forall a: nat :: a in Ancestors(node) <==> Within(node, a) && a != node
  {
    var path := Ancestors(node);
    AncestorsLength(node);
    forall i, j | 0 <= i < j < |path|
      ensures path[i] != path[j]
    {
      AncestorsAt(node, i);
      AncestorsAt(node, j);
      UpDepth(node, i + 1);
      UpDepth(node, j + 1);
    }
    forall a: nat
      ensures a in path <==> Within(node, a) && a != node
    {
      if a in path { AncestorIsAbove(node, a); }
      if Within(node, a) && a != node {
        var k := WithinUp(node, a);
        AncestorsAt(node, k - 1);
      }
    }
  }

  lemma {:induction false} AncestorIsAbove(node: nat, a: nat)
    requires a in Ancestors(node)
    ensures Within(node, a) && a < node
  {
    AncestorsLength(node);
    var i :| 0 <= i < |Ancestors(node)| && Ancestors(node)[i] == a;
    AncestorsAt(node, i);
    UpWithin(node, i + 1);
    UpDepth(node, i + 1);
    WithinBelow(node, a);
  }
}
