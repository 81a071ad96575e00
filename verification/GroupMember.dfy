/**
 One member's group object. Each method updates the fields step by step and is
 proved to leave exactly the view the functions of `GroupSpec` describe.
 */
module GroupMember {
  import opened Powers
  import opened Wrappers
  import opened GroupTree
  import opened GroupTypes
  import opened GroupResolution
  import opened GroupSpec
  import opened GroupWorld

  class Group {
    var groupId: GroupId
    var capacity: nat
    var nodes: seq<TreeNode>
    var epoch: nat
    var epochSecret: EpochSecret
    var transcript: Transcript
    var myLeaf: nat
    var myLeafKey: PublicKey
    var knownSecrets: map<nat, PathSecret>
    var sendSeq: nat
    var sendChain: ChainKey
    var recvChains: map<nat, (ChainKey, nat)>

    ghost function State(): View
      reads this
    {
      View(groupId, capacity, nodes, epoch, epochSecret, transcript, myLeaf, myLeafKey, knownSecrets, sendSeq,
           sendChain, recvChains)
    }

    constructor FromView(v: View)
      ensures State() == v
    {
      groupId, capacity, nodes, epoch := v.groupId, v.capacity, v.nodes, v.epoch;
      epochSecret, transcript, myLeaf, myLeafKey := v.epochSecret, v.transcript, v.myLeaf, v.myLeafKey;
      knownSecrets, sendSeq, sendChain, recvChains := v.knownSecrets, v.sendSeq, v.sendChain, v.recvChains;
    }

    /** Starts a group with its founder alone at leaf 0. */
    static method Create(groupId: GroupId, seed: nat, identity: Identity, leafKey: nat, capacity: nat)
      returns (r: Result<Group, Error>)
      ensures match Created(groupId, seed, identity, leafKey, capacity)
              case Ok(v) => r.Ok? && fresh(r.value) && r.value.State() == v
              case Err(e) => r == Err(e)
    {
      if capacity < 2 || !IsPowerOfTwo(capacity) { return Err(Malformed); }
      if capacity > MAX_CAPACITY { return Err(Malformed); }
      var nodes := seq(2 * capacity - 1, _ => Blank);
      nodes := nodes[LeafToNode(capacity, 0) := Leaf(LeafKeyPackage(identity, LeafKey(leafKey)))];
      var epochSecret := InitialSecret(seed, groupId);
      var g := new Group.FromView(View(groupId, capacity, nodes, 0, epochSecret, Genesis(groupId), 0, LeafKey(leafKey),
                                       map[], 0, SenderChain(epochSecret, 0), map[]));
      return Ok(g);
    }

    method FirstBlank() returns (leaf: Option<nat>)
      requires SizedView(State())
      ensures leaf == FirstBlankLeaf(nodes, capacity, 0)
    {
      var l := 0;
      while l < capacity
        invariant l <= capacity
        invariant FirstBlankLeaf(nodes, capacity, l) == FirstBlankLeaf(nodes, capacity, 0)
      {
        if !nodes[LeafToNode(capacity, l)].Leaf? { return Some(l); }
        l := l + 1;
      }
      return None;
    }

    /** The tree with `op` applied, leaving this member's own tree alone. */
    method Splice(op: GroupOp) returns (r: Result<seq<TreeNode>, Error>)
      requires SizedView(State())
      ensures r == Spliced(nodes, capacity, op)
    {
      var out := nodes;
      match op {
      case Add(leaf, package) =>
        if leaf >= capacity { return Err(Malformed); }
        var node := LeafToNode(capacity, leaf);
        if !out[node].Blank? { return Err(Malformed); }
        out := out[node := Leaf(package)];
      case Remove(leaf) =>
        if leaf >= capacity { return Err(Malformed); }
        var node := LeafToNode(capacity, leaf);
        if out[node].Blank? { return Err(NotAGroupMember); }
        out := out[node := Blank];
        var path := DirectPath(capacity, leaf);
        for i := 0 to |path|
          invariant |out| == |nodes|
          invariant BlankAll(out, path[i..]) == BlankAll(nodes[node := Blank], path)
        {
          AncestorIsAbove(node, path[i]);
          out := out[path[i] := Blank];
        }
      case Update =>
      }
      return Ok(out);
    }

    /** Overwrites each path node with the key the update publishes for it. */
    method Install(pre: seq<TreeNode>, path: seq<nat>, pathNodes: seq<UpdatePathNode>) returns (out: seq<TreeNode>)
      requires forall i :: 0 <= i < |path| ==> path[i] < |pre|
      ensures out == InstallPath(pre, path, pathNodes)
    {
      out := pre;
      var i := 0;
      while i < |path| && i < |pathNodes|
        invariant 0 <= i <= |path| && i <= |pathNodes| && |out| == |pre|
        invariant InstallPath(out, path[i..], pathNodes[i..]) == InstallPath(pre, path, pathNodes)
      {
        out := out[path[i] := Internal(pathNodes[i].publicKey)];
        i := i + 1;
      }
    }

    /** Installs the post-commit tree and moves to the next epoch. */
    method Apply(pre: seq<TreeNode>, path: seq<nat>, body: CommitBody, commitSecret: PathSecret)
      requires forall i :: 0 <= i < |path| ==> path[i] < |pre|
      modifies this
      ensures State() == Applied(old(State()), pre, path, body, commitSecret)
    {
      nodes := Install(pre, path, body.path);
      transcript := Extended(transcript, body);
      epochSecret := NextSecret(epochSecret, commitSecret, transcript);
      epoch := epoch + 1;
      sendChain := SenderChain(epochSecret, myLeaf);
      sendSeq := 0;
      recvChains := map[];
    }

    /** One ciphertext of `secret` per target. */
    method SealTo(pre: seq<TreeNode>, targets: seq<nat>, secret: PathSecret) returns (ciphertexts: seq<Sealed>)
      requires forall k :: 0 <= k < |targets| ==> targets[k] < |pre| && !pre[targets[k]].Blank?
      ensures ciphertexts == SealAll(pre, targets, secret)
    {
      ciphertexts := [];
      for k := 0 to |targets|
        invariant ciphertexts == SealAll(pre, targets, secret)[..k]
      {
        ciphertexts := ciphertexts + [Sealed(NodePublicKey(pre[targets[k]]), secret)];
      }
    }

    /** One level: `secret` is filed, its key published, and it is sealed to the resolution of the sibling of `prev`. */
    method BuildLevel(pre: seq<TreeNode>, path: seq<nat>, i: nat, prev: nat, secret: PathSecret,
        known: map<nat, PathSecret>, ghost from: nat, ghost start: PathSecret, ghost built: seq<UpdatePathNode>)
      returns (node: UpdatePathNode, filed: map<nat, PathSecret>)
      requires capacity >= 1 && |pre| == 2 * capacity - 1 && from < |pre| && i < |path|
      requires Built(pre, capacity, from, start, path, i, prev, secret, built, known)
      ensures Built(pre, capacity, from, start, path, i + 1, path[i], PathStep(secret), built + [node], filed)
    {
      assert LookInto(0);
      LevelIs(capacity, from, i, prev, path);
      filed := known[path[i] := secret];
      var targets := Resolution(pre, capacity, Sibling(prev));
      assert forall k :: 0 <= k < |targets| ==> targets[k] in targets;
      var ciphertexts := SealTo(pre, targets, secret);
      LevelBuilt(pre, capacity, from, start, i, targets, secret);
      node := UpdatePathNode(NodeKey(secret), ciphertexts);
      BuiltNext(pre, capacity, from, start, path, i, prev, secret, built, known, node);
    }

    /** The loop up the direct path, publishing and filing one level at a time, stepping the secret. */
    method BuildPath(pre: seq<TreeNode>, start: PathSecret)
      returns (path: seq<nat>, pathNodes: seq<UpdatePathNode>, newKnown: map<nat, PathSecret>)
      requires capacity >= 2 && myLeaf < capacity && |pre| == 2 * capacity - 1
      ensures path == Ancestors(LeafToNode(capacity, myLeaf))
      ensures pathNodes == PathUpdate(pre, capacity, LeafToNode(capacity, myLeaf), start)
      ensures newKnown == SecretsFrom(path, 0, start)
    {
      path := DirectPath(capacity, myLeaf);
      pathNodes, newKnown := BuildLevels(pre, path, LeafToNode(capacity, myLeaf), start);
    }

    method BuildLevels(pre: seq<TreeNode>, path: seq<nat>, from: nat, start: PathSecret)
      returns (pathNodes: seq<UpdatePathNode>, newKnown: map<nat, PathSecret>)
      requires capacity >= 1 && |pre| == 2 * capacity - 1 && from < |pre| && path == Ancestors(from)
      ensures pathNodes == PathUpdate(pre, capacity, from, start) && newKnown == SecretsFrom(path, 0, start)
    {
      var secret, prev := start, from;
      pathNodes, newKnown := [], map[];
      BuiltFirst(pre, capacity, from, start, path);
      for i := 0 to |path|
        invariant Built(pre, capacity, from, start, path, i, prev, secret, pathNodes, newKnown)
      {
        var node;
        node, newKnown := BuildLevel(pre, path, i, prev, secret, newKnown, from, start, pathNodes);
        pathNodes := pathNodes + [node];
        prev := path[i];
        secret := PathStep(secret);
      }
      BuiltLast(pre, capacity, from, start, path, prev, secret, pathNodes, newKnown);
    }

    /** Builds a commit of `op` from the fresh secret `start` and applies it to this member. */
    method Commit(signer: Identity, op: GroupOp, start: PathSecret) returns (r: Result<Commit, Error>)
      requires SizedView(State())
      modifies this
      ensures match Committed(old(State()), signer, op, start)
              case Ok(p) => r == Ok(p.1) && State() == p.0
              case Err(e) => r == Err(e) && State() == old(State())
    {
      var spliced := Splice(op);
      if spliced.Err? { return Err(spliced.error); }
      var pre := spliced.value;
      var path, pathNodes, newKnown := BuildPath(pre, start);
      CommittedIs(State(), signer, op, start, pre, path, pathNodes, newKnown);
      var commitSecret := newKnown[path[|path| - 1]];
      var body := CommitBody(groupId, epoch, myLeaf, op, pathNodes);
      Apply(pre, path, body, commitSecret);
      knownSecrets := knownSecrets + newKnown;
      return Ok(GroupTypes.Commit(body, signer, body));
    }

    method ProposeAdd(signer: Identity, package: LeafKeyPackage, start: PathSecret)
      returns (r: Result<(Commit, Welcome), Error>)
      requires SizedView(State())
      modifies this
      ensures match ProposedAdd(old(State()), signer, package, start)
              case Ok(p) => r == Ok((p.1, p.2)) && State() == p.0
              case Err(e) => r == Err(e) && State() == old(State())
    {
      var target := FirstBlank();
      if target.None? { return Err(GroupFull); }
      var snapshot := Snapshot(groupId, capacity, epoch, epochSecret, transcript, nodes, target.value);
      var welcome := Welcome(package.publicKey, snapshot, signer, snapshot);
      var commit := Commit(signer, Add(target.value, package), start);
      if commit.Err? { return Err(commit.error); }
      return Ok((commit.value, welcome));
    }

    method ProposeRemove(signer: Identity, leaf: nat, start: PathSecret) returns (r: Result<Commit, Error>)
      requires SizedView(State())
      modifies this
      ensures match ProposedRemove(old(State()), signer, leaf, start)
              case Ok(p) => r == Ok(p.1) && State() == p.0
              case Err(e) => r == Err(e) && State() == old(State())
    {
      if !(leaf < capacity && nodes[LeafToNode(capacity, leaf)].Leaf?) { return Err(NotAGroupMember); }
      r := Commit(signer, Remove(leaf), start);
    }

    method ProposeUpdate(signer: Identity, start: PathSecret) returns (r: Result<Commit, Error>)
      requires SizedView(State())
      modifies this
      ensures match Committed(old(State()), signer, Update, start)
              case Ok(p) => r == Ok(p.1) && State() == p.0
              case Err(e) => r == Err(e) && State() == old(State())
    {
      r := Commit(signer, Update, start);
    }

    /** The first ciphertext of `cts` that opens under `key`. */
    method TryAll(key: PublicKey, cts: seq<Sealed>) returns (r: Option<PathSecret>)
      ensures r == OpenFirst(key, cts)
    {
      for k := 0 to |cts|
        invariant OpenFirst(key, cts[k..]) == OpenFirst(key, cts)
      {
        if cts[k].target == key { return Some(cts[k].secret); }
      }
      return None;
    }

    /** Walks the levels, each level's resolution, and each level's ciphertexts, until one opens. */
    method Find(pre: seq<TreeNode>, senderLeaf: nat, path: seq<nat>, commitPath: seq<UpdatePathNode>)
      returns (r: Option<(nat, PathSecret)>)
      requires capacity >= 1 && |pre| == 2 * capacity - 1 && senderLeaf < capacity
      requires path == Ancestors(LeafToNode(capacity, senderLeaf)) && |path| == |commitPath|
      requires |path| == Depth(LeafToNode(capacity, senderLeaf))
      ensures r == FindAndDecrypt(State(), pre, LeafToNode(capacity, senderLeaf), 0, commitPath)
    {
      var from := LeafToNode(capacity, senderLeaf);
      var prev := from;
      for i := 0 to |path|
        invariant prev == if i == 0 then from else path[i - 1]
        invariant FindAndDecrypt(State(), pre, from, i, commitPath) == FindAndDecrypt(State(), pre, from, 0, commitPath)
      {
        LevelIs(capacity, from, i, prev, path);
        var targets := Resolution(pre, capacity, Sibling(prev));
        assert targets == LevelTargets(pre, capacity, from, i);
        var cts := commitPath[i].ciphertexts;
        for j := 0 to |targets|
          invariant DecryptAmong(State(), targets[j..], cts) == DecryptAmong(State(), targets, cts)
        {
          var t := targets[j];
          if t == LeafToNode(capacity, myLeaf) {
            var secret := TryAll(myLeafKey, cts);
            if secret.Some? { return Some((i, secret.value)); }
          } else if t in knownSecrets {
            var secret := TryAll(NodeKey(knownSecrets[t]), cts);
            if secret.Some? { return Some((i, secret.value)); }
          }
        }
        prev := path[i];
      }
      return None;
    }

    /** Checks every published key from `level` up against the decrypted secret, stepping it as it goes. */
    method CheckPath(ghost from: nat, path: seq<nat>, commitPath: seq<UpdatePathNode>, level: nat, start: PathSecret)
      returns (newKnown: Option<map<nat, PathSecret>>)
      requires path == Ancestors(from) && level < |path| == |commitPath|
      ensures newKnown.Some? <==> PathKeysMatch(commitPath, level, start)
      ensures newKnown.Some? ==> newKnown.value == SecretsFrom(path, level, start)
    {
      var secret, known := start, map[];
      for i := level to |path|
        invariant PathKeysMatch(commitPath, i, secret) == PathKeysMatch(commitPath, level, start)
        invariant known + SecretsFrom(path, i, secret) == SecretsFrom(path, level, start)
      {
        if NodeKey(secret) != commitPath[i].publicKey { return None; }
        FiledSecret(from, path, i, secret, known);
        known := known[path[i] := secret];
        secret := PathStep(secret);
      }
      return Some(known);
    }

    /** Applies another member's commit; any error leaves this member unchanged. */
    method ApplyCommit(c: Commit) returns (r: Result<(), Error>)
      requires SizedView(State())
      modifies this
      ensures match CommitApplied(old(State()), c)
              case Ok(after) => r == Ok(()) && State() == after
              case Err(e) => r == Err(e) && State() == old(State())
    {
      if c.body.groupId != groupId { return Err(Malformed); }
      if c.body.fromEpoch != epoch { return Err(WrongState); }
      var senderLeaf := c.body.senderLeaf;
      if !(senderLeaf < capacity && nodes[LeafToNode(capacity, senderLeaf)].Leaf?) { return Err(NotAGroupMember); }
      var from := LeafToNode(capacity, senderLeaf);
      if !(c.signer == nodes[from].package.identity && c.signedBody == c.body) { return Err(BadSignature); }
      var spliced := Splice(c.body.op);
      if spliced.Err? { return Err(spliced.error); }
      var pre := spliced.value;
      var path := DirectPath(capacity, senderLeaf);
      AncestorsLength(from);
      if |path| != |c.body.path| { return Err(Malformed); }
      var found := Find(pre, senderLeaf, path, c.body.path);
      if found.None? { return Err(CommitNotDecryptable); }
      var (level, start) := found.value;
      var newKnown := CheckPath(from, path, c.body.path, level, start);
      if newKnown.None? { return Err(PathKeyMismatch); }
      CommitAppliedAccepts(State(), c, from, pre, level, start);
      Enter(from, pre, path, c.body, level, start, newKnown.value);
      return Ok(());
    }

    /** Moves to the epoch of an accepted commit and files its secrets. */
    method Enter(ghost from: nat, pre: seq<TreeNode>, path: seq<nat>, body: CommitBody, ghost level: nat,
        ghost start: PathSecret, newKnown: map<nat, PathSecret>)
      requires path == Ancestors(from) && from < |pre| && level < |path| && newKnown == SecretsFrom(path, level, start)
      modifies this
      ensures State() == AcceptedView(old(State()), body, from, pre, level, start)
    {
      LastFiled(from, path, level, start);
      var commitSecret := newKnown[path[|path| - 1]];
      Apply(pre, path, body, commitSecret);
      knownSecrets := knownSecrets + newKnown;
    }

    /** Unseals and checks a welcome, then applies the commit beside it like any other member. */
    static method Join(identity: Identity, leafKey: PublicKey, w: Welcome, c: Commit) returns (r: Result<Group, Error>)
      ensures match Joined(identity, leafKey, w, c)
              case Ok(v) => r.Ok? && fresh(r.value) && r.value.State() == v
              case Err(e) => r == Err(e)
    {
      if w.target != leafKey { return Err(Decrypt); }
      var s := w.snapshot;
      if !SnapshotParses(s) { return Err(Malformed); }
      if c.body.groupId != s.groupId { return Err(Malformed); }
      if c.body.fromEpoch != s.epoch { return Err(WrongState); }
      if c.body.op != Add(s.targetLeaf, LeafKeyPackage(identity, leafKey)) { return Err(Malformed); }
      if c.body.senderLeaf >= s.capacity { return Err(NotAGroupMember); }
      var committer := s.nodes[LeafToNode(s.capacity, c.body.senderLeaf)];
      if !committer.Leaf? { return Err(NotAGroupMember); }
      if !(w.signer == committer.package.identity && w.signedSnapshot == s) { return Err(BadSignature); }
      var g := new Group.FromView(Joining(leafKey, s));
      var applied := g.ApplyCommit(c);
      if applied.Err? { return Err(applied.error); }
      return Ok(g);
    }

    /** Seals one application record for this epoch. */
    method Seal(plaintext: Plaintext) returns (r: Result<Record, Error>)
      modifies this
      ensures match SealedRecord(old(State()), plaintext)
              case Ok(p) => r == Ok(p.1) && State() == p.0
              case Err(e) => r == Err(e) && State() == old(State())
    {
      var header := Header(epoch, myLeaf, sendSeq);
      if sendSeq >= U64_MAX { return Err(SequenceExhausted); }
      sendSeq := sendSeq + 1;
      r := Ok(Record(header, sendChain, header, plaintext));
      sendChain := NextChain(sendChain);
    }

    /** Opens one application record of the current epoch. */
    method Open(rec: Record) returns (r: Result<(nat, Plaintext), Error>)
      requires SizedView(State())
      modifies this
      ensures (State(), r) == OpenedRecord(old(State()), rec)
    {
      var sender := rec.header.senderLeaf;
      if rec.header.epoch != epoch { return Err(UnknownEpoch); }
      if sender == myLeaf { return Err(Malformed); }
      if !(sender < capacity && nodes[LeafToNode(capacity, sender)].Leaf?) { return Err(NotAGroupMember); }
      if sender !in recvChains { recvChains := recvChains[sender := (SenderChain(epochSecret, sender), 0)]; }
      var (chain, expected) := recvChains[sender];
      if rec.header.seqNo != expected { return Err(Replay); }
      if rec.key != chain || rec.aad != rec.header { return Err(Decrypt); }
      recvChains := recvChains[sender := (NextChain(chain), expected + 1)];
      return Ok((sender, rec.plaintext));
    }
  }

  /** The node the loops reach before level `i` is the one the functions name. */
  lemma {:induction false} LevelIs(capacity: nat, from: nat, i: nat, prev: nat, path: seq<nat>)
    requires capacity >= 1 && from < 2 * capacity - 1 && i < Depth(from) && path == Ancestors(from)
    requires i <= |path| && prev == if i == 0 then from else path[i - 1]
    ensures prev == Prev(from, i) && prev > 0 && Sibling(prev) < 2 * capacity - 1
  {
    SiblingInTree(capacity, from, i);
    if i > 0 { AncestorsAt(from, i - 1); }
  }

  /** Filing the secret of level `i` moves it from the remaining ones to the filed ones. */
  lemma {:induction false} FiledSecret(from: nat, path: seq<nat>, i: nat, secret: PathSecret,
      known: map<nat, PathSecret>)
    requires path == Ancestors(from) && i < |path|
    ensures known[path[i] := secret] + SecretsFrom(path, i + 1, PathStep(secret))
            == known + SecretsFrom(path, i, secret)
  {
    AncestorsDistinct(from);
    SecretsFromIs(path, i + 1, PathStep(secret));
    assert path[i] !in path[i + 1..];
  }

  /** The last secret filed is the commit secret, and the whole path lies in the tree below its leaf. */
  lemma {:induction false} LastFiled(from: nat, path: seq<nat>, level: nat, start: PathSecret)
    requires path == Ancestors(from) && level < |path|
    ensures path[|path| - 1] in SecretsFrom(path, level, start)
    ensures SecretsFrom(path, level, start)[path[|path| - 1]] == Walk(start, |path| - 1 - level)
    ensures forall i :: 0 <= i < |path| ==> path[i] < from
    ensures forall j, k :: 0 <= j < k < |path| ==> path[j] != path[k]
  {
    AncestorsDistinct(from);
    SecretsFromIs(path, level, start);
    forall i | 0 <= i < |path| ensures path[i] < from { AncestorIsAbove(from, path[i]); }
  }

  lemma {:induction false} CommitSecretFiled(from: nat, path: seq<nat>, start: PathSecret)
    requires path == Ancestors(from) && 0 < |path|
    ensures path[|path| - 1] in SecretsFrom(path, 0, start)
    ensures SecretsFrom(path, 0, start)[path[|path| - 1]] == Walk(start, |Ancestors(from)| - 1)
    ensures forall i :: 0 <= i < |path| ==> path[i] < from
  {
    LastFiled(from, path, 0, start);
  }

  lemma {:induction false} PrefixPlusOne<T>(s: seq<T>, i: nat)
    requires i < |s|
    ensures s[..i + 1] == s[..i] + [s[i]]
  {
  }

  /** One level of the update path, built from the resolution found at that level. */
  lemma {:induction false} LevelBuilt(pre: seq<TreeNode>, capacity: nat, from: nat, start: PathSecret, i: nat,
      targets: seq<nat>, secret: PathSecret)
    requires capacity >= 1 && |pre| == 2 * capacity - 1 && from < |pre| && i < Depth(from) && secret == Walk(start, i)
    requires Sibling(Prev(from, i)) < |pre| && targets == Resolution(pre, capacity, Sibling(Prev(from, i)))
    requires forall k :: 0 <= k < |targets| ==> targets[k] < |pre| && !pre[targets[k]].Blank?
    ensures PathUpdate(pre, capacity, from, start)[i] == UpdatePathNode(NodeKey(secret), SealAll(pre, targets, secret))
  {
  }

  /** How far the loop up the direct path has come before level `i`, looked into only where a proof says so. */
  ghost predicate Built(pre: seq<TreeNode>, capacity: nat, from: nat, start: PathSecret, path: seq<nat>, i: nat,
      prev: nat, secret: PathSecret, nodes: seq<UpdatePathNode>, known: map<nat, PathSecret>)
    requires capacity >= 1 && |pre| == 2 * capacity - 1 && from < |pre|
  {
    forall u: nat {:trigger LookInto(u)} :: u == 0 ==>
      && path == Ancestors(from) && i <= |path| == Depth(from)
      && secret == Walk(start, i) && prev == (if i == 0 then from else path[i - 1])
      && nodes == PathUpdate(pre, capacity, from, start)[..i]
      && known + SecretsFrom(path, i, secret) == SecretsFrom(path, 0, start)
  }

  lemma {:induction false} BuiltFirst(pre: seq<TreeNode>, capacity: nat, from: nat, start: PathSecret, path: seq<nat>)
    requires capacity >= 1 && |pre| == 2 * capacity - 1 && from < |pre| && path == Ancestors(from)
    ensures Built(pre, capacity, from, start, path, 0, from, start, [], map[])
  {
    AncestorsLength(from);
    assert Walk(start, 0) == start;
    assert PathUpdate(pre, capacity, from, start)[..0] == [];
    assert map[] + SecretsFrom(path, 0, start) == SecretsFrom(path, 0, start);
  }

  lemma {:induction false} BuiltNext(pre: seq<TreeNode>, capacity: nat, from: nat, start: PathSecret, path: seq<nat>,
      i: nat, prev: nat, secret: PathSecret, nodes: seq<UpdatePathNode>, known: map<nat, PathSecret>,
      node: UpdatePathNode)
    requires capacity >= 1 && |pre| == 2 * capacity - 1 && from < |pre| && i < |path|
    requires Built(pre, capacity, from, start, path, i, prev, secret, nodes, known)
    requires i < Depth(from) && node == PathUpdate(pre, capacity, from, start)[i]
    ensures Built(pre, capacity, from, start, path, i + 1, path[i], PathStep(secret), nodes + [node],
                  known[path[i] := secret])
  {
    assert LookInto(0);
    FiledSecret(from, path, i, secret, known);
    PrefixPlusOne(PathUpdate(pre, capacity, from, start), i);
  }

  lemma {:induction false} BuiltLast(pre: seq<TreeNode>, capacity: nat, from: nat, start: PathSecret, path: seq<nat>,
      prev: nat, secret: PathSecret, nodes: seq<UpdatePathNode>, known: map<nat, PathSecret>)
    requires capacity >= 1 && |pre| == 2 * capacity - 1 && from < |pre|
    requires Built(pre, capacity, from, start, path, |path|, prev, secret, nodes, known)
    ensures nodes == PathUpdate(pre, capacity, from, start) && known == SecretsFrom(path, 0, start)
  {
    assert LookInto(0);
    var update := PathUpdate(pre, capacity, from, start);
    assert update[..|path|] == update;
    assert known + map[] == known;
  }

  /** The committer's outcome, put together from its parts. */
  lemma {:induction false} CommittedIs(v: View, signer: Identity, op: GroupOp, start: PathSecret, pre: seq<TreeNode>,
      path: seq<nat>,
                    pathNodes: seq<UpdatePathNode>, known: map<nat, PathSecret>)
    requires SizedView(v) && Spliced(v.nodes, v.capacity, op) == Ok(pre)
    requires path == Ancestors(MyNode(v)) && pathNodes == PathUpdate(pre, v.capacity, MyNode(v), start)
             && known == SecretsFrom(path, 0, start)
    ensures |path| > 0 && path[|path| - 1] in known && forall i :: 0 <= i < |path| ==> path[i] < |pre|
    ensures var body := CommitBody(v.groupId, v.epoch, v.myLeaf, op, pathNodes);
            Committed(v, signer, op, start)
            == Ok((Applied(v, pre, path, body, known[path[|path| - 1]]).(knownSecrets := v.knownSecrets + known),
                   GroupTypes.Commit(body, signer, body)))
  {
    CommitSecretFiled(MyNode(v), path, start);
  }
}
