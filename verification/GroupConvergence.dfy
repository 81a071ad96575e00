/**
 One honest commit at one other member: what it learns, that it accepts, and that it
 ends in the committer's public state knowing its own populated ancestors.
 */
module GroupConvergence {
  import opened Wrappers
  import opened GroupTree
  import opened GroupTypes
  import opened GroupResolution
  import opened GroupSpec
  import opened GroupDecrypt
  import opened GroupWorld

  lemma {:induction false} AncestorsInternal(capacity: nat, node: nat)
    requires capacity >= 1 && node < 2 * capacity - 1
    ensures forall a :: a in Ancestors(node) ==> a < capacity - 1
  {
    if node > 0 {
      AncestorsInternal(capacity, Parent(node));
      assert forall a :: a in Ancestors(node) <==> a == Parent(node) || a in Ancestors(Parent(node));
    }
  }

  lemma {:induction false} SplicedValid(nodes: seq<TreeNode>, capacity: nat, op: GroupOp)
    requires ValidTree(nodes, capacity) && Spliced(nodes, capacity, op).Ok?
    ensures ValidTree(Spliced(nodes, capacity, op).value, capacity)
    ensures forall n: nat :: n < |nodes| && !(op.Add? && n == LeafToNode(capacity, op.leafIndex)) &&
                             !Spliced(nodes, capacity, op).value[n].Blank? ==>
                               Spliced(nodes, capacity, op).value[n] == nodes[n]
    ensures forall l: nat :: l < capacity && !(op.Add? && l == op.leafIndex) && !(op.Remove? && l == op.leafIndex) ==>
                               Spliced(nodes, capacity, op).value[LeafToNode(capacity, l)]
                                   == nodes[LeafToNode(capacity, l)]
  {
    if op.Remove? {
      var n := LeafToNode(capacity, op.leafIndex);
      BlankAllIs(nodes[n := Blank], Ancestors(n));
      AncestorsInternal(capacity, n);
    }
  }

  /** Outside the committer's direct path, the member knows every populated ancestor of its leaf. */
  ghost predicate KnowsOff(v: View, pre: seq<TreeNode>, from: nat)
    requires v.capacity >= 1
  {
    forall a: nat :: Within(MyNode(v), a) && a != MyNode(v) && a < |pre| && !pre[a].Blank? && !Within(from, a) ==>
                       a in v.knownSecrets && pre[a] == Internal(NodeKey(v.knownSecrets[a]))
  }

  /** The public half of an honest update path from `from`. */
  ghost predicate Publishes(update: seq<UpdatePathNode>, from: nat, secret: PathSecret) {
    |update| == Depth(from) &&
    forall i :: 0 <= i < |update| ==> update[i].publicKey == NodeKey(Walk(secret, i))
  }

  /** The tree after a commit: fresh keys along the committer's path, `pre` everywhere else. */
  lemma {:induction false} InstalledTree(pre: seq<TreeNode>, capacity: nat, from: nat, secret: PathSecret,
      update: seq<UpdatePathNode>)
    requires ValidTree(pre, capacity) && from < |pre| && Publishes(update, from, secret)
    ensures ValidTree(InstallPath(pre, Ancestors(from), update), capacity)
    ensures forall n: nat :: n < |pre| && !(Within(from, n) && n != from) ==>
                               InstallPath(pre, Ancestors(from), update)[n] == pre[n]
  {
    var path := Ancestors(from);
    InstalledOnPath(pre, capacity, from, update);
    AncestorsDistinct(from);
    AncestorsInternal(capacity, from);
    var after := InstallPath(pre, path, update);
    forall n | 0 <= n < |after|
      ensures (after[n].Leaf? ==> IsLeaf(capacity, n)) && (after[n].Internal? ==> !IsLeaf(capacity, n))
    {
      if n in path {
        var i :| 0 <= i < |path| && path[i] == n;
      }
    }
  }

  lemma {:induction false} InstalledOnPath(pre: seq<TreeNode>, capacity: nat, from: nat, update: seq<UpdatePathNode>)
    requires |pre| == 2 * capacity - 1 && capacity >= 1 && from < |pre| && |update| == Depth(from)
    ensures var path, after := Ancestors(from), InstallPath(pre, Ancestors(from), update);
            |path| == |update| &&
            (forall n :: 0 <= n < |pre| && n !in path ==> after[n] == pre[n]) &&
            (forall i :: 0 <= i < |path| ==> path[i] < |pre| && after[path[i]] == Internal(update[i].publicKey))
  {
    var path := Ancestors(from);
    AncestorsLength(from);
    AncestorsDistinct(from);
    forall i | 0 <= i < |path| ensures path[i] < from { AncestorIsAbove(from, path[i]); }
    InstallPathIs(pre, path, update);
  }

  lemma {:induction false} InstalledAt(pre: seq<TreeNode>, capacity: nat, from: nat, secret: PathSecret,
      update: seq<UpdatePathNode>, i: nat)
    requires |pre| == 2 * capacity - 1 && capacity >= 1 && from < |pre| && Publishes(update, from, secret)
    requires i < Depth(from)
    ensures Up(from, i + 1) < |pre|
    ensures InstallPath(pre, Ancestors(from), update)[Up(from, i + 1)] == Internal(NodeKey(Walk(secret, i)))
  {
    InstalledOnPath(pre, capacity, from, update);
    AncestorsAt(from, i);
  }

  /** The secrets a member gains from a commit by the member at `from`. */
  function Learned(from: nat, node: nat, secret: PathSecret): map<nat, PathSecret>
    requires !Within(node, from)
  {
    AncestorsLength(from);
    SecretsFrom(Ancestors(from), MeetLevel(from, node), Walk(secret, MeetLevel(from, node)))
  }

  /** Everything learned belongs to a common proper ancestor of both leaves. */
  lemma {:induction false} LearnedOnly(from: nat, node: nat, secret: PathSecret, a: nat)
    requires !Within(node, from) && a in Learned(from, node, secret)
    ensures Within(node, a) && Within(from, a) && a != from
  {
    var path := Ancestors(from);
    var meet := MeetLevel(from, node);
    AncestorsLength(from);
    AncestorsDistinct(from);
    SecretsFromIs(path, meet, Walk(secret, meet));
    var i :| 0 <= i < |path[meet..]| && path[meet..][i] == a;
    assert path[meet + i] == a && a in path;
    MeetLevelIs(from, node);
    AncestorsAt(from, meet + i);
  }

  /** At every common ancestor the member learns exactly the committer's secret. */
  lemma {:induction false} LearnedAt(from: nat, node: nat, secret: PathSecret, i: nat)
    requires !Within(node, from) && i < Depth(from) && Within(node, Up(from, i + 1))
    ensures Up(from, i + 1) in Learned(from, node, secret)
    ensures Learned(from, node, secret)[Up(from, i + 1)] == Walk(secret, i)
  {
    var path := Ancestors(from);
    var meet := MeetLevel(from, node);
    AncestorsAt(from, i);
    AncestorsLength(from);
    AncestorsDistinct(from);
    SecretsFromIs(path, meet, Walk(secret, meet));
    MeetLevelIs(from, node);
    WalkCompose(secret, meet, i - meet);
  }

  /**
   A member that holds a key at the meeting level accepts an honest commit and
   ends in the committer's state, knowing every populated ancestor of its leaf.
   */
  lemma {:induction false} AcceptsHonest(v: View, cv: View, op: GroupOp, secret: PathSecret)
    requires ValidView(v) && SoundView(cv) && PublicOf(v) == PublicOf(cv) && v.myLeaf != cv.myLeaf
    requires Committed(cv, SignerOf(cv), op, secret).Ok? && KnownAbove(v)
    requires var pre := Spliced(v.nodes, v.capacity, op).value;
             && pre[MyNode(v)].Leaf? && pre[MyNode(v)].package.publicKey == v.myLeafKey
             && KnowsOff(v, pre, MyNode(cv))
             && HoldsSome(v, pre, MyNode(cv))
    ensures var out := Committed(cv, SignerOf(cv), op, secret).value;
            var r := CommitApplied(v, out.1);
            r.Ok? && Live(r.value, v.myLeaf, PublicOf(out.0)) && StartsEpoch(r.value)
  {
    var out := Committed(cv, SignerOf(cv), op, secret).value;
    var pre := Spliced(v.nodes, v.capacity, op).value;
    var from := MyNode(cv);
    var update := PathUpdate(pre, v.capacity, from, secret);
    LeavesApart(v.capacity, v.myLeaf, cv.myLeaf);
    LeavesApart(v.capacity, cv.myLeaf, v.myLeaf);
    SplicedValid(v.nodes, v.capacity, op);
    var after := ReceivesHonest(v, cv, op, secret, pre, out.0, out.1, from, MyNode(v));
    assert LookInto(0);
    assert Publishes(update, from, secret);
    KnowsAfter(v, pre, from, secret, update, after);
    assert after.nodes[MyNode(v)] == pre[MyNode(v)] by {
      InstalledTree(pre, v.capacity, from, secret, update);
      LeavesApart(v.capacity, cv.myLeaf, v.myLeaf);
    }
  }

  /** That a commit is accepted, and what accepting it files: looked into only where a proof says so. */
  ghost predicate Accepts(v: View, commit: Commit, after: View)
    requires SizedView(v)
  {
    forall u: nat {:trigger LookInto(u)} :: u == 0 ==> CommitApplied(v, commit) == Ok(after)
  }

  ghost predicate FilesLearned(v: View, from: nat, me: nat, secret: PathSecret, after: View) {
    forall u: nat {:trigger LookInto(u)} :: u == 0 ==>
      !Within(me, from) && after.knownSecrets == v.knownSecrets + Learned(from, me, secret)
  }

  /**
   The receiving side of an honest commit, step by step: the receiver finds the
   secret of the meeting level, every check passes, and it ends in the committer's
   public state.
   */
  lemma {:induction false} ReceivesHonest(v: View, cv: View, op: GroupOp, secret: PathSecret, pre: seq<TreeNode>,
      end: View, commit: Commit, from: nat, me: nat) returns (after: View)
    requires ValidView(v) && SoundView(cv) && PublicOf(v) == PublicOf(cv) && v.myLeaf != cv.myLeaf && KnownAbove(v)
    requires from == MyNode(cv) && me == MyNode(v)
    requires Spliced(v.nodes, v.capacity, op) == Ok(pre) && HoldsSome(v, pre, from)
    requires Committed(cv, SignerOf(cv), op, secret) == Ok((end, commit))
    ensures Accepts(v, commit, after) && FilesLearned(v, from, me, secret, after)
    ensures PublicOf(after) == PublicOf(end) && StartsEpoch(after)
    ensures after.myLeaf == v.myLeaf && after.myLeafKey == v.myLeafKey
  {
    LeavesApart(v.capacity, v.myLeaf, cv.myLeaf);
    LeavesApart(v.capacity, cv.myLeaf, v.myLeaf);
    assert |Ancestors(from)| == Depth(from) by { AncestorsLength(from); }
    var meet := MeetLevel(from, me);
    CommittedBody(cv, op, secret, pre);
    assert FindAndDecrypt(v, pre, from, 0, commit.body.path) == Some((meet, Walk(secret, meet))) by {
      FindIs(v, pre, from, secret);
    }
    assert PathKeysMatch(commit.body.path, meet, Walk(secret, meet)) by {
      RestOfPathMatches(pre, v.capacity, from, secret, meet);
    }
    CommitAppliedAccepts(v, commit, from, pre, meet, Walk(secret, meet));
    after := AcceptedView(v, commit.body, from, pre, meet, Walk(secret, meet));
    AcceptedFiles(v, commit.body, from, pre, secret, after);
    SamePublic(v, cv, commit.body, from, pre, meet, secret);
    CommittedPublic(cv, op, secret, pre);
  }

  /** What the accepting view holds besides the public state. */
  lemma {:induction false} AcceptedFiles(v: View, body: CommitBody, from: nat, pre: seq<TreeNode>, secret: PathSecret,
      after: View)
    requires v.capacity >= 1 && !Within(MyNode(v), from)
    requires MeetLevel(from, MyNode(v)) < |Ancestors(from)|
    requires var meet := MeetLevel(from, MyNode(v)); after == AcceptedView(v, body, from, pre, meet, Walk(secret, meet))
    ensures FilesLearned(v, from, MyNode(v), secret, after)
    ensures after.myLeaf == v.myLeaf && after.myLeafKey == v.myLeafKey && StartsEpoch(after)
  {
    assert after.knownSecrets == v.knownSecrets + Learned(from, MyNode(v), secret);
  }

  /** The fields of the commit a member builds. */
  lemma {:induction false} CommittedBody(cv: View, op: GroupOp, secret: PathSecret, pre: seq<TreeNode>)
    requires SoundView(cv) && Spliced(cv.nodes, cv.capacity, op) == Ok(pre)
    ensures var c := Committed(cv, SignerOf(cv), op, secret).value.1;
            && c.body == CommitBody(cv.groupId, cv.epoch, cv.myLeaf, op,
                PathUpdate(pre, cv.capacity, MyNode(cv), secret))
            && c.signer == SignerOf(cv) && c.signedBody == c.body
  {
  }

  /** The public outcome depends only on what the members already share and on the commit secret. */
  lemma {:induction false} SamePublic(v: View, cv: View, body: CommitBody, from: nat, pre: seq<TreeNode>, level: nat,
      secret: PathSecret)
    requires PublicOf(v) == PublicOf(cv) && level < |Ancestors(from)|
    ensures PublicOf(AcceptedView(v, body, from, pre, level, Walk(secret, level)))
            == PublicOf(Applied(cv, pre, Ancestors(from), body, Walk(secret, |Ancestors(from)| - 1)))
  {
    WalkFrom(secret, level, |Ancestors(from)| - 1);
  }

  lemma {:induction false} CommittedPublic(cv: View, op: GroupOp, secret: PathSecret, pre: seq<TreeNode>)
    requires SoundView(cv) && Spliced(cv.nodes, cv.capacity, op) == Ok(pre)
    ensures var out := Committed(cv, SignerOf(cv), op, secret).value;
            PublicOf(out.0) == PublicOf(Applied(cv, pre, Ancestors(MyNode(cv)), out.1.body,
                Walk(secret, |Ancestors(MyNode(cv))| - 1)))
  {
  }

  /** A view at the start of an epoch: nothing sent, nothing received. */
  ghost predicate StartsEpoch(v: View) {
    v.sendSeq == 0 && v.sendChain == SenderChain(v.epochSecret, v.myLeaf) && v.recvChains == map[]
  }

  /** The receiver's secrets after the commit still lie above its leaf and open every populated ancestor. */
  lemma {:induction false} KnowsAfter(v: View, pre: seq<TreeNode>, from: nat, secret: PathSecret,
      update: seq<UpdatePathNode>, after: View)
    requires ValidTree(pre, v.capacity) && v.myLeaf < v.capacity && from < |pre| && Publishes(update, from, secret)
    requires !Within(MyNode(v), from) && !Within(from, MyNode(v))
    requires KnownAbove(v) && KnowsOff(v, pre, from)
    requires after.capacity == v.capacity && after.myLeaf == v.myLeaf
    requires after.nodes == InstallPath(pre, Ancestors(from), update)
    requires after.knownSecrets == v.knownSecrets + Learned(from, MyNode(v), secret)
    ensures ValidView(after) && KnownAbove(after) && KnowsAncestors(after)
  {
    var me := MyNode(v);
    InstalledTree(pre, v.capacity, from, secret, update);
    forall a: nat | a in after.knownSecrets
      ensures Within(me, a) && a != me
    {
      if a in Learned(from, me, secret) { LearnedOnly(from, me, secret, a); }
    }
    forall a: nat | Within(me, a) && a != me && a < |after.nodes| && !after.nodes[a].Blank?
      ensures a in after.knownSecrets && after.nodes[a] == Internal(NodeKey(after.knownSecrets[a]))
    {
      KnowsOneAfter(v, pre, from, secret, update, after, a);
    }
  }

  lemma {:induction false} KnowsOneAfter(v: View, pre: seq<TreeNode>, from: nat, secret: PathSecret,
      update: seq<UpdatePathNode>,
                      after: View, a: nat)
    requires ValidTree(pre, v.capacity) && v.myLeaf < v.capacity && from < |pre| && Publishes(update, from, secret)
    requires !Within(MyNode(v), from) && !Within(from, MyNode(v))
    requires KnowsOff(v, pre, from)
    requires after.nodes == InstallPath(pre, Ancestors(from), update)
    requires after.knownSecrets == v.knownSecrets + Learned(from, MyNode(v), secret)
    requires Within(MyNode(v), a) && a != MyNode(v) && a < |pre| && !after.nodes[a].Blank?
    ensures a in after.knownSecrets && after.nodes[a] == Internal(NodeKey(after.knownSecrets[a]))
  {
    var me := MyNode(v);
    if Within(from, a) {
      var k := WithinUp(from, a);
      LearnedAt(from, me, secret, k - 1);
      InstalledAt(pre, v.capacity, from, secret, update, k - 1);
    } else {
      InstalledTree(pre, v.capacity, from, secret, update);
      if a in Learned(from, me, secret) { LearnedOnly(from, me, secret, a); }
    }
  }
}
