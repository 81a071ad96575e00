/**
 The three parties of an honest commit: a live receiver accepts it, the committer
 stays live, and the newcomer of an add joins exactly when it can decrypt.
 */
module GroupMembers {
  import opened Wrappers
  import opened GroupTree
  import opened GroupTypes
  import opened GroupResolution
  import opened GroupSpec
  import opened GroupDecrypt
  import opened GroupWorld
  import opened GroupConvergence

  /** The operation an event puts in its commit. */
  function OpOf(v: View, e: Event): GroupOp
    requires ValidView(v)
  {
    match e
    case AddMember(_, identity, key) =>
      var target := FirstBlankLeaf(v.nodes, v.capacity, 0);
      Add(if target.Some? then target.value else 0, LeafKeyPackage(identity, LeafKey(key)))
    case RemoveMember(_, leaf) => Remove(leaf)
    case _ => Update
  }

  lemma {:induction false} ProposedIs(v: View, e: Event, nonce: nat)
    requires SoundView(v) && Proposed(v, e, nonce).Some?
    ensures var o := Proposed(v, e, nonce).value;
            && Committed(v, SignerOf(v), OpOf(v, e), Fresh(nonce)) == Ok((o.after, o.commit))
            && (e.AddMember? ==> o.welcome
                                 == Some(Welcome(LeafKey(e.leafKey), SnapshotOf(v, OpOf(v, e).leafIndex), SignerOf(v),
                                                           SnapshotOf(v, OpOf(v, e).leafIndex))))
            && (e.AddMember? ==> OpOf(v, e).leafIndex < v.capacity
                                 && v.nodes[LeafToNode(v.capacity, OpOf(v, e).leafIndex)].Blank?)
            && (!e.AddMember? ==> o.welcome.None?)
  {
  }

  /** A proper ancestor of a tree node is not a leaf. */
  lemma {:induction false} AncestorIsInternal(capacity: nat, node: nat, a: nat)
    requires capacity >= 1 && node < 2 * capacity - 1 && Within(node, a) && a != node
    ensures a < capacity - 1
  {
    AncestorsDistinct(node);
    AncestorsInternal(capacity, node);
  }

  /** A live member other than the removed one holds a key at the meeting level. */
  lemma {:induction false} LiveHolds(v: View, pre: seq<TreeNode>, from: nat, op: GroupOp)
    requires Live(v, v.myLeaf, PublicOf(v)) && from < |pre|
    requires Spliced(v.nodes, v.capacity, op) == Ok(pre)
    requires !Within(MyNode(v), from) && !Within(from, MyNode(v))
    requires !(op.Remove? && op.leafIndex == v.myLeaf)
    ensures pre[MyNode(v)] == v.nodes[MyNode(v)] && KnowsOff(v, pre, from) && HoldsSome(v, pre, from)
  {
    var me := MyNode(v);
    SplicedValid(v.nodes, v.capacity, op);
    forall a: nat | Within(me, a) && a != me && a < |pre| && !pre[a].Blank?
      ensures pre[a] == v.nodes[a]
    {
      AncestorIsInternal(v.capacity, me, a);
    }
    var meet := MeetLevel(from, me);
    ExactlyOneLevel(from, me, meet);
    SiblingInTree(v.capacity, from, meet);
    var at := CoveredBy(pre, v.capacity, Sibling(Prev(from, meet)), me);
    var targets := LevelTargets(pre, v.capacity, from, meet);
    var t := targets[at];
    assert t in targets && Within(me, t);
    assert Holds(v, pre, t);
  }

  /** Every live member but the committer and the removed one accepts the commit and stays live. */
  lemma {:induction false} LiveAccepts(v: View, cv: View, shared: Public, op: GroupOp, secret: PathSecret)
    requires Live(v, v.myLeaf, shared) && Live(cv, cv.myLeaf, shared) && v.myLeaf != cv.myLeaf
    requires Committed(cv, SignerOf(cv), op, secret).Ok?
    requires !(op.Remove? && op.leafIndex == v.myLeaf)
    ensures var out := Committed(cv, SignerOf(cv), op, secret).value;
            var r := CommitApplied(v, out.1);
            r.Ok? && Live(r.value, v.myLeaf, PublicOf(out.0)) && StartsEpoch(r.value)
  {
    assert Spliced(cv.nodes, cv.capacity, op).Ok?;
    LeavesApart(v.capacity, v.myLeaf, cv.myLeaf);
    LeavesApart(v.capacity, cv.myLeaf, v.myLeaf);
    LiveHolds(v, Spliced(v.nodes, v.capacity, op).value, MyNode(cv), op);
    AcceptsHonest(v, cv, op, secret);
  }

  /** The committer is live after its own commit, unless it removed itself. */
  lemma {:induction false} CommitterStays(cv: View, shared: Public, op: GroupOp, secret: PathSecret)
    requires Live(cv, cv.myLeaf, shared)
    requires Committed(cv, SignerOf(cv), op, secret).Ok?
    requires !(op.Remove? && op.leafIndex == cv.myLeaf)
    ensures var after := Committed(cv, SignerOf(cv), op, secret).value.0;
            Live(after, cv.myLeaf, PublicOf(after)) && StartsEpoch(after)
  {
    var out := Committed(cv, SignerOf(cv), op, secret).value;
    var pre := Spliced(cv.nodes, cv.capacity, op).value;
    var from := MyNode(cv);
    var update := PathUpdate(pre, cv.capacity, from, secret);
    SplicedValid(cv.nodes, cv.capacity, op);
    CommittedBody(cv, op, secret, pre);
    assert Publishes(update, from, secret);
    InstalledTree(pre, cv.capacity, from, secret, update);
    CommitterKnows(cv, pre, secret, update, out.0);
  }

  lemma {:induction false} CommitterKnows(cv: View, pre: seq<TreeNode>, secret: PathSecret,
      update: seq<UpdatePathNode>, after: View)
    requires ValidView(cv) && KnownAbove(cv) && ValidTree(pre, cv.capacity)
    requires Publishes(update, MyNode(cv), secret)
    requires after.capacity == cv.capacity && after.myLeaf == cv.myLeaf
    requires after.nodes == InstallPath(pre, Ancestors(MyNode(cv)), update)
    requires after.knownSecrets == cv.knownSecrets + SecretsFrom(Ancestors(MyNode(cv)), 0, secret)
    ensures ValidView(after) && KnownAbove(after) && KnowsAncestors(after)
  {
    InstalledTree(pre, cv.capacity, MyNode(cv), secret, update);
    forall a: nat
      ensures a in SecretsFrom(Ancestors(MyNode(cv)), 0, secret) <==> Within(MyNode(cv), a) && a != MyNode(cv)
    {
      CommitterLearns(MyNode(cv), secret, a);
    }
    forall a: nat | Within(MyNode(cv), a) && a != MyNode(cv) && a < |after.nodes|
      ensures a in after.knownSecrets && after.nodes[a] == Internal(NodeKey(after.knownSecrets[a]))
    {
      CommitterLearns(MyNode(cv), secret, a);
      var k := WithinUp(MyNode(cv), a);
      InstalledAt(pre, cv.capacity, MyNode(cv), secret, update, k - 1);
    }
  }

  /** The committer keeps the secret of each of its proper ancestors, and nothing else. */
  lemma {:induction false} CommitterLearns(from: nat, secret: PathSecret, a: nat)
    ensures a in SecretsFrom(Ancestors(from), 0, secret) <==> Within(from, a) && a != from
    ensures forall k :: 1 <= k <= Depth(from) && Up(from, k) == a ==>
                          a in SecretsFrom(Ancestors(from), 0, secret)
                          && SecretsFrom(Ancestors(from), 0, secret)[a] == Walk(secret, k - 1)
  {
    var path := Ancestors(from);
    AncestorsDistinct(from);
    SecretsFromIs(path, 0, secret);
    assert path[0..] == path;
    forall k | 1 <= k <= Depth(from) && Up(from, k) == a
      ensures a in SecretsFrom(path, 0, secret) && SecretsFrom(path, 0, secret)[a] == Walk(secret, k - 1)
    {
      AncestorsAt(from, k - 1);
      assert path[k - 1] == a;
    }
  }

  // ----- joining -----

  /** Nothing populated strictly between the newcomer's leaf and the nodes it shares with the committer. */
  ghost predicate BlankBelowMeet(nodes: seq<TreeNode>, target: nat, from: nat) {
    forall a: nat :: Within(target, a) && a != target && !Within(from, a) && a < |nodes| ==> nodes[a].Blank?
  }

  /** The ancestors of `node` not shared with `from` are exactly those up to the meeting level's sibling. */
  lemma {:induction false} BelowMeet(from: nat, node: nat, a: nat)
    requires !Within(node, from) && !Within(from, node) && Within(node, a)
    ensures !Within(from, a) <==> Within(a, Sibling(Prev(from, MeetLevel(from, node))))
  {
    var meet := MeetLevel(from, node);
    var prev := Prev(from, meet);
    var sib := Sibling(prev);
    ExactlyOneLevel(from, node, meet);
    UpParent(from, meet);
    UpWithin(from, meet);
    UpWithin(from, meet + 1);
    assert Parent(sib) == Parent(prev) == Up(from, meet + 1);
    if Within(a, sib) && Within(from, a) {
      WithinTrans(from, a, sib);
      WithinSibling(from, prev);
    }
    if !Within(from, a) {
      WithinChain(node, a, sib);
      if Within(sib, a) && a != sib {
        WithinTrans(from, Up(from, meet + 1), a);
      }
    }
  }

  lemma {:induction false} BlankBelowMeetIs(nodes: seq<TreeNode>, capacity: nat, target: nat, from: nat)
    requires capacity >= 1 && |nodes| == 2 * capacity - 1 && from < |nodes|
    requires !Within(target, from) && !Within(from, target)
    ensures BlankBelowMeet(nodes, target, from) <==>
            BlankAbove(nodes, target, Sibling(Prev(from, MeetLevel(from, target))))
  {
    forall a: nat | Within(target, a)
      ensures !Within(from, a) <==> Within(a, Sibling(Prev(from, MeetLevel(from, target))))
    {
      BelowMeet(from, target, a);
    }
  }

  /** A newcomer holds only its leaf key, so it can decrypt exactly when its own leaf is in the resolution. */
  lemma {:induction false} NewcomerHolds(v: View, pre: seq<TreeNode>, from: nat)
    requires v.capacity >= 1 && |pre| == 2 * v.capacity - 1 && from < |pre| && v.myLeaf < v.capacity
    requires v.knownSecrets == map[] && !Within(MyNode(v), from) && !Within(from, MyNode(v))
    requires pre[MyNode(v)].Leaf? && pre[MyNode(v)].package.publicKey == v.myLeafKey
    ensures BlankBelowMeet(pre, MyNode(v), from) ==> HoldsSome(v, pre, from) && KnowsOff(v, pre, from)
    ensures !BlankBelowMeet(pre, MyNode(v), from) ==> HoldsNone(v, pre, from)
  {
    var me := MyNode(v);
    var meet := MeetLevel(from, me);
    ExactlyOneLevel(from, me, meet);
    SiblingInTree(v.capacity, from, meet);
    BlankBelowMeetIs(pre, v.capacity, me, from);
    ResolutionMembers(pre, v.capacity, Sibling(Prev(from, meet)), me);
    if BlankBelowMeet(pre, me, from) {
      assert me in LevelTargets(pre, v.capacity, from, meet) && Holds(v, pre, me);
    }
  }

  /** The tree before an add differs from the spliced one only at the new leaf. */
  lemma {:induction false} AddKeepsInternal(nodes: seq<TreeNode>, capacity: nat, op: GroupOp, from: nat)
    requires ValidTree(nodes, capacity) && op.Add? && Spliced(nodes, capacity, op).Ok?
    ensures var target := LeafToNode(capacity, op.leafIndex);
            BlankBelowMeet(nodes, target, from) <==> BlankBelowMeet(Spliced(nodes, capacity, op).value, target, from)
  {
  }

  lemma {:induction false} JoiningDecrypts(cv: View, shared: Public, op: GroupOp, secret: PathSecret, v: View)
    requires Live(cv, cv.myLeaf, shared) && op.Add? && Committed(cv, SignerOf(cv), op, secret).Ok?
    requires v == Joining(op.package.publicKey, SnapshotOf(cv, op.leafIndex))
    ensures var out := Committed(cv, SignerOf(cv), op, secret).value;
            var r := CommitApplied(v, out.1);
            && op.leafIndex < cv.capacity
            && (BlankBelowMeet(cv.nodes, MyNode(v), MyNode(cv)) ==>
                  r.Ok? && Live(r.value, op.leafIndex, PublicOf(out.0)) && StartsEpoch(r.value))
            && (!BlankBelowMeet(cv.nodes, MyNode(v), MyNode(cv)) ==> r == Err(CommitNotDecryptable))
  {
    var pre := Spliced(cv.nodes, cv.capacity, op).value;
    var from := MyNode(cv);
    assert v.myLeaf != cv.myLeaf;
    LeavesApart(v.capacity, v.myLeaf, cv.myLeaf);
    LeavesApart(v.capacity, cv.myLeaf, v.myLeaf);
    AddKeepsInternal(cv.nodes, cv.capacity, op, from);
    NewcomerHolds(v, pre, from);
    if BlankBelowMeet(cv.nodes, MyNode(v), from) {
      AcceptsHonest(v, cv, op, secret);
    } else {
      RefusesUndecryptable(v, cv, op, secret, pre);
    }
  }

  /** A member holding no key at the meeting level gets `CommitNotDecryptable`. */
  lemma {:induction false} RefusesUndecryptable(v: View, cv: View, op: GroupOp, secret: PathSecret, pre: seq<TreeNode>)
    requires ValidView(v) && SoundView(cv) && PublicOf(v) == PublicOf(cv) && v.myLeaf != cv.myLeaf && KnownAbove(v)
    requires Spliced(cv.nodes, cv.capacity, op) == Ok(pre)
    requires HoldsNone(v, pre, MyNode(cv))
    ensures CommitApplied(v, Committed(cv, SignerOf(cv), op, secret).value.1) == Err(CommitNotDecryptable)
  {
    var from := MyNode(cv);
    LeavesApart(v.capacity, v.myLeaf, cv.myLeaf);
    LeavesApart(v.capacity, cv.myLeaf, v.myLeaf);
    CommittedBody(cv, op, secret, pre);
    AncestorsLength(from);
    FindIs(v, pre, from, secret);
  }

  /**
   The newcomer of a genuine add joins exactly when every ancestor it does not
   share with the committer is blank; otherwise the commit is undecryptable to it.
   A newcomer that joins is live in the committer's new state.
   */
  lemma {:induction false} JoinsExactlyWhenBlank(cv: View, shared: Public, e: Event, nonce: nat)
    requires Live(cv, cv.myLeaf, shared) && e.AddMember? && Proposed(cv, e, nonce).Some?
    ensures var o := Proposed(cv, e, nonce).value;
            var target := OpOf(cv, e).leafIndex;
            var r := Joined(e.identity, LeafKey(e.leafKey), o.welcome.value, o.commit);
            && target < cv.capacity
            && (r.Ok? <==> BlankBelowMeet(cv.nodes, LeafToNode(cv.capacity, target), MyNode(cv)))
            && (r.Err? ==> r.error == CommitNotDecryptable)
            && (r.Ok? ==> Live(r.value, target, PublicOf(o.after)) && StartsEpoch(r.value))
  {
    ProposedIs(cv, e, nonce);
    var op := OpOf(cv, e);
    var snapshot := SnapshotOf(cv, op.leafIndex);
    assert SnapshotParses(snapshot) by { assert LookInto(0); }
    CommittedBody(cv, op, Fresh(nonce), Spliced(cv.nodes, cv.capacity, op).value);
    JoiningDecrypts(cv, shared, op, Fresh(nonce), Joining(LeafKey(e.leafKey), snapshot));
  }
}
