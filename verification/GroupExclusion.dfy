/**
 Exclusion: once another member removes someone, neither that commit nor any later
 one addresses a ciphertext to a key the removed member could derive.
 */
module GroupExclusion {
  import opened Wrappers
  import opened GroupTree
  import opened GroupTypes
  import opened GroupResolution
  import opened GroupSpec
  import opened GroupDecrypt
  import opened GroupWorld
  import opened GroupConvergence
  import opened GroupMembers
  import opened GroupRuns

  // ----- where each secret was placed -----

  /** `secret` is the one its commit put at node `n`: its steps count the levels up from its origin. */
  ghost predicate Placed(origins: seq<nat>, secret: PathSecret, n: nat) {
    && RootOf(secret) < |origins|
    && StepsOf(secret) < Depth(origins[RootOf(secret)])
    && n == Up(origins[RootOf(secret)], StepsOf(secret) + 1)
  }

  /** Internal nodes carry placed path keys, leaves carry leaf keys. */
  ghost predicate NodePlaced(origins: seq<nat>, node: TreeNode, n: nat) {
    match node
    case Blank => true
    case Leaf(package) => package.publicKey.LeafKey?
    case Internal(key) => key.NodeKey? && Placed(origins, key.secret, n)
  }

  ghost predicate ViewPlaced(origins: seq<nat>, v: View) {
    forall a: nat :: a in v.knownSecrets ==> Placed(origins, v.knownSecrets[a], a)
  }

  ghost predicate PlaceInv(w: World) {
    && (forall n: nat :: n < |w.shared.nodes| ==> NodePlaced(w.origins, w.shared.nodes[n], n))
    && (forall l :: l in w.views ==> ViewPlaced(w.origins, w.views[l]))
  }

  lemma {:induction false} PlacedLater(origins: seq<nat>, from: nat, secret: PathSecret, n: nat)
    requires Placed(origins, secret, n)
    ensures Placed(origins + [from], secret, n)
  {
  }

  /** Stepping a placed secret forward moves straight up the tree. */
  lemma {:induction false} PlacedForward(origins: seq<nat>, secret: PathSecret, a: nat, k: nat, n: nat)
    requires Placed(origins, secret, a) && Placed(origins, Walk(secret, k), n)
    ensures Within(a, n)
  {
    WalkIs(secret, k);
    var from := origins[RootOf(secret)];
    UpCompose(from, StepsOf(secret) + 1, k);
    UpWithin(a, k);
  }

  lemma {:induction false} FreshPlaced(origins: seq<nat>, from: nat, i: nat)
    requires i < Depth(from)
    ensures Placed(origins + [from], Walk(Fresh(|origins|), i), Up(from, i + 1))
  {
    WalkIs(Fresh(|origins|), i);
  }

  /** Every secret learned from a commit is placed where it is filed. */
  lemma {:induction false} LearnedPlaced(origins: seq<nat>, from: nat, node: nat, a: nat)
    requires !Within(node, from) && a in Learned(from, node, Fresh(|origins|))
    ensures Placed(origins + [from], Learned(from, node, Fresh(|origins|))[a], a)
  {
    LearnedOnly(from, node, Fresh(|origins|), a);
    var i := WithinAbove(from, a);
    LearnedAt(from, node, Fresh(|origins|), i);
    FreshPlaced(origins, from, i);
  }

  lemma {:induction false} CommitterPlaced(origins: seq<nat>, from: nat, a: nat)
    requires a in SecretsFrom(Ancestors(from), 0, Fresh(|origins|))
    ensures Placed(origins + [from], SecretsFrom(Ancestors(from), 0, Fresh(|origins|))[a], a)
  {
    CommitterLearns(from, Fresh(|origins|), a);
    var i := WithinAbove(from, a);
    assert 1 <= i + 1 <= Depth(from);
    FreshPlaced(origins, from, i);
  }

  /** The installed tree is placed when the tree before the commit was. */
  lemma {:induction false} TreePlaced(origins: seq<nat>, nodes: seq<TreeNode>, capacity: nat, op: GroupOp, from: nat,
                   update: seq<UpdatePathNode>, n: nat)
    requires ValidTree(nodes, capacity) && Spliced(nodes, capacity, op).Ok? && from < |nodes| && n < |nodes|
    requires op.Add? ==> op.package.publicKey.LeafKey?
    requires Publishes(update, from, Fresh(|origins|))
    requires NodePlaced(origins, nodes[n], n)
    ensures var pre := Spliced(nodes, capacity, op).value;
            NodePlaced(origins + [from], InstallPath(pre, Ancestors(from), update)[n], n)
  {
    var pre := Spliced(nodes, capacity, op).value;
    SplicedValid(nodes, capacity, op);
    if Within(from, n) && n != from {
      var i := WithinAbove(from, n);
      InstalledAt(pre, capacity, from, Fresh(|origins|), update, i);
      FreshPlaced(origins, from, i);
    } else {
      InstalledTree(pre, capacity, from, Fresh(|origins|), update);
    }
  }

  /** A live member that accepts an honest commit learns exactly the secrets above its branch. */
  lemma {:induction false} LiveLearns(v: View, cv: View, op: GroupOp, nonce: nat) returns (after: View)
    requires SoundView(cv) && Live(v, v.myLeaf, PublicOf(cv)) && v.myLeaf != cv.myLeaf
             && !(op.Remove? && op.leafIndex == v.myLeaf)
    requires Committed(cv, SignerOf(cv), op, Fresh(nonce)).Ok?
    ensures CommitApplied(v, Committed(cv, SignerOf(cv), op, Fresh(nonce)).value.1) == Ok(after)
            && !Within(MyNode(v), MyNode(cv))
    ensures after.knownSecrets == v.knownSecrets + Learned(MyNode(cv), MyNode(v), Fresh(nonce))
  {
    LeavesApart(v.capacity, v.myLeaf, cv.myLeaf);
    LeavesApart(v.capacity, cv.myLeaf, v.myLeaf);
    var pre := Spliced(v.nodes, v.capacity, op).value;
    var out := Committed(cv, SignerOf(cv), op, Fresh(nonce)).value;
    LiveHolds(v, pre, MyNode(cv), op);
    after := ReceivesHonest(v, cv, op, Fresh(nonce), pre, out.0, out.1, MyNode(cv), MyNode(v));
    assert LookInto(0);
  }

  lemma {:induction false} ReceiverPlaced(w: World, e: Event, o: Outcome, l: nat)
    requires Inv(w) && PlaceInv(w) && CommitOf(w, e) == Some(o) && l in Others(w, e)
    ensures ViewPlaced(w.origins + [MyNode(w.views[Committer(e)])], Received(w.views[l], o.commit))
  {
    var v, cv := w.views[l], w.views[Committer(e)];
    assert MemberInv(w, l) && MemberInv(w, Committer(e));
    ProposedIs(cv, e, |w.origins|);
    var after := LiveLearns(v, cv, OpOf(cv, e), |w.origins|);
    KnownPlaced(w.origins, v, MyNode(cv), after);
  }

  lemma {:induction false} KnownPlaced(origins: seq<nat>, v: View, from: nat, after: View)
    requires v.capacity >= 1 && !Within(MyNode(v), from) && ViewPlaced(origins, v)
    requires after.knownSecrets == v.knownSecrets + Learned(from, MyNode(v), Fresh(|origins|))
    ensures ViewPlaced(origins + [from], after)
  {
    forall a: nat | a in after.knownSecrets
      ensures Placed(origins + [from], after.knownSecrets[a], a)
    {
      if a in Learned(from, MyNode(v), Fresh(|origins|)) {
        LearnedPlaced(origins, from, MyNode(v), a);
      } else {
        PlacedLater(origins, from, v.knownSecrets[a], a);
      }
    }
  }

  lemma {:induction false} CommitterViewPlaced(origins: seq<nat>, cv: View, op: GroupOp)
    requires SoundView(cv) && ViewPlaced(origins, cv) && Committed(cv, SignerOf(cv), op, Fresh(|origins|)).Ok?
    ensures ViewPlaced(origins + [MyNode(cv)], Committed(cv, SignerOf(cv), op, Fresh(|origins|)).value.0)
  {
    var after := Committed(cv, SignerOf(cv), op, Fresh(|origins|)).value.0;
    forall a: nat | a in after.knownSecrets
      ensures Placed(origins + [MyNode(cv)], after.knownSecrets[a], a)
    {
      if a in SecretsFrom(Ancestors(MyNode(cv)), 0, Fresh(|origins|)) {
        CommitterPlaced(origins, MyNode(cv), a);
      } else {
        PlacedLater(origins, MyNode(cv), cv.knownSecrets[a], a);
      }
    }
  }

  lemma {:induction false} JoinerPlaced(w: World, e: Event, o: Outcome, l: nat)
    requires Inv(w) && CommitOf(w, e) == Some(o) && l in JoinedViews(e, o)
    ensures ViewPlaced(w.origins + [MyNode(w.views[Committer(e)])], JoinedViews(e, o)[l])
  {
    var cv := w.views[Committer(e)];
    assert MemberInv(w, Committer(e));
    JoinedViewIs(e, o, l);
    NewcomerPlaced(w.origins, cv, e, JoinedViews(e, o)[l]);
  }

  lemma {:induction false} JoinedViewIs(e: Event, o: Outcome, l: nat)
    requires l in JoinedViews(e, o)
    ensures e.AddMember? && o.welcome.Some?
    ensures Joined(e.identity, LeafKey(e.leafKey), o.welcome.value, o.commit) == Ok(JoinedViews(e, o)[l])
  {
  }

  lemma {:induction false} NewcomerPlaced(origins: seq<nat>, cv: View, e: Event, after: View)
    requires Live(cv, cv.myLeaf, PublicOf(cv)) && e.AddMember? && Proposed(cv, e, |origins|).Some?
    requires Joined(e.identity, LeafKey(e.leafKey), Proposed(cv, e, |origins|).value.welcome.value,
             Proposed(cv, e, |origins|).value.commit)
             == Ok(after)
    ensures ViewPlaced(origins + [MyNode(cv)], after)
  {
    var same := JoinerReceives(cv, e, |origins|);
    KnownPlaced(origins, Joining(LeafKey(e.leafKey), SnapshotOf(cv, after.myLeaf)), MyNode(cv), after);
  }

  /** A successful join is the newcomer's starting view receiving an honest commit. */
  lemma {:induction false} JoinerReceives(cv: View, e: Event, nonce: nat) returns (after: View)
    requires Live(cv, cv.myLeaf, PublicOf(cv)) && e.AddMember? && Proposed(cv, e, nonce).Some?
    requires Joined(e.identity, LeafKey(e.leafKey), Proposed(cv, e, nonce).value.welcome.value,
             Proposed(cv, e, nonce).value.commit).Ok?
    ensures Joined(e.identity, LeafKey(e.leafKey), Proposed(cv, e, nonce).value.welcome.value,
            Proposed(cv, e, nonce).value.commit)
            == Ok(after)
    ensures var v := Joining(LeafKey(e.leafKey), SnapshotOf(cv, after.myLeaf));
            v.myLeaf < v.capacity && !Within(MyNode(v), MyNode(cv)) &&
            after.knownSecrets == v.knownSecrets + Learned(MyNode(cv), MyNode(v), Fresh(nonce))
  {
    ProposedIs(cv, e, nonce);
    var op := OpOf(cv, e);
    var v := Joining(LeafKey(e.leafKey), SnapshotOf(cv, op.leafIndex));
    var pre := Spliced(cv.nodes, cv.capacity, op).value;
    LeavesApart(v.capacity, v.myLeaf, cv.myLeaf);
    LeavesApart(v.capacity, cv.myLeaf, v.myLeaf);
    JoinsExactlyWhenBlank(cv, PublicOf(cv), e, nonce);
    AddKeepsInternal(cv.nodes, cv.capacity, op, MyNode(cv));
    NewcomerHolds(v, pre, MyNode(cv));
    var out := Committed(cv, SignerOf(cv), op, Fresh(nonce)).value;
    after := ReceivesHonest(v, cv, op, Fresh(nonce), pre, out.0, out.1, MyNode(cv), MyNode(v));
    assert LookInto(0);
    CommittedBody(cv, op, Fresh(nonce), pre);
  }

  /** The tree a commit leaves behind. */
  lemma {:induction false} CommitTree(w: World, e: Event, o: Outcome)
    requires Inv(w) && CommitOf(w, e) == Some(o)
    ensures var cv := w.views[Committer(e)];
            var op := OpOf(cv, e);
            && SoundView(cv) && cv.nodes == w.shared.nodes && cv.capacity == w.shared.capacity
            && Spliced(cv.nodes, cv.capacity, op).Ok?
            && o.commit.body.path == PathUpdate(Spliced(cv.nodes, cv.capacity, op).value, cv.capacity, MyNode(cv),
                Fresh(|w.origins|))
            && o.after.nodes == InstallPath(Spliced(cv.nodes, cv.capacity, op).value, Ancestors(MyNode(cv)),
                o.commit.body.path)
            && MyNode0(o.after) == MyNode(cv)
            && Publishes(o.commit.body.path, MyNode(cv), Fresh(|w.origins|))
  {
    var cv := w.views[Committer(e)];
    assert MemberInv(w, Committer(e));
    ProposedIs(cv, e, |w.origins|);
    CommittedBody(cv, OpOf(cv, e), Fresh(|w.origins|), Spliced(cv.nodes, cv.capacity, OpOf(cv, e)).value);
  }

  lemma {:induction false} CommitKeepsPlace(w: World, e: Event, o: Outcome)
    requires Inv(w) && PlaceInv(w) && CommitOf(w, e) == Some(o)
    ensures PlaceInv(CommitStep(w, e, o))
  {
    var next := CommitStep(w, e, o);
    var cv := w.views[Committer(e)];
    var op := OpOf(cv, e);
    CommitTree(w, e, o);
    ProposedIs(cv, e, |w.origins|);
    forall n: nat | n < |next.shared.nodes|
      ensures NodePlaced(next.origins, next.shared.nodes[n], n)
    {
      TreePlaced(w.origins, cv.nodes, cv.capacity, op, MyNode(cv), o.commit.body.path, n);
    }
    forall l | l in next.views
      ensures ViewPlaced(next.origins, next.views[l])
    {
      ViewAfter(w, e, o, l);
      if l in JoinedViews(e, o) {
        JoinerPlaced(w, e, o, l);
      } else if l == Committer(e) {
        CommitterViewPlaced(w.origins, cv, op);
      } else {
        ReceiverPlaced(w, e, o, l);
      }
    }
  }

  /** Application traffic touches neither the tree nor anyone's path secrets. */
  lemma {:induction false} TrafficKeepsSecrets(w: World, e: Event, l: nat)
    requires (e.Send? || e.Deliver?) && l in Step(w, e).views
    ensures l in w.views && Step(w, e).views[l].knownSecrets == w.views[l].knownSecrets
    ensures Step(w, e).shared == w.shared && Step(w, e).origins == w.origins
  {
  }

  lemma {:induction false} TrafficKeepsPlace(w: World, e: Event)
    requires PlaceInv(w) && (e.Send? || e.Deliver?)
    ensures PlaceInv(Step(w, e))
  {
    var next := Step(w, e);
    assert next.shared == w.shared && next.origins == w.origins;
    forall l | l in next.views ensures ViewPlaced(next.origins, next.views[l]) {
      TrafficKeepsSecrets(w, e, l);
      assert ViewPlaced(w.origins, w.views[l]);
    }
  }

  lemma {:induction false} StepKeepsPlace(w: World, e: Event)
    requires Inv(w) && PlaceInv(w)
    ensures PlaceInv(Step(w, e))
  {
    if e.Send? || e.Deliver? {
      TrafficKeepsPlace(w, e);
    } else if CommitOf(w, e).Some? {
      CommitKeepsPlace(w, e, CommitOf(w, e).value);
    }
  }

  lemma {:induction false} RunKeepsPlace(w: World, events: seq<Event>)
    requires Inv(w) && PlaceInv(w)
    ensures PlaceInv(Run(w, events))
    decreases |events|
  {
    if events != [] {
      StepKeepsInv(w, events[0]);
      StepKeepsPlace(w, events[0]);
      RunKeepsPlace(Step(w, events[0]), events[1..]);
    }
  }

  // ----- what a removed member can still derive -----

  /** The member can derive the private half of `key`: its leaf key, or a known secret stepped forward. */
  ghost predicate Derivable(v: View, key: PublicKey) {
    key == v.myLeafKey || exists a: nat, k: nat :: a in v.knownSecrets && key == NodeKey(Walk(v.knownSecrets[a], k))
  }

  /**
   No populated node of the tree carries a key the stale view can derive, and none of its secrets is still to
   be drawn.
   */
  ghost predicate Excluded(origins: seq<nat>, nodes: seq<TreeNode>, stale: View) {
    && stale.myLeafKey.LeafKey?
    && (forall a: nat :: a in stale.knownSecrets ==> RootOf(stale.knownSecrets[a]) < |origins|)
    && (forall n: nat :: n < |nodes| && !nodes[n].Blank? ==> !Derivable(stale, NodePublicKey(nodes[n])))
  }

  /** No ciphertext of an update path is addressed to a key the stale view can derive. */
  ghost predicate NoneAddressed(path: seq<UpdatePathNode>, stale: View) {
    forall i, k :: 0 <= i < |path| && 0 <= k < |path[i].ciphertexts|
        ==> !Derivable(stale, path[i].ciphertexts[k].target)
  }

  /** Fresh secrets are beyond a stale view's reach. */
  lemma {:induction false} FreshNotDerivable(origins: seq<nat>, stale: View, i: nat)
    requires stale.myLeafKey.LeafKey?
    requires forall a: nat :: a in stale.knownSecrets ==> RootOf(stale.knownSecrets[a]) < |origins|
    ensures !Derivable(stale, NodeKey(Walk(Fresh(|origins|), i)))
  {
    WalkIs(Fresh(|origins|), i);
    forall a: nat, k: nat | a in stale.knownSecrets
      ensures Walk(Fresh(|origins|), i) != Walk(stale.knownSecrets[a], k)
    {
      WalkIs(stale.knownSecrets[a], k);
    }
  }

  /** A commit built on an excluded tree addresses nothing to the stale view, and leaves an excluded tree. */
  lemma {:induction false} CommitExcludes(origins: seq<nat>, pre: seq<TreeNode>, capacity: nat, from: nat,
      update: seq<UpdatePathNode>, stale: View)
    requires ValidTree(pre, capacity) && from < |pre| && Excluded(origins, pre, stale)
    requires update == PathUpdate(pre, capacity, from, Fresh(|origins|))
    ensures NoneAddressed(update, stale)
    ensures Excluded(origins + [from], InstallPath(pre, Ancestors(from), update), stale)
  {
    assert Publishes(update, from, Fresh(|origins|));
    forall i, k | 0 <= i < |update| && 0 <= k < |update[i].ciphertexts|
      ensures !Derivable(stale, update[i].ciphertexts[k].target)
    {
      var targets := LevelTargets(pre, capacity, from, i);
      assert update[i].ciphertexts[k].target == NodePublicKey(pre[targets[k]]);
    }
    var after := InstallPath(pre, Ancestors(from), update);
    forall n: nat | n < |after| && !after[n].Blank?
      ensures !Derivable(stale, NodePublicKey(after[n]))
    {
      if Within(from, n) && n != from {
        var i := WithinAbove(from, n);
        InstalledAt(pre, capacity, from, Fresh(|origins|), update, i);
        FreshNotDerivable(origins, stale, i);
      } else {
        InstalledTree(pre, capacity, from, Fresh(|origins|), update);
      }
    }
  }

  /** Splicing in anything but the stale view's own package keeps the tree excluded. */
  lemma {:induction false} SpliceExcludes(origins: seq<nat>, nodes: seq<TreeNode>, capacity: nat, op: GroupOp,
      stale: View)
    requires ValidTree(nodes, capacity) && Spliced(nodes, capacity, op).Ok? && Excluded(origins, nodes, stale)
    requires op.Add? ==> op.package.publicKey.LeafKey? && op.package.publicKey != stale.myLeafKey
    ensures Excluded(origins, Spliced(nodes, capacity, op).value, stale)
  {
    SplicedValid(nodes, capacity, op);
  }

  ghost predicate OnlyLeafWith(nodes: seq<TreeNode>, key: PublicKey, n: nat) {
    forall m: nat :: m < |nodes| && nodes[m].Leaf? && nodes[m].package.publicKey == key ==> m == n
  }

  /** Removal blanks every node whose key the removed member could derive. */
  lemma {:induction false} RemovalExcludes(w: World, r: nat)
    requires Inv(w) && PlaceInv(w) && r in w.views
    requires OnlyLeafWith(w.shared.nodes, w.views[r].myLeafKey, MyNode0(w.views[r]))
    ensures var stale := w.views[r];
            && SoundView(stale) && w.shared.nodes == stale.nodes
            && Spliced(stale.nodes, stale.capacity, Remove(r)).Ok?
            && Excluded(w.origins, Spliced(stale.nodes, stale.capacity, Remove(r)).value, stale)
            && (forall a: nat :: a < |stale.nodes| && Within(MyNode(stale), a) ==>
                                   Spliced(stale.nodes, stale.capacity, Remove(r)).value[a].Blank?)
  {
    var stale := w.views[r];
    assert MemberInv(w, r);
    var me := MyNode(stale);
    var pre := Spliced(stale.nodes, stale.capacity, Remove(r)).value;
    SplicedValid(stale.nodes, stale.capacity, Remove(r));
    BlankAllIs(stale.nodes[me := Blank], Ancestors(me));
    AncestorsDistinct(me);
    assert NodePlaced(w.origins, w.shared.nodes[me], me);
    forall n: nat | n < |pre| && !pre[n].Blank?
      ensures !Derivable(stale, NodePublicKey(pre[n]))
    {
      assert pre[n] == stale.nodes[n] && NodePlaced(w.origins, w.shared.nodes[n], n);
      NotDerivableOffPath(w.origins, stale, n);
    }
  }

  /** A placed node that is neither the member's leaf nor above it carries a key the member cannot derive. */
  lemma {:induction false} NotDerivableOffPath(origins: seq<nat>, v: View, n: nat)
    requires SoundView(v) && KnownAbove(v) && ViewPlaced(origins, v) && v.myLeafKey.LeafKey?
    requires n < |v.nodes| && !v.nodes[n].Blank? && NodePlaced(origins, v.nodes[n], n)
    requires !Within(MyNode(v), n)
    requires v.nodes[n].Leaf? ==> v.nodes[n].package.publicKey != v.myLeafKey
    ensures !Derivable(v, NodePublicKey(v.nodes[n]))
  {
    forall a: nat, k: nat | a in v.knownSecrets
      ensures NodePublicKey(v.nodes[n]) != NodeKey(Walk(v.knownSecrets[a], k))
    {
      if NodePublicKey(v.nodes[n]) == NodeKey(Walk(v.knownSecrets[a], k)) {
        PlacedForward(origins, v.knownSecrets[a], a, k, n);
        WithinTrans(MyNode(v), a, n);
      }
    }
  }

  /** Exclusion survives every later event that does not re-add the removed member's package. */
  lemma {:induction false} StepKeepsExcluded(w: World, e: Event, stale: View)
    requires Inv(w) && Excluded(w.origins, w.shared.nodes, stale)
    requires e.AddMember? ==> LeafKey(e.leafKey) != stale.myLeafKey
    ensures Excluded(Step(w, e).origins, Step(w, e).shared.nodes, stale)
    ensures CommitOf(w, e).Some? ==> NoneAddressed(CommitOf(w, e).value.commit.body.path, stale)
  {
    if CommitOf(w, e).Some? {
      var o := CommitOf(w, e).value;
      var cv := w.views[Committer(e)];
      CommitTree(w, e, o);
      SplicedValid(cv.nodes, cv.capacity, OpOf(cv, e));
      SpliceExcludes(w.origins, cv.nodes, cv.capacity, OpOf(cv, e), stale);
      CommitExcludes(w.origins, Spliced(cv.nodes, cv.capacity, OpOf(cv, e)).value, cv.capacity, MyNode(cv),
                     o.commit.body.path, stale);
    }
  }

  lemma {:induction false} RunKeepsExcluded(w: World, events: seq<Event>, stale: View)
    requires Inv(w) && Excluded(w.origins, w.shared.nodes, stale)
    requires forall e :: e in events && e.AddMember? ==> LeafKey(e.leafKey) != stale.myLeafKey
    ensures Excluded(Run(w, events).origins, Run(w, events).shared.nodes, stale)
    decreases |events|
  {
    if events != [] {
      assert events[0] in events;
      StepKeepsInv(w, events[0]);
      StepKeepsExcluded(w, events[0], stale);
      assert forall e :: e in events[1..] ==> e in events;
      RunKeepsExcluded(Step(w, events[0]), events[1..], stale);
    }
  }

  /** What exclusion of `r` by `c`'s commit in world `w` means, for one later run and the commit after it. */
  ghost predicate ShutOut(w: World, c: nat, r: nat, after: seq<Event>, next: Event)
    requires r in w.views && CommitOf(w, RemoveMember(c, r)).Some?
  {
    var stale := w.views[r];
    var removal := CommitOf(w, RemoveMember(c, r)).value;
    var later := Run(Step(w, RemoveMember(c, r)), after);
    && ValidView(stale) && CommitApplied(stale, removal.commit) == Err(CommitNotDecryptable)
    && NoneAddressed(removal.commit.body.path, stale)
    && (CommitOf(later, next).Some? ==> NoneAddressed(CommitOf(later, next).value.commit.body.path, stale))
  }

  lemma {:induction false} RemovedStaysOut(w: World, c: nat, r: nat, after: seq<Event>, next: Event)
    requires Inv(w) && PlaceInv(w) && c != r && r in w.views && CommitOf(w, RemoveMember(c, r)).Some?
    requires OnlyLeafWith(w.shared.nodes, w.views[r].myLeafKey, MyNode0(w.views[r]))
    requires forall e :: e in after + [next] && e.AddMember? ==> LeafKey(e.leafKey) != w.views[r].myLeafKey
    ensures ShutOut(w, c, r, after, next)
  {
    RemovalShutsOut(w, c, r);
    var w1 := Step(w, RemoveMember(c, r));
    StepKeepsInv(w, RemoveMember(c, r));
    assert forall e :: e in after ==> e in after + [next];
    RunKeepsInv(w1, after);
    RunKeepsExcluded(w1, after, w.views[r]);
    assert next in after + [next];
    StepKeepsExcluded(Run(w1, after), next, w.views[r]);
  }

  lemma {:induction false} FoundedPlaced(groupId: GroupId, seed: nat, identity: Identity, leafKey: nat, capacity: nat)
    requires Created(groupId, seed, identity, leafKey, capacity).Ok?
    ensures PlaceInv(Founded(Created(groupId, seed, identity, leafKey, capacity).value))
  {
  }

  /** The removal itself: undecryptable to the removed member, and the tree it leaves is excluded. */
  lemma {:induction false} RemovalShutsOut(w: World, c: nat, r: nat)
    requires Inv(w) && PlaceInv(w) && c != r && r in w.views && CommitOf(w, RemoveMember(c, r)).Some?
    requires OnlyLeafWith(w.shared.nodes, w.views[r].myLeafKey, MyNode0(w.views[r]))
    ensures var stale := w.views[r];
            var o := CommitOf(w, RemoveMember(c, r)).value;
            && ValidView(stale) && CommitApplied(stale, o.commit) == Err(CommitNotDecryptable)
            && NoneAddressed(o.commit.body.path, stale)
            && Excluded(Step(w, RemoveMember(c, r)).origins, Step(w, RemoveMember(c, r)).shared.nodes, stale)
  {
    var e := RemoveMember(c, r);
    var o := CommitOf(w, e).value;
    var cv, stale := w.views[c], w.views[r];
    assert MemberInv(w, c) && MemberInv(w, r);
    ProposedIs(cv, e, |w.origins|);
    CommitTree(w, e, o);
    RemovalExcludes(w, r);
    var pre := Spliced(cv.nodes, cv.capacity, Remove(r)).value;
    SplicedValid(cv.nodes, cv.capacity, Remove(r));
    CommitExcludes(w.origins, pre, cv.capacity, MyNode(cv), o.commit.body.path, stale);
    StaleHoldsNone(stale, cv, pre);
    RefusesUndecryptable(stale, cv, Remove(r), Fresh(|w.origins|), pre);
  }

  /** With its whole path blank, the removed member holds no key of any resolution. */
  lemma {:induction false} StaleHoldsNone(stale: View, cv: View, pre: seq<TreeNode>)
    requires ValidView(stale) && KnownAbove(stale) && |pre| == |stale.nodes|
    requires cv.capacity == stale.capacity && cv.myLeaf < cv.capacity && cv.myLeaf != stale.myLeaf
    requires forall a: nat :: a < |pre| && Within(MyNode(stale), a) ==> pre[a].Blank?
    ensures HoldsNone(stale, pre, MyNode(cv))
  {
    LeavesApart(cv.capacity, stale.myLeaf, cv.myLeaf);
    var meet := MeetLevel(MyNode(cv), MyNode(stale));
    SiblingInTree(cv.capacity, MyNode(cv), meet);
    forall t | t in LevelTargets(pre, cv.capacity, MyNode(cv), meet)
      ensures KeyFor(stale, t).None?
    {
      assert !pre[t].Blank?;
    }
  }

  // ----- a member that removes itself -----

  /** An update path from a leaf installs at the root the key of the secret kept for the root. */
  lemma {:induction false} RootReinstalled(pre: seq<TreeNode>, capacity: nat, from: nat, secret: PathSecret)
    returns (i: nat)
    requires capacity >= 2 && |pre| == 2 * capacity - 1 && 0 < from < |pre|
    ensures var secrets := SecretsFrom(Ancestors(from), 0, secret);
            && 0 in secrets && secrets[0] == Walk(secret, i)
            && InstallPath(pre, Ancestors(from), PathUpdate(pre, capacity, from, secret))[0]
                == Internal(NodeKey(Walk(secret, i)))
  {
    WithinRoot(from);
    i := WithinAbove(from, 0);
    assert Publishes(PathUpdate(pre, capacity, from, secret), from, secret);
    InstalledAt(pre, capacity, from, secret, PathUpdate(pre, capacity, from, secret), i);
    CommitterLearns(from, secret, 0);
    assert 1 <= i + 1 <= Depth(from);
  }

  /**
   Why exclusion asks for another committer: a member may remove its own leaf, and as
   it draws that commit's secret it derives the new root key itself.
   */
  lemma {:induction false} SelfRemoverKeepsRootKey(v: View, signer: Identity, secret: PathSecret)
    requires ValidView(v) && IsMember(v, v.myLeaf)
    ensures var r := ProposedRemove(v, signer, v.myLeaf, secret);
            && r.Ok? && |r.value.0.nodes| == |v.nodes| && r.value.0.nodes[MyNode(v)].Blank?
            && r.value.0.nodes[0].Internal? && Derivable(r.value.0, r.value.0.nodes[0].key)
  {
    var pre := Spliced(v.nodes, v.capacity, Remove(v.myLeaf)).value;
    var i := RootReinstalled(pre, v.capacity, MyNode(v), secret);
    SelfRemovalBlanks(v, pre, secret);
    RootKeyDerivable(ProposedRemove(v, signer, v.myLeaf, secret).value.0, secret, i);
  }

  lemma {:induction false} RootKeyDerivable(after: View, secret: PathSecret, i: nat)
    requires 0 in after.knownSecrets && after.knownSecrets[0] == Walk(secret, i)
    ensures Derivable(after, NodeKey(Walk(secret, i)))
  {
    assert Walk(after.knownSecrets[0], 0) == Walk(secret, i);
  }

  lemma {:induction false} SelfRemovalBlanks(v: View, pre: seq<TreeNode>, secret: PathSecret)
    requires ValidView(v) && Spliced(v.nodes, v.capacity, Remove(v.myLeaf)) == Ok(pre)
    ensures InstallPath(pre, Ancestors(MyNode(v)), PathUpdate(pre, v.capacity, MyNode(v), secret))[MyNode(v)].Blank?
  {
    BlankAllIs(v.nodes[MyNode(v) := Blank], Ancestors(MyNode(v)));
    SplicedValid(v.nodes, v.capacity, Remove(v.myLeaf));
    assert Publishes(PathUpdate(pre, v.capacity, MyNode(v), secret), MyNode(v), secret);
    InstalledTree(pre, v.capacity, MyNode(v), secret, PathUpdate(pre, v.capacity, MyNode(v), secret));
  }
}
