/**
 Secrecy after a removal. Whoever keeps a removed member's view, the secrets drawn
 at its leaf and every ciphertext of the whole run can still reach only path
 secrets drawn before the removal, hence no epoch secret after it.
 */
module GroupSecrecy {
  import opened Wrappers
  import opened GroupTree
  import opened GroupTypes
  import opened GroupResolution
  import opened GroupSpec
  import opened GroupDecrypt
  import opened GroupWorld
  import opened GroupConvergence
  import opened GroupMembers
  import opened GroupRuns
  import opened GroupExclusion
  import opened GroupPackages

  // ----- which secrets a leaf can reach -----

  /** A path secret at or past the level where its commit's path passes above node `me`. */
  ghost predicate InReach(origins: seq<nat>, me: nat, s: PathSecret) {
    && RootOf(s) < |origins|
    && (StepsOf(s) < Depth(origins[RootOf(s)]) ==> Within(me, Up(origins[RootOf(s)], StepsOf(s) + 1)))
  }

  ghost predicate KeyInReach(origins: seq<nat>, me: nat, own: PublicKey, key: PublicKey) {
    key == own || (key.NodeKey? && InReach(origins, me, key.secret))
  }

  lemma {:induction false} ReachSteps(origins: seq<nat>, me: nat, s: PathSecret)
    requires InReach(origins, me, s)
    ensures InReach(origins, me, PathStep(s))
  {
    var from, k := origins[RootOf(s)], StepsOf(s);
    if k + 1 < Depth(from) {
      UpParent(from, k + 1);
      assert Within(Up(from, k + 1), Parent(Up(from, k + 1)));
      WithinTrans(me, Up(from, k + 1), Up(from, k + 2));
    }
  }

  /** What is drawn at the leaf itself is in its reach. */
  lemma {:induction false} OwnDrawInReach(origins: seq<nat>, me: nat, f: nat)
    requires f < |origins| && origins[f] == me
    ensures InReach(origins, me, Fresh(f))
  {
    if 0 < Depth(me) { UpWithin(me, 1); }
  }

  /** A placed secret stays placed as more commits are made. */
  lemma {:induction false} PlacedStays(origins: seq<nat>, longer: seq<nat>, s: PathSecret, n: nat)
    requires Placed(origins, s, n) && origins <= longer
    ensures Placed(longer, s, n)
  {
    assert longer[RootOf(s)] == origins[RootOf(s)];
  }

  // ----- what travels -----

  ghost predicate Carries(path: seq<UpdatePathNode>, c: Sealed) {
    exists i, k :: 0 <= i < |path| && 0 <= k < |path[i].ciphertexts| && path[i].ciphertexts[k] == c
  }

  /** The event is a commit that carries the ciphertext. */
  ghost predicate Sends(w: World, e: Event, c: Sealed) {
    forall u: nat {:trigger LookInto(u)} :: u == 0 ==>
      CommitOf(w, e).Some? && Carries(CommitOf(w, e).value.commit.body.path, c)
  }

  /** The ciphertext is part of some commit of the run. */
  ghost predicate OnWire(w: World, events: seq<Event>, c: Sealed)
    decreases |events|
  {
    events != [] && (Sends(w, events[0], c) || OnWire(Step(w, events[0]), events[1..], c))
  }

  /** The event adds a member and welcomes it so. */
  ghost predicate Welcomes(w: World, e: Event, wl: Welcome) {
    forall u: nat {:trigger LookInto(u)} :: u == 0 ==>
      CommitOf(w, e).Some? && CommitOf(w, e).value.welcome == Some(wl)
  }

  /** The welcome goes out in the run. */
  ghost predicate WelcomeOnWire(w: World, events: seq<Event>, wl: Welcome)
    decreases |events|
  {
    events != [] && (Welcomes(w, events[0], wl) || WelcomeOnWire(Step(w, events[0]), events[1..], wl))
  }

  lemma {:induction false} WelcomeSplit(w: World, a: seq<Event>, b: seq<Event>, wl: Welcome)
    requires WelcomeOnWire(w, a + b, wl)
    ensures WelcomeOnWire(w, a, wl) || WelcomeOnWire(Run(w, a), b, wl)
    decreases |a|
  {
    if a == [] {
      assert a + b == b;
    } else {
      assert (a + b)[1..] == a[1..] + b;
      if WelcomeOnWire(Step(w, a[0]), (a + b)[1..], wl) { WelcomeSplit(Step(w, a[0]), a[1..], b, wl); }
    }
  }

  lemma {:induction false} WireSplit(w: World, a: seq<Event>, b: seq<Event>, c: Sealed)
    requires OnWire(w, a + b, c)
    ensures OnWire(w, a, c) || OnWire(Run(w, a), b, c)
    decreases |a|
  {
    if a == [] {
      assert a + b == b;
    } else {
      assert (a + b)[1..] == a[1..] + b;
      if OnWire(Step(w, a[0]), (a + b)[1..], c) { WireSplit(Step(w, a[0]), a[1..], b, c); }
    }
  }

  lemma {:induction false} RunSplit(w: World, a: seq<Event>, b: seq<Event>)
    ensures Run(w, a + b) == Run(Run(w, a), b)
    decreases |a|
  {
    if a == [] {
      assert a + b == b;
    } else {
      assert (a + b)[1..] == a[1..] + b;
      RunSplit(Step(w, a[0]), a[1..], b);
    }
  }

  lemma {:induction false} StepExtends(w: World, e: Event)
    ensures w.origins <= Step(w, e).origins
  {
  }

  lemma {:induction false} RunExtends(w: World, events: seq<Event>)
    ensures w.origins <= Run(w, events).origins
    decreases |events|
  {
    if events != [] {
      StepExtends(w, events[0]);
      RunExtends(Step(w, events[0]), events[1..]);
    }
  }

  /** Each ciphertext of a commit seals one level's secret to the key of a node below that level. */
  lemma {:induction false} SealedBelow(pre: seq<TreeNode>, capacity: nat, from: nat, secret: PathSecret, c: Sealed)
    returns (i: nat, t: nat)
    requires ValidTree(pre, capacity) && from < |pre| && Carries(PathUpdate(pre, capacity, from, secret), c)
    ensures i < Depth(from) && t < |pre| && !pre[t].Blank?
    ensures c == Sealed(NodePublicKey(pre[t]), Walk(secret, i)) && Within(t, Up(from, i + 1))
  {
    var update := PathUpdate(pre, capacity, from, secret);
    var j, k :| 0 <= j < |update| && 0 <= k < |update[j].ciphertexts| && update[j].ciphertexts[k] == c;
    i := j;
    var targets := LevelTargets(pre, capacity, from, i);
    t := targets[k];
    assert t in targets;
    SiblingInTree(capacity, from, i);
    ResolutionMembers(pre, capacity, Sibling(Prev(from, i)), t);
    WithinSibling(t, Prev(from, i));
    UpParent(from, i);
  }

  // ----- before the removal: what is in reach stays closed under opening ciphertexts -----

  /** A spliced tree holds placed keys where the tree before it did. */
  lemma {:induction false} SplicePlaced(origins: seq<nat>, nodes: seq<TreeNode>, capacity: nat, op: GroupOp, t: nat)
    requires ValidTree(nodes, capacity) && Spliced(nodes, capacity, op).Ok? && t < |nodes|
    requires NodePlaced(origins, nodes[t], t) && (op.Add? ==> op.package.publicKey.LeafKey?)
    ensures NodePlaced(origins, Spliced(nodes, capacity, op).value[t], t)
  {
    SplicedValid(nodes, capacity, op);
  }

  /** A target in reach is the leaf itself or a node above it. */
  lemma {:induction false} TargetAbove(origins: seq<nat>, me: nat, own: PublicKey, node: TreeNode, t: nat)
    requires NodePlaced(origins, node, t) && !node.Blank? && own.LeafKey?
    requires KeyInReach(origins, me, own, NodePublicKey(node))
    requires node.Leaf? && node.package.publicKey == own ==> t == me
    ensures Within(me, t)
  {
  }

  /** What a commit seals to a key in reach of a leaf is itself in reach of it. */
  lemma {:induction false} SealedInReach(pre: seq<TreeNode>, capacity: nat, leaf: nat, drawn: seq<nat>, me: nat,
      own: PublicKey, origins: seq<nat>, c: Sealed)
    requires ValidTree(pre, capacity) && leaf < capacity && own.LeafKey?
    requires drawn + [LeafToNode(capacity, leaf)] <= origins
    requires forall t: nat :: t < |pre| ==> NodePlaced(drawn, pre[t], t)
    requires var from := LeafToNode(capacity, leaf);
             var update := PathUpdate(pre, capacity, from, Fresh(|drawn|));
             Carries(update, c) && OnlyLeafWith(InstallPath(pre, Ancestors(from), update), own, me)
    requires KeyInReach(origins, me, own, c.target)
    ensures InReach(origins, me, c.secret)
  {
    var from, secret := LeafToNode(capacity, leaf), Fresh(|drawn|);
    var i, t := SealedBelow(pre, capacity, from, secret, c);
    assert NodePlaced(drawn, pre[t], t);
    assert NodePlaced(origins, pre[t], t) by {
      if pre[t].Internal? { PlacedStays(drawn, origins, pre[t].key.secret, t); }
    }
    if pre[t].Leaf? { LeafKept(pre, capacity, leaf, secret, PathUpdate(pre, capacity, from, secret), t); }
    TargetAbove(origins, me, own, pre[t], t);
    WithinTrans(me, t, Up(from, i + 1));
    FreshPlaced(drawn, from, i);
    PlacedStays(drawn + [from], origins, Walk(secret, i), Up(from, i + 1));
  }

  /** The same of one commit of a run. */
  lemma {:induction false} CommitSealsInReach(w: World, e: Event, o: Outcome, me: nat, own: PublicKey,
      origins: seq<nat>, c: Sealed)
    requires Inv(w) && PlaceInv(w) && CommitOf(w, e) == Some(o) && Carries(o.commit.body.path, c)
    requires Step(w, e).origins <= origins && own.LeafKey? && OnlyLeafWith(Step(w, e).shared.nodes, own, me)
    requires KeyInReach(origins, me, own, c.target)
    ensures InReach(origins, me, c.secret)
  {
    CommitTree(w, e, o);
    var cv := w.views[Committer(e)];
    var op := OpOf(cv, e);
    SplicedValid(cv.nodes, cv.capacity, op);
    var pre := Spliced(cv.nodes, cv.capacity, op).value;
    forall t: nat | t < |pre| ensures NodePlaced(w.origins, pre[t], t) {
      SplicePlaced(w.origins, cv.nodes, cv.capacity, op, t);
    }
    SealedInReach(pre, cv.capacity, cv.myLeaf, w.origins, me, own, origins, c);
  }

  /** A leaf of the spliced tree is still there after the update path. */
  lemma {:induction false} LeafKept(pre: seq<TreeNode>, capacity: nat, leaf: nat, secret: PathSecret,
      update: seq<UpdatePathNode>, t: nat)
    requires ValidTree(pre, capacity) && leaf < capacity && t < |pre| && pre[t].Leaf?
    requires Publishes(update, LeafToNode(capacity, leaf), secret)
    ensures InstallPath(pre, Ancestors(LeafToNode(capacity, leaf)), update)[t] == pre[t]
  {
    var from := LeafToNode(capacity, leaf);
    InstalledTree(pre, capacity, from, secret, update);
    AncestorsDistinct(from);
    AncestorsInternal(capacity, from);
  }

  lemma {:induction false} BeforeClosed(w: World, events: seq<Event>, me: nat, own: PublicKey, origins: seq<nat>,
      c: Sealed)
    requires Inv(w) && PlaceInv(w) && own.LeafKey? && HeldOnlyAt(w, events, own, me)
    requires Run(w, events).origins <= origins && OnWire(w, events, c) && KeyInReach(origins, me, own, c.target)
    ensures InReach(origins, me, c.secret)
    decreases |events|
  {
    var e := events[0];
    var next := Step(w, e);
    if OnWire(next, events[1..], c) {
      StepKeepsInv(w, e);
      StepKeepsPlace(w, e);
      BeforeClosed(next, events[1..], me, own, origins, c);
    } else {
      RunExtends(next, events[1..]);
      assert LookInto(0);
      CommitSealsInReach(w, e, CommitOf(w, e).value, me, own, origins, c);
    }
  }

  // ----- after the removal: nothing is sealed to a key in reach -----

  /** No populated node carries a key in reach. */
  ghost predicate Shut(origins: seq<nat>, me: nat, own: PublicKey, nodes: seq<TreeNode>) {
    forall n: nat :: n < |nodes| && !nodes[n].Blank? ==> !KeyInReach(origins, me, own, NodePublicKey(nodes[n]))
  }

  /** No ciphertext of a path is sealed to a key in reach. */
  ghost predicate Misses(origins: seq<nat>, me: nat, own: PublicKey, path: seq<UpdatePathNode>) {
    forall c: Sealed :: Carries(path, c) ==> !KeyInReach(origins, me, own, c.target)
  }

  /** A later commit over a shut tree misses, and leaves a shut tree: what it draws was not drawn before. */
  lemma {:induction false} ShutCommit(pre: seq<TreeNode>, capacity: nat, from: nat, f: nat, me: nat, own: PublicKey,
      origins: seq<nat>)
    requires ValidTree(pre, capacity) && from < |pre| && own.LeafKey? && |origins| <= f
    requires Shut(origins, me, own, pre)
    ensures var update := PathUpdate(pre, capacity, from, Fresh(f));
            Misses(origins, me, own, update) && Shut(origins, me, own, InstallPath(pre, Ancestors(from), update))
  {
    var update := PathUpdate(pre, capacity, from, Fresh(f));
    assert Publishes(update, from, Fresh(f));
    forall c: Sealed | Carries(update, c) ensures !KeyInReach(origins, me, own, c.target) {
      var i, t := SealedBelow(pre, capacity, from, Fresh(f), c);
    }
    var after := InstallPath(pre, Ancestors(from), update);
    forall n: nat | n < |after| && !after[n].Blank?
      ensures !KeyInReach(origins, me, own, NodePublicKey(after[n]))
    {
      if Within(from, n) && n != from {
        var i := WithinAbove(from, n);
        InstalledAt(pre, capacity, from, Fresh(f), update, i);
        WalkIs(Fresh(f), i);
      } else {
        InstalledTree(pre, capacity, from, Fresh(f), update);
      }
    }
  }

  /** A commit's own step, when the tree it splices is shut. */
  lemma {:induction false} CommitShuts(w: World, e: Event, o: Outcome, me: nat, own: PublicKey, origins: seq<nat>)
    requires Inv(w) && CommitOf(w, e) == Some(o) && own.LeafKey? && |origins| <= |w.origins|
    requires var cv := w.views[Committer(e)];
             ValidView(cv) && Spliced(cv.nodes, cv.capacity, OpOf(cv, e)).Ok?
             && Shut(origins, me, own, Spliced(cv.nodes, cv.capacity, OpOf(cv, e)).value)
    ensures Misses(origins, me, own, o.commit.body.path) && Shut(origins, me, own, o.after.nodes)
  {
    CommitTree(w, e, o);
    var cv := w.views[Committer(e)];
    SplicedValid(cv.nodes, cv.capacity, OpOf(cv, e));
    ShutCommit(Spliced(cv.nodes, cv.capacity, OpOf(cv, e)).value, cv.capacity, MyNode(cv), |w.origins|, me, own,
               origins);
  }

  /** Splicing in anything but that leaf's own package keeps the tree shut. */
  lemma {:induction false} SpliceShut(nodes: seq<TreeNode>, capacity: nat, op: GroupOp, me: nat, own: PublicKey,
      origins: seq<nat>)
    requires ValidTree(nodes, capacity) && Spliced(nodes, capacity, op).Ok? && Shut(origins, me, own, nodes)
    requires op.Add? ==> op.package.publicKey.LeafKey? && op.package.publicKey != own
    ensures Shut(origins, me, own, Spliced(nodes, capacity, op).value)
  {
    SplicedValid(nodes, capacity, op);
  }

  lemma {:induction false} StepShut(w: World, e: Event, me: nat, own: PublicKey, origins: seq<nat>)
    requires Inv(w) && own.LeafKey? && |origins| <= |w.origins|
    requires Shut(origins, me, own, w.shared.nodes) && !HandsIn(e, own)
    ensures CommitOf(w, e).Some? ==> Misses(origins, me, own, CommitOf(w, e).value.commit.body.path)
    ensures Shut(origins, me, own, Step(w, e).shared.nodes) && |origins| <= |Step(w, e).origins|
  {
    StepExtends(w, e);
    if e.Send? || e.Deliver? {
      assert Step(w, e).shared == w.shared;
    } else if CommitOf(w, e).Some? {
      LaterCommitShuts(w, e, CommitOf(w, e).value, me, own, origins);
    }
  }

  lemma {:induction false} LaterCommitShuts(w: World, e: Event, o: Outcome, me: nat, own: PublicKey,
      origins: seq<nat>)
    requires Inv(w) && CommitOf(w, e) == Some(o) && own.LeafKey? && |origins| <= |w.origins|
    requires Shut(origins, me, own, w.shared.nodes) && !HandsIn(e, own)
    ensures Misses(origins, me, own, o.commit.body.path) && Shut(origins, me, own, o.after.nodes)
  {
    CommitTree(w, e, o);
    var cv := w.views[Committer(e)];
    SpliceShut(cv.nodes, cv.capacity, OpOf(cv, e), me, own, origins);
    CommitShuts(w, e, o, me, own, origins);
  }

  lemma {:induction false} AfterMisses(w: World, events: seq<Event>, me: nat, own: PublicKey, origins: seq<nat>,
      c: Sealed)
    requires Inv(w) && own.LeafKey? && |origins| <= |w.origins| && Shut(origins, me, own, w.shared.nodes)
    requires Adds(events, own) == 0 && OnWire(w, events, c)
    ensures !KeyInReach(origins, me, own, c.target)
    decreases |events|
  {
    StepShut(w, events[0], me, own, origins);
    assert LookInto(0);
    if OnWire(Step(w, events[0]), events[1..], c) {
      StepKeepsInv(w, events[0]);
      AfterMisses(Step(w, events[0]), events[1..], me, own, origins, c);
    }
  }

  /** The tree a removal splices is shut to the removed member. */
  lemma {:induction false} RemovalShut(w: World, r: nat)
    requires Inv(w) && PlaceInv(w) && r in w.views
    requires OnlyLeafWith(w.shared.nodes, w.views[r].myLeafKey, MyNode0(w.views[r]))
    ensures var stale := w.views[r];
            && SoundView(stale) && w.shared.nodes == stale.nodes && stale.myLeafKey.LeafKey?
            && Spliced(stale.nodes, stale.capacity, Remove(r)).Ok?
            && Shut(w.origins, MyNode(stale), stale.myLeafKey, Spliced(stale.nodes, stale.capacity, Remove(r)).value)
  {
    RemovalExcludes(w, r);
    var stale := w.views[r];
    var me, own := MyNode(stale), stale.myLeafKey;
    var pre := Spliced(stale.nodes, stale.capacity, Remove(r)).value;
    SplicedValid(stale.nodes, stale.capacity, Remove(r));
    forall n: nat | n < |pre| && !pre[n].Blank?
      ensures !KeyInReach(w.origins, me, own, NodePublicKey(pre[n]))
    {
      assert NodePlaced(w.origins, w.shared.nodes[n], n) && pre[n] == w.shared.nodes[n];
      assert !Within(me, n);
      if KeyInReach(w.origins, me, own, NodePublicKey(pre[n])) { TargetAbove(w.origins, me, own, pre[n], n); }
    }
  }

  // ----- what a removed member can obtain -----

  /**
   What a removed member has to go on: every commit and every welcome of the run
   `events` from `start`, the view it held, and the secrets drawn at its leaf up to its
   removal, `origins` listing all draws up to then.
   */
  datatype Leak = Leak(start: World, events: seq<Event>, origins: seq<nat>, stale: View)

  /** A path secret it gets in so many steps: from its view or draws, by stepping one, or by opening a ciphertext. */
  ghost predicate Obtains(k: Leak, s: PathSecret, steps: nat)
    decreases steps
  {
    || (exists a: nat :: a in k.stale.knownSecrets && k.stale.knownSecrets[a] == s)
    || (s.Fresh? && s.id < |k.origins| && k.origins[s.id] == MyNode0(k.stale))
    || (steps > 0 && s.PathStep? && Obtains(k, s.prev, steps - 1))
    || (steps > 0 && exists c: Sealed :: OnWire(k.start, k.events, c) && c.secret == s
                       && (c.target == k.stale.myLeafKey
                           || (c.target.NodeKey? && Obtains(k, c.target.secret, steps - 1))))
  }

  /** A welcome it can open: sealed to its leaf key or to a path key it gets. */
  ghost predicate OpensWelcome(k: Leak, wl: Welcome, steps: nat) {
    && WelcomeOnWire(k.start, k.events, wl)
    && (wl.target == k.stale.myLeafKey || (wl.target.NodeKey? && Obtains(k, wl.target.secret, steps)))
  }

  /**
   An epoch secret it gets: of an epoch no later than its own, from a welcome it can open,
   or mixed from one it gets and a commit secret it gets.
   */
  ghost predicate OpensEpoch(k: Leak, secret: EpochSecret, steps: nat)
    decreases secret
  {
    || EpochsOf(secret) <= EpochsOf(k.stale.epochSecret)
    || (exists wl: Welcome :: OpensWelcome(k, wl, steps) && wl.snapshot.epochSecret == secret)
    || (secret.NextSecret? && OpensEpoch(k, secret.prev, steps) && Obtains(k, secret.commitSecret, steps))
  }

  /** How many commits an epoch secret has been through. */
  function EpochsOf(secret: EpochSecret): nat {
    match secret
    case InitialSecret(_, _) => 0
    case NextSecret(prev, _, _) => 1 + EpochsOf(prev)
  }

  /** Reach is closed under everything the member can do. */
  ghost predicate Closed(k: Leak) {
    var me := MyNode0(k.stale);
    && (forall a: nat :: a in k.stale.knownSecrets ==> InReach(k.origins, me, k.stale.knownSecrets[a]))
    && (forall c: Sealed :: OnWire(k.start, k.events, c) && KeyInReach(k.origins, me, k.stale.myLeafKey, c.target) ==>
                              InReach(k.origins, me, c.secret))
  }

  lemma {:induction false} ObtainsInReach(k: Leak, s: PathSecret, steps: nat)
    requires Closed(k) && Obtains(k, s, steps)
    ensures InReach(k.origins, MyNode0(k.stale), s)
    decreases steps
  {
    if exists a: nat :: a in k.stale.knownSecrets && k.stale.knownSecrets[a] == s {
    } else if s.Fresh? && s.id < |k.origins| && k.origins[s.id] == MyNode0(k.stale) {
      OwnDrawInReach(k.origins, MyNode0(k.stale), s.id);
    } else if s.PathStep? && Obtains(k, s.prev, steps - 1) {
      ObtainsInReach(k, s.prev, steps - 1);
      ReachSteps(k.origins, MyNode0(k.stale), s.prev);
    } else {
      var c: Sealed :| OnWire(k.start, k.events, c) && c.secret == s
                       && (c.target == k.stale.myLeafKey
                           || (c.target.NodeKey? && Obtains(k, c.target.secret, steps - 1)));
      if c.target != k.stale.myLeafKey { ObtainsInReach(k, c.target.secret, steps - 1); }
    }
  }

  /** A live member's own secrets are in its reach. */
  lemma {:induction false} KnownInReach(w: World, r: nat)
    requires Inv(w) && PlaceInv(w) && r in w.views
    ensures forall a: nat :: a in w.views[r].knownSecrets ==>
                               InReach(w.origins, MyNode0(w.views[r]), w.views[r].knownSecrets[a])
  {
    assert MemberInv(w, r) && ViewPlaced(w.origins, w.views[r]);
  }

  /** The removal's own ciphertexts, and all later ones, miss the removed member. */
  lemma {:induction false} RemovalOnwardMisses(w: World, c: nat, r: nat, rest: seq<Event>, ct: Sealed)
    requires Inv(w) && PlaceInv(w) && r in w.views && CommitOf(w, RemoveMember(c, r)).Some?
    requires OnlyLeafWith(w.shared.nodes, w.views[r].myLeafKey, MyNode0(w.views[r]))
    requires Adds(rest, w.views[r].myLeafKey) == 0 && OnWire(w, [RemoveMember(c, r)] + rest, ct)
    ensures !KeyInReach(w.origins, MyNode0(w.views[r]), w.views[r].myLeafKey, ct.target)
  {
    var e, stale := RemoveMember(c, r), w.views[r];
    var me, own := MyNode0(stale), stale.myLeafKey;
    var events := [e] + rest;
    assert events[0] == e && events[1..] == rest;
    RemovalShut(w, r);
    CommitTree(w, e, CommitOf(w, e).value);
    CommitShuts(w, e, CommitOf(w, e).value, me, own, w.origins);
    if Sends(w, e, ct) {
      assert LookInto(0);
    } else {
      StepKeepsInv(w, e);
      StepExtends(w, e);
      AfterMisses(Step(w, e), rest, me, own, w.origins, ct);
    }
  }

  lemma {:induction false} LeakClosed(start: World, before: seq<Event>, c: nat, r: nat, rest: seq<Event>)
    requires Inv(start) && PlaceInv(start) && r in Run(start, before).views
    requires CommitOf(Run(start, before), RemoveMember(c, r)).Some?
    requires var stale := Run(start, before).views[r];
             HeldOnlyAt(start, before, stale.myLeafKey, MyNode0(stale)) && Adds(rest, stale.myLeafKey) == 0
    ensures var w := Run(start, before);
            Closed(Leak(start, before + ([RemoveMember(c, r)] + rest), w.origins, w.views[r]))
  {
    var w := Run(start, before);
    var stale := w.views[r];
    var me, own := MyNode0(stale), stale.myLeafKey;
    RunKeepsInv(start, before);
    RunKeepsPlace(start, before);
    HeldAtEnd(start, before, own, me);
    KnownInReach(w, r);
    RemovalShut(w, r);
    forall ct: Sealed | OnWire(start, before + ([RemoveMember(c, r)] + rest), ct)
                        && KeyInReach(w.origins, me, own, ct.target)
      ensures InReach(w.origins, me, ct.secret)
    {
      WireSplit(start, before, [RemoveMember(c, r)] + rest, ct);
      if OnWire(start, before, ct) {
        BeforeClosed(start, before, me, own, w.origins, ct);
      } else {
        RemovalOnwardMisses(w, c, r, rest, ct);
      }
    }
  }

  // ----- the epochs after the removal -----

  lemma {:induction false} CommittedEpoch(v: View, signer: Identity, op: GroupOp, secret: PathSecret)
    returns (k: nat)
    requires SizedView(v) && Committed(v, signer, op, secret).Ok?
    ensures var after := Committed(v, signer, op, secret).value.0;
            && after.epochSecret.NextSecret? && after.epochSecret.prev == v.epochSecret
            && after.epochSecret.commitSecret == Walk(secret, k)
  {
    k := |Ancestors(MyNode(v))| - 1;
  }

  /** A commit mixes a secret derived from its fresh draw into the next epoch. */
  lemma {:induction false} CommitEpoch(w: World, e: Event, o: Outcome)
    requires Inv(w) && CommitOf(w, e) == Some(o)
    ensures o.after.epochSecret.NextSecret? && o.after.epochSecret.prev == w.shared.epochSecret
    ensures RootOf(o.after.epochSecret.commitSecret) == |w.origins|
  {
    var cv := w.views[Committer(e)];
    assert MemberInv(w, Committer(e));
    ProposedIs(cv, e, |w.origins|);
    var k := CommittedEpoch(cv, SignerOf(cv), OpOf(cv, e), Fresh(|w.origins|));
    WalkIs(Fresh(|w.origins|), k);
  }

  /** An epoch past the removed member's, its last commit secret drawn after so many others. */
  ghost predicate Later(drawn: nat, stale: View, secret: EpochSecret) {
    && secret.NextSecret? && EpochsOf(secret) > EpochsOf(stale.epochSecret)
    && drawn <= RootOf(secret.commitSecret)
  }

  lemma {:induction false} StepLater(w: World, e: Event, drawn: nat, stale: View)
    requires Inv(w) && drawn <= |w.origins| && Later(drawn, stale, w.shared.epochSecret)
    ensures Later(drawn, stale, Step(w, e).shared.epochSecret)
  {
    if e.Send? || e.Deliver? {
      assert Step(w, e).shared == w.shared;
    } else if CommitOf(w, e).Some? {
      CommitEpoch(w, e, CommitOf(w, e).value);
    }
  }

  lemma {:induction false} RunLater(w: World, events: seq<Event>, drawn: nat, stale: View)
    requires Inv(w) && drawn <= |w.origins| && Later(drawn, stale, w.shared.epochSecret)
    ensures Later(drawn, stale, Run(w, events).shared.epochSecret)
    decreases |events|
  {
    if events != [] {
      StepKeepsInv(w, events[0]);
      StepExtends(w, events[0]);
      StepLater(w, events[0], drawn, stale);
      RunLater(Step(w, events[0]), events[1..], drawn, stale);
    }
  }

  lemma {:induction false} RemovalProposed(v: View, c: nat, r: nat, nonce: nat)
    requires SoundView(v) && IsMember(v, r)
    ensures Proposed(v, RemoveMember(c, r), nonce).Some?
  {
  }

  /** Any live member can remove any other. */
  lemma {:induction false} RemovalGoes(w: World, c: nat, r: nat)
    requires Inv(w) && c in w.views && r in w.views
    ensures CommitOf(w, RemoveMember(c, r)).Some?
  {
    assert MemberInv(w, c) && MemberInv(w, r);
    RemovalProposed(w.views[c], c, r, |w.origins|);
  }

  lemma {:induction false} CommitLater(w: World, e: Event, r: nat)
    requires Inv(w) && r in w.views && CommitOf(w, e).Some?
    ensures Later(|w.origins|, w.views[r], Step(w, e).shared.epochSecret)
  {
    assert MemberInv(w, r);
    var o := CommitOf(w, e).value;
    CommitEpoch(w, e, o);
    assert Step(w, e).shared.epochSecret == o.after.epochSecret;
  }

  lemma {:induction false} RemovalEpoch(w: World, c: nat, r: nat, after: seq<Event>)
    requires Inv(w) && c in w.views && r in w.views
    ensures Later(|w.origins|, w.views[r], Run(Step(w, RemoveMember(c, r)), after).shared.epochSecret)
  {
    var e := RemoveMember(c, r);
    RemovalGoes(w, c, r);
    CommitLater(w, e, r);
    StepKeepsInv(w, e);
    StepExtends(w, e);
    RunLater(Step(w, e), after, |w.origins|, w.views[r]);
  }

  // ----- the welcomes -----

  /** A welcome carries the epoch secret from before its commit, sealed to the newcomer's leaf key. */
  lemma {:induction false} WelcomeIs(w: World, e: Event, wl: Welcome)
    requires Inv(w) && Welcomes(w, e, wl)
    ensures e.AddMember? && wl.target == LeafKey(e.leafKey) && wl.snapshot.epochSecret == w.shared.epochSecret
  {
    assert LookInto(0);
    var cv := w.views[Committer(e)];
    assert MemberInv(w, Committer(e));
    ProposedIs(cv, e, |w.origins|);
  }

  /** No event takes the group back to an earlier epoch. */
  lemma {:induction false} StepEpochs(w: World, e: Event)
    requires Inv(w)
    ensures EpochsOf(w.shared.epochSecret) <= EpochsOf(Step(w, e).shared.epochSecret)
  {
    if e.Send? || e.Deliver? {
      assert Step(w, e).shared == w.shared;
    } else if CommitOf(w, e).Some? {
      CommitEpoch(w, e, CommitOf(w, e).value);
    }
  }

  lemma {:induction false} RunEpochs(w: World, events: seq<Event>)
    requires Inv(w)
    ensures EpochsOf(w.shared.epochSecret) <= EpochsOf(Run(w, events).shared.epochSecret)
    decreases |events|
  {
    if events != [] {
      StepKeepsInv(w, events[0]);
      StepEpochs(w, events[0]);
      RunEpochs(Step(w, events[0]), events[1..]);
    }
  }

  /** A welcome of a run is of no later epoch than the run ends in. */
  lemma {:induction false} WelcomeNoLater(w: World, events: seq<Event>, wl: Welcome)
    requires Inv(w) && WelcomeOnWire(w, events, wl)
    ensures wl.target.LeafKey?
    ensures EpochsOf(wl.snapshot.epochSecret) <= EpochsOf(Run(w, events).shared.epochSecret)
    decreases |events|
  {
    var next := Step(w, events[0]);
    StepKeepsInv(w, events[0]);
    if Welcomes(w, events[0], wl) {
      WelcomeIs(w, events[0], wl);
      StepEpochs(w, events[0]);
      RunEpochs(next, events[1..]);
    } else {
      WelcomeNoLater(next, events[1..], wl);
    }
  }

  /** A run in which a package is not handed in welcomes nobody under its key. */
  lemma {:induction false} WelcomesOthers(w: World, events: seq<Event>, own: PublicKey, wl: Welcome)
    requires Inv(w) && Adds(events, own) == 0 && WelcomeOnWire(w, events, wl)
    ensures wl.target.LeafKey? && wl.target != own
    decreases |events|
  {
    if Welcomes(w, events[0], wl) {
      WelcomeIs(w, events[0], wl);
    } else {
      StepKeepsInv(w, events[0]);
      WelcomesOthers(Step(w, events[0]), events[1..], own, wl);
    }
  }

  /** Every welcome a removed member can open is of an epoch no later than its own. */
  lemma {:induction false} WelcomesEarlier(start: World, before: seq<Event>, c: nat, r: nat, rest: seq<Event>,
      wl: Welcome, steps: nat)
    requires Inv(start) && r in Run(start, before).views
    requires var w := Run(start, before);
             && Adds(rest, w.views[r].myLeafKey) == 0
             && OpensWelcome(Leak(start, before + ([RemoveMember(c, r)] + rest), w.origins, w.views[r]), wl, steps)
    ensures EpochsOf(wl.snapshot.epochSecret) <= EpochsOf(Run(start, before).views[r].epochSecret)
  {
    var w := Run(start, before);
    var later := [RemoveMember(c, r)] + rest;
    RunKeepsInv(start, before);
    assert MemberInv(w, r);
    WelcomeSplit(start, before, later, wl);
    if WelcomeOnWire(start, before, wl) {
      WelcomeNoLater(start, before, wl);
    } else {
      assert later[0] == RemoveMember(c, r) && later[1..] == rest;
      WelcomesOthers(w, later, w.views[r].myLeafKey, wl);
      assert false;
    }
  }

  /** An epoch past the member's own opens neither through a welcome nor through its last commit. */
  lemma {:induction false} LaterIsClosed(k: Leak, secret: EpochSecret, steps: nat)
    requires Later(|k.origins|, k.stale, secret)
    requires forall wl: Welcome :: OpensWelcome(k, wl, steps) ==>
                                     EpochsOf(wl.snapshot.epochSecret) <= EpochsOf(k.stale.epochSecret)
    requires Obtains(k, secret.commitSecret, steps) ==> RootOf(secret.commitSecret) < |k.origins|
    ensures !OpensEpoch(k, secret, steps)
  {
  }

  // ----- the results -----

  /** A run from a founded group after which `c` and `r` are live, `r`'s package handed in once in it and in `rest`. */
  ghost predicate Removable(founder: View, before: seq<Event>, c: nat, r: nat, rest: seq<Event>) {
    var w := Run(Founded(founder), before);
    && c != r && c in w.views && r in w.views
    && HandedIn(founder, before, w.views[r].myLeafKey) + Adds(rest, w.views[r].myLeafKey) <= 1
  }

  /** What the removed member has when `c` has removed it and `rest` has followed. */
  ghost function LeakOf(founder: View, before: seq<Event>, c: nat, r: nat, rest: seq<Event>): Leak
    requires r in Run(Founded(founder), before).views
  {
    var w := Run(Founded(founder), before);
    Leak(Founded(founder), before + ([RemoveMember(c, r)] + rest), w.origins, w.views[r])
  }

  lemma {:induction false} ReadyToRemove(founder: View, groupId: GroupId, seed: nat, identity: Identity, leafKey: nat,
      capacity: nat, before: seq<Event>, c: nat, r: nat, rest: seq<Event>)
    requires Created(groupId, seed, identity, leafKey, capacity) == Ok(founder)
    requires Removable(founder, before, c, r, rest)
    ensures var start := Founded(founder);
            var w := Run(start, before);
            var stale := w.views[r];
            && Inv(start) && PlaceInv(start) && Inv(w) && PlaceInv(w) && CommitOf(w, RemoveMember(c, r)).Some?
            && OnlyLeafWith(w.shared.nodes, stale.myLeafKey, MyNode0(stale))
            && HeldOnlyAt(start, before, stale.myLeafKey, MyNode0(stale)) && Adds(rest, stale.myLeafKey) == 0
  {
    FoundedInv(groupId, seed, identity, leafKey, capacity);
    FoundedPlaced(groupId, seed, identity, leafKey, capacity);
    RunKeepsInv(Founded(founder), before);
    RunKeepsPlace(Founded(founder), before);
    MemberStandsOnce(founder, groupId, seed, identity, leafKey, capacity, before, r);
    RemovalGoes(Run(Founded(founder), before), c, r);
  }

  /**
   Exclusion. In any world reached from a founded group, let a live member `c`
   remove another live member `r` whose package is handed in once. The commit is
   undecryptable to `r`, and neither it nor any later commit of any run addresses a
   ciphertext to a key `r` can derive from its leaf key, its path secrets or their
   forward steps.
   */
  lemma {:induction false} RemovedMemberIsExcluded(founder: View, groupId: GroupId, seed: nat, identity: Identity,
      leafKey: nat, capacity: nat, before: seq<Event>, c: nat, r: nat, after: seq<Event>, next: Event)
    requires Created(groupId, seed, identity, leafKey, capacity) == Ok(founder)
    requires Removable(founder, before, c, r, after + [next])
    ensures var w := Run(Founded(founder), before);
            CommitOf(w, RemoveMember(c, r)).Some? && ShutOut(w, c, r, after, next)
  {
    ReadyToRemove(founder, groupId, seed, identity, leafKey, capacity, before, c, r, after + [next]);
    var w := Run(Founded(founder), before);
    AddsNone(after + [next], w.views[r].myLeafKey);
    RemovedStaysOut(w, c, r, after, next);
  }

  /**
   Whatever follows the removal, and however many steps it takes, every path secret
   the removed member can obtain was drawn before its removal.
   */
  lemma {:induction false} ObtainsNothingLater(founder: View, groupId: GroupId, seed: nat, identity: Identity,
      leafKey: nat, capacity: nat, before: seq<Event>, c: nat, r: nat, rest: seq<Event>, s: PathSecret, steps: nat)
    requires Created(groupId, seed, identity, leafKey, capacity) == Ok(founder)
    requires Removable(founder, before, c, r, rest)
    requires Obtains(LeakOf(founder, before, c, r, rest), s, steps)
    ensures RootOf(s) < |Run(Founded(founder), before).origins|
  {
    ReadyToRemove(founder, groupId, seed, identity, leafKey, capacity, before, c, r, rest);
    LeakClosed(Founded(founder), before, c, r, rest);
    ObtainsInReach(LeakOf(founder, before, c, r, rest), s, steps);
  }

  /**
   No epoch after the removal opens to the removed member, even with the commits and the
   welcomes of all that follows.
   */
  lemma {:induction false} LaterEpochsStayClosed(founder: View, groupId: GroupId, seed: nat, identity: Identity,
      leafKey: nat, capacity: nat, before: seq<Event>, c: nat, r: nat, after: seq<Event>, further: seq<Event>,
      steps: nat)
    requires Created(groupId, seed, identity, leafKey, capacity) == Ok(founder)
    requires Removable(founder, before, c, r, after + further)
    ensures var later := Run(Step(Run(Founded(founder), before), RemoveMember(c, r)), after);
            !OpensEpoch(LeakOf(founder, before, c, r, after + further), later.shared.epochSecret, steps)
  {
    ReadyToRemove(founder, groupId, seed, identity, leafKey, capacity, before, c, r, after + further);
    var w := Run(Founded(founder), before);
    RemovalEpoch(w, c, r, after);
    var k := LeakOf(founder, before, c, r, after + further);
    var secret := Run(Step(w, RemoveMember(c, r)), after).shared.epochSecret;
    forall wl: Welcome | OpensWelcome(k, wl, steps)
      ensures EpochsOf(wl.snapshot.epochSecret) <= EpochsOf(k.stale.epochSecret)
    {
      WelcomesEarlier(Founded(founder), before, c, r, after + further, wl, steps);
    }
    if Obtains(k, secret.commitSecret, steps) {
      ObtainsNothingLater(founder, groupId, seed, identity, leafKey, capacity, before, c, r, after + further,
                          secret.commitSecret, steps);
    }
    LaterIsClosed(k, secret, steps);
  }
}
