/**
 Key packages over a run: a leaf key handed in only once stands at one leaf only,
 now and at every moment before.
 */
module GroupPackages {
  import opened Wrappers
  import opened GroupTree
  import opened GroupTypes
  import opened GroupSpec
  import opened GroupDecrypt
  import opened GroupWorld
  import opened GroupConvergence
  import opened GroupMembers
  import opened GroupRuns
  import opened GroupExclusion

  /** Whether the event asks for a package with this key to be added. */
  predicate HandsIn(e: Event, key: PublicKey) {
    e.AddMember? && LeafKey(e.leafKey) == key
  }

  /** How often a run asks for that. */
  function Adds(events: seq<Event>, key: PublicKey): nat {
    if events == [] then 0 else (if HandsIn(events[0], key) then 1 else 0) + Adds(events[1..], key)
  }

  /** The same, the founder's own package included. */
  function HandedIn(founder: View, events: seq<Event>, key: PublicKey): nat {
    (if founder.myLeafKey == key then 1 else 0) + Adds(events, key)
  }

  lemma {:induction false} AddsSplit(a: seq<Event>, b: seq<Event>, key: PublicKey)
    ensures Adds(a + b, key) == Adds(a, key) + Adds(b, key)
  {
    if a == [] {
      assert a + b == b;
    } else {
      assert (a + b)[1..] == a[1..] + b;
      AddsSplit(a[1..], b, key);
    }
  }

  lemma {:induction false} AddsNone(events: seq<Event>, key: PublicKey)
    requires Adds(events, key) == 0
    ensures forall e :: e in events && e.AddMember? ==> LeafKey(e.leafKey) != key
  {
    if events != [] { AddsNone(events[1..], key); }
  }

  ghost predicate HeldBy(nodes: seq<TreeNode>, key: PublicKey, n: nat) {
    n < |nodes| && nodes[n].Leaf? && nodes[n].package.publicKey == key
  }

  ghost predicate HeldNowhere(nodes: seq<TreeNode>, key: PublicKey) {
    forall n: nat :: n < |nodes| && nodes[n].Leaf? ==> nodes[n].package.publicKey != key
  }

  /** At every moment of the run, no leaf but `n` holds the key. */
  ghost predicate HeldOnlyAt(w: World, events: seq<Event>, key: PublicKey, n: nat)
    decreases |events|
  {
    && OnlyLeafWith(w.shared.nodes, key, n)
    && (events == [] || HeldOnlyAt(Step(w, events[0]), events[1..], key, n))
  }

  /** The leaf an event fills, if it adds a member. */
  ghost predicate Fills(w: World, e: Event, n: nat) {
    && e.AddMember? && CommitOf(w, e).Some?
    && n == LeafToNode(w.views[Committer(e)].capacity, OpOf(w.views[Committer(e)], e).leafIndex)
  }

  /** A leaf that holds a key after a step held it before, or the step handed it in there. */
  lemma {:induction false} HeldBefore(w: World, e: Event, key: PublicKey, n: nat)
    requires Inv(w) && HeldBy(Step(w, e).shared.nodes, key, n)
    ensures HeldBy(w.shared.nodes, key, n) || (HandsIn(e, key) && Fills(w, e, n))
  {
    if e.Send? || e.Deliver? {
      assert Step(w, e).shared == w.shared;
    } else if CommitOf(w, e).Some? {
      CommitHeldBefore(w, e, CommitOf(w, e).value, key, n);
    }
  }

  lemma {:induction false} CommitHeldBefore(w: World, e: Event, o: Outcome, key: PublicKey, n: nat)
    requires Inv(w) && CommitOf(w, e) == Some(o) && HeldBy(o.after.nodes, key, n)
    ensures HeldBy(w.shared.nodes, key, n) || (HandsIn(e, key) && Fills(w, e, n))
  {
    CommitTree(w, e, o);
    var cv := w.views[Committer(e)];
    var op, from := OpOf(cv, e), MyNode(cv);
    var pre := Spliced(cv.nodes, cv.capacity, op).value;
    SplicedValid(cv.nodes, cv.capacity, op);
    OffPath(pre, cv.capacity, from, Fresh(|w.origins|), o.commit.body.path, n);
  }

  /** A leaf after an update path is the leaf before it. */
  lemma {:induction false} OffPath(pre: seq<TreeNode>, capacity: nat, from: nat, secret: PathSecret,
      update: seq<UpdatePathNode>, n: nat)
    requires ValidTree(pre, capacity) && from < |pre| && Publishes(update, from, secret) && n < |pre|
    requires InstallPath(pre, Ancestors(from), update)[n].Leaf?
    ensures InstallPath(pre, Ancestors(from), update)[n] == pre[n]
  {
    InstalledTree(pre, capacity, from, secret, update);
    if Within(from, n) && n != from {
      var i := WithinAbove(from, n);
      InstalledAt(pre, capacity, from, secret, update, i);
    }
  }

  lemma {:induction false} StaysNowhere(w: World, e: Event, key: PublicKey)
    requires Inv(w) && HeldNowhere(w.shared.nodes, key) && !HandsIn(e, key)
    ensures HeldNowhere(Step(w, e).shared.nodes, key)
  {
    var after := Step(w, e).shared.nodes;
    forall n: nat | n < |after| && after[n].Leaf? ensures after[n].package.publicKey != key {
      if HeldBy(after, key, n) { HeldBefore(w, e, key, n); }
    }
  }

  lemma {:induction false} StaysOnly(w: World, e: Event, key: PublicKey, n: nat)
    requires Inv(w) && OnlyLeafWith(w.shared.nodes, key, n)
    requires HandsIn(e, key) ==> HeldNowhere(w.shared.nodes, key) && (forall m: nat :: Fills(w, e, m) ==> m == n)
    ensures OnlyLeafWith(Step(w, e).shared.nodes, key, n)
  {
    var after := Step(w, e).shared.nodes;
    forall m: nat | m < |after| && after[m].Leaf? && after[m].package.publicKey == key ensures m == n {
      assert HeldBy(after, key, m);
      HeldBefore(w, e, key, m);
    }
  }

  /** A key that stands at one leaf and is not handed in again stays at that leaf only. */
  lemma {:induction false} OnlyThroughout(w: World, events: seq<Event>, key: PublicKey, n: nat)
    requires Inv(w) && OnlyLeafWith(w.shared.nodes, key, n) && Adds(events, key) == 0
    ensures HeldOnlyAt(w, events, key, n)
    decreases |events|
  {
    if events != [] {
      StepKeepsInv(w, events[0]);
      StaysOnly(w, events[0], key, n);
      OnlyThroughout(Step(w, events[0]), events[1..], key, n);
    }
  }

  /** A key that stands nowhere yet and is handed in at most once stands at one leaf only throughout. */
  lemma {:induction false} OnceThroughout(w: World, events: seq<Event>, key: PublicKey) returns (n: nat)
    requires Inv(w) && HeldNowhere(w.shared.nodes, key) && Adds(events, key) <= 1
    ensures HeldOnlyAt(w, events, key, n)
    ensures Adds(events, key) == 0 ==> HeldNowhere(Run(w, events).shared.nodes, key)
    decreases |events|
  {
    assert forall m: nat :: OnlyLeafWith(w.shared.nodes, key, m);
    if events == [] {
      n := 0;
    } else {
      StepKeepsInv(w, events[0]);
      if HandsIn(events[0], key) {
        n := FilledBy(w, events[0]);
        StaysOnly(w, events[0], key, n);
        OnlyThroughout(Step(w, events[0]), events[1..], key, n);
      } else {
        StaysNowhere(w, events[0], key);
        n := OnceThroughout(Step(w, events[0]), events[1..], key);
      }
    }
  }

  lemma {:induction false} FilledBy(w: World, e: Event) returns (n: nat)
    requires Inv(w)
    ensures forall m: nat :: Fills(w, e, m) ==> m == n
  {
    n := if e.AddMember? && CommitOf(w, e).Some?
         then LeafToNode(w.views[Committer(e)].capacity, OpOf(w.views[Committer(e)], e).leafIndex) else 0;
  }

  /** Of a run from a founded group: a package handed in once stands at one leaf only, at every moment. */
  lemma {:induction false} PackageStandsOnce(founder: View, groupId: GroupId, seed: nat, identity: Identity,
      leafKey: nat, capacity: nat, events: seq<Event>, key: PublicKey) returns (n: nat)
    requires Created(groupId, seed, identity, leafKey, capacity) == Ok(founder)
    requires HandedIn(founder, events, key) <= 1
    ensures HeldOnlyAt(Founded(founder), events, key, n)
    ensures HandedIn(founder, events, key) == 0 ==> HeldNowhere(Run(Founded(founder), events).shared.nodes, key)
  {
    FoundedInv(groupId, seed, identity, leafKey, capacity);
    var w := Founded(founder);
    if founder.myLeafKey == key {
      n := MyNode(founder);
      OnlyThroughout(w, events, key, n);
    } else {
      assert HeldNowhere(w.shared.nodes, key);
      n := OnceThroughout(w, events, key);
    }
  }

  lemma {:induction false} HeldAtEnd(w: World, events: seq<Event>, key: PublicKey, n: nat)
    requires HeldOnlyAt(w, events, key, n)
    ensures OnlyLeafWith(Run(w, events).shared.nodes, key, n)
    decreases |events|
  {
    if events != [] { HeldAtEnd(Step(w, events[0]), events[1..], key, n); }
  }

  /** A member whose package was handed in at most once is the only holder, and it was handed in. */
  lemma {:induction false} MemberStandsOnce(founder: View, groupId: GroupId, seed: nat, identity: Identity,
      leafKey: nat, capacity: nat, events: seq<Event>, r: nat)
    requires Created(groupId, seed, identity, leafKey, capacity) == Ok(founder)
    requires r in Run(Founded(founder), events).views
    requires HandedIn(founder, events, Run(Founded(founder), events).views[r].myLeafKey) <= 1
    ensures var w := Run(Founded(founder), events);
            var me, key := MyNode0(w.views[r]), w.views[r].myLeafKey;
            && HandedIn(founder, events, key) == 1
            && OnlyLeafWith(w.shared.nodes, key, me) && HeldOnlyAt(Founded(founder), events, key, me)
  {
    var w := Run(Founded(founder), events);
    var key := w.views[r].myLeafKey;
    FoundedInv(groupId, seed, identity, leafKey, capacity);
    RunKeepsInv(Founded(founder), events);
    assert MemberInv(w, r);
    var n := PackageStandsOnce(founder, groupId, seed, identity, leafKey, capacity, events, key);
    HeldAtEnd(Founded(founder), events, key, n);
    assert HeldBy(w.shared.nodes, key, MyNode(w.views[r]));
  }
}
