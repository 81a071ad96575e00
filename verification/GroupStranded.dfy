/**
 A newcomer that cannot join does occur. In a group of capacity 4 the founder adds two
 members, the second of them updates its path, and the founder adds a fourth: the
 newcomer's parent is populated and off the founder's path, so the commit that adds it
 holds nothing it can decrypt (crates/core/src/group.rs:1123-1143).
 */
module GroupStranded {
  import opened Wrappers
  import opened GroupTree
  import opened GroupTypes
  import opened GroupSpec
  import opened GroupWorld
  import opened GroupConvergence
  import opened GroupMembers
  import opened GroupRuns
  import opened GroupExclusion

  // ----- trees of capacity 4 -----

  /** Exactly the given nodes of a tree of seven are populated, leaves with members and the rest with keys. */
  ghost predicate Kinds(nodes: seq<TreeNode>, some: set<nat>) {
    && |nodes| == 7
    && forall n: nat :: n < 7 ==>
         if n !in some then nodes[n].Blank? else if n < 3 then nodes[n].Internal? else nodes[n].Leaf?
  }

  /** The ancestors of leaf `l`. */
  function Above(l: nat): set<nat> {
    if l < 2 then {0, 1} else {0, 2}
  }

  lemma {:induction false} AboveIs(l: nat, n: nat)
    requires l < 4
    ensures Within(3 + l, n) <==> n == 3 + l || n in Above(l)
  {
    assert Parent(3 + l) == if l < 2 then 1 else 2;
    assert Parent(1) == 0 && Parent(2) == 0;
    assert Within(0, n) <==> n == 0;
    assert Within(1, n) <==> n == 1 || n == 0;
    assert Within(2, n) <==> n == 2 || n == 0;
  }

  lemma {:induction false} FirstFree(nodes: seq<TreeNode>, some: set<nat>, t: nat)
    requires Kinds(nodes, some) && t < 4 && 3 + t !in some && forall n: nat :: 3 <= n < 3 + t ==> n in some
    ensures FirstBlankLeaf(nodes, 4, 0) == Some(t)
  {
    assert forall l: nat :: l < t ==> nodes[LeafToNode(4, l)].Leaf?;
    assert !nodes[LeafToNode(4, t)].Leaf?;
  }

  /** What an add or an update of leaf `l` leaves populated. */
  lemma {:induction false} KindsAfter(nodes: seq<TreeNode>, some: set<nat>, op: GroupOp, l: nat, secret: PathSecret,
      update: seq<UpdatePathNode>)
    requires ValidTree(nodes, 4) && Kinds(nodes, some) && l < 4 && Spliced(nodes, 4, op).Ok? && !op.Remove?
    requires Publishes(update, 3 + l, secret)
    ensures Kinds(InstallPath(Spliced(nodes, 4, op).value, Ancestors(3 + l), update),
                  some + Above(l) + if op.Add? then {3 + op.leafIndex} else {})
  {
    var pre := Spliced(nodes, 4, op).value;
    SplicedValid(nodes, 4, op);
    InstalledTree(pre, 4, 3 + l, secret, update);
    var after := InstallPath(pre, Ancestors(3 + l), update);
    forall n: nat | n in Above(l)
      ensures after[n].Internal?
    {
      AboveIs(l, n);
      var i := WithinAbove(3 + l, n);
      InstalledAt(pre, 4, 3 + l, secret, update, i);
    }
    forall n: nat | n < 7 && n !in Above(l)
      ensures after[n] == pre[n]
    {
      AboveIs(l, n);
    }
  }

  // ----- groups of capacity 4 -----

  /** A reachable group of capacity 4 with the given nodes populated, looked into only where a proof says so. */
  ghost predicate Shape(w: World, some: set<nat>) {
    forall u: nat {:trigger LookInto(u)} :: u == 0 ==> Inv(w) && w.shared.capacity == 4 && Kinds(w.shared.nodes, some)
  }

  /** One event of a run, likewise. */
  ghost predicate Stepped(w: World, e: Event, next: World) {
    forall u: nat {:trigger LookInto(u)} :: u == 0 ==> next == Step(w, e)
  }

  ghost predicate Makes(w: World, e: Event, o: Outcome) {
    forall u: nat {:trigger LookInto(u)} :: u == 0 ==> CommitOf(w, e) == Some(o)
  }

  ghost predicate RunIs(w: World, events: seq<Event>, end: World) {
    forall u: nat {:trigger LookInto(u)} :: u == 0 ==> Run(w, events) == end
  }

  /** What the newcomer makes of its welcome and the commit that adds it. */
  ghost predicate JoinIs(e: Event, o: Outcome, r: Result<View, Error>) {
    forall u: nat {:trigger LookInto(u)} :: u == 0 ==>
      && e.AddMember? && o.welcome.Some?
      && Joined(e.identity, LeafKey(e.leafKey), o.welcome.value, o.commit) == r
  }

  lemma {:induction false} LiveIn(w: World, some: set<nat>, l: nat) returns (v: View)
    requires Shape(w, some) && l in w.views
    ensures l < 4 && v == w.views[l] && Live(v, l, w.shared) && SoundView(v) && MyNode(v) == 3 + l
    ensures v.capacity == 4 && v.nodes == w.shared.nodes && Kinds(v.nodes, some)
  {
    assert LookInto(0);
    assert MemberInv(w, l);
    v := w.views[l];
  }

  /** A member's add at the first free leaf, or its update, goes through. */
  lemma {:induction false} CommitGoes(v: View, e: Event, nonce: nat)
    requires SoundView(v) && (e.UpdatePath? || (e.AddMember? && FirstBlankLeaf(v.nodes, v.capacity, 0).Some?))
    ensures Proposed(v, e, nonce).Some?
  {
  }

  lemma {:induction false} CommittedTree(v: View, op: GroupOp, secret: PathSecret)
    requires SoundView(v) && Committed(v, SignerOf(v), op, secret).Ok?
    ensures Spliced(v.nodes, v.capacity, op).Ok?
    ensures var pre := Spliced(v.nodes, v.capacity, op).value;
            var after := Committed(v, SignerOf(v), op, secret).value.0;
            && after.capacity == v.capacity
            && after.nodes
               == InstallPath(pre, Ancestors(MyNode(v)), PathUpdate(pre, v.capacity, MyNode(v), secret))
  {
  }

  /** The tree after a commit of a member, from that member's view alone. */
  lemma {:induction false} CommittedKinds(v: View, some: set<nat>, l: nat, op: GroupOp, secret: PathSecret)
    requires SoundView(v) && v.capacity == 4 && MyNode(v) == 3 + l && l < 4 && Kinds(v.nodes, some) && !op.Remove?
    requires Committed(v, SignerOf(v), op, secret).Ok?
    ensures var after := Committed(v, SignerOf(v), op, secret).value.0;
            && after.capacity == 4
            && Kinds(after.nodes, some + Above(l) + if op.Add? then {3 + op.leafIndex} else {})
  {
    CommittedTree(v, op, secret);
    var pre := Spliced(v.nodes, v.capacity, op).value;
    KindsAfter(v.nodes, some, op, l, secret, PathUpdate(pre, 4, 3 + l, secret));
  }

  // ----- the run -----

  /** A member's update, or its add at the first free leaf, from its view alone. */
  lemma {:induction false} ProposedKinds(v: View, some: set<nat>, l: nat, e: Event, nonce: nat, t: nat)
      returns (o: Outcome)
    requires SoundView(v) && v.capacity == 4 && MyNode(v) == 3 + l && l < 4 && Kinds(v.nodes, some)
    requires e.UpdatePath? || e.AddMember?
    requires e.AddMember? ==> t < 4 && 3 + t !in some && forall n: nat :: 3 <= n < 3 + t ==> n in some
    ensures Proposed(v, e, nonce) == Some(o) && o.after.capacity == 4
    ensures Kinds(o.after.nodes, some + Above(l) + if e.AddMember? then {3 + t} else {})
  {
    if e.AddMember? { FirstFree(v.nodes, some, t); }
    CommitGoes(v, e, nonce);
    o := Proposed(v, e, nonce).value;
    ProposedIs(v, e, nonce);
    CommittedKinds(v, some, l, OpOf(v, e), Fresh(nonce));
  }

  /** A commit that goes through: its maker stays, and the tree has the committer's path and any newcomer populated. */
  lemma {:induction false} Commits(w: World, some: set<nat>, l: nat, e: Event, t: nat) returns (o: Outcome, next: World)
    requires Shape(w, some) && l in w.views && (e.UpdatePath? || e.AddMember?) && Committer(e) == l
    requires e.AddMember? ==> t < 4 && 3 + t !in some && forall n: nat :: 3 <= n < 3 + t ==> n in some
    ensures Makes(w, e, o) && Stepped(w, e, next) && l in next.views && l < 4
    ensures Shape(next, some + Above(l) + if e.AddMember? then {3 + t} else {})
  {
    var v := LiveIn(w, some, l);
    o := ProposedKinds(v, some, l, e, |w.origins|, t);
    CommitMade(w, e, v, o);
    next := CommitStep(w, e, o);
    ShapeNext(w, some, e, o, some + Above(l) + if e.AddMember? then {3 + t} else {});
  }

  lemma {:induction false} CommitMade(w: World, e: Event, v: View, o: Outcome)
    requires Committer(e) in w.views && w.views[Committer(e)] == v && SoundView(v)
    requires Proposed(v, e, |w.origins|) == Some(o)
    ensures Makes(w, e, o)
  {
    assert LookInto(0);
  }

  lemma {:induction false} ShapeNext(w: World, some: set<nat>, e: Event, o: Outcome, more: set<nat>)
    requires Shape(w, some) && Makes(w, e, o) && (e.UpdatePath? || e.AddMember?)
    requires o.after.capacity == 4 && Kinds(o.after.nodes, more)
    ensures Stepped(w, e, CommitStep(w, e, o)) && Shape(CommitStep(w, e, o), more)
    ensures Committer(e) in CommitStep(w, e, o).views
  {
    assert LookInto(0);
    CommitKeepsInv(w, e, o);
  }

  lemma {:induction false} OthersStay(w: World, e: Event, o: Outcome, next: World, l: nat)
    requires Makes(w, e, o) && (e.UpdatePath? || e.AddMember?) && Stepped(w, e, next) && l in w.views
    ensures l in next.views
  {
    assert LookInto(0);
    assert l != Committer(e) ==> l in Others(w, e);
  }

  lemma {:induction false} BlankBelow(nodes: seq<TreeNode>, some: set<nat>, t: nat, l: nat)
    requires Kinds(nodes, some) && t < 4 && l < 4
    ensures BlankBelowMeet(nodes, 3 + t, 3 + l) <==> (Above(t) - Above(l) - {3 + l}) !! some
  {
    forall a: nat {:trigger Within(3 + t, a)}
      ensures Within(3 + t, a) && a != 3 + t && !Within(3 + l, a) <==> a in Above(t) - Above(l) - {3 + l}
    {
      AboveIs(t, a);
      AboveIs(l, a);
    }
    if BlankBelowMeet(nodes, 3 + t, 3 + l) {
      forall a: nat | a in Above(t) - Above(l) - {3 + l}
        ensures a !in some
      {
        assert Within(3 + t, a) && nodes[a].Blank?;
      }
    }
  }

  /** A newcomer's join succeeds exactly if its ancestors off the committer's path are blank. */
  lemma {:induction false} NewcomerJoins(w: World, some: set<nat>, l: nat, e: Event, t: nat, o: Outcome)
      returns (r: Result<View, Error>)
    requires Shape(w, some) && l in w.views && l < 4 && e.AddMember? && Committer(e) == l && Makes(w, e, o)
    requires t < 4 && 3 + t !in some && forall n: nat :: 3 <= n < 3 + t ==> n in some
    ensures JoinIs(e, o, r)
    ensures r.Ok? <==> (Above(t) - Above(l)) !! some
    ensures r.Err? ==> r.error == CommitNotDecryptable
    ensures r.Ok? ==> r.value.myLeaf == t
  {
    var v := LiveIn(w, some, l);
    FirstFree(v.nodes, some, t);
    assert LookInto(0);
    ProposedIs(v, e, |w.origins|);
    JoinsExactlyWhenBlank(v, w.shared, e, |w.origins|);
    BlankBelow(v.nodes, some, t, l);
    r := Joined(e.identity, LeafKey(e.leafKey), o.welcome.value, o.commit);
  }

  lemma {:induction false} JoinedStays(w: World, e: Event, o: Outcome, next: World, v: View)
    requires Makes(w, e, o) && e.AddMember? && Stepped(w, e, next) && JoinIs(e, o, Ok(v))
    ensures v.myLeaf in next.views
  {
    assert LookInto(0);
    assert v.myLeaf in JoinedViews(e, o);
  }

  lemma {:induction false} FoundedShape(groupId: GroupId, seed: nat, identity: Identity, leafKey: nat, founder: View)
    requires Created(groupId, seed, identity, leafKey, 4) == Ok(founder)
    ensures Shape(Founded(founder), {3}) && 0 in Founded(founder).views
  {
    FoundedInv(groupId, seed, identity, leafKey, 4);
    assert LookInto(0);
  }

  lemma {:induction false} RunNone(w: World)
    ensures RunIs(w, [], w)
  {
    assert LookInto(0);
  }

  lemma {:induction false} RunFirst(w: World, e: Event, rest: seq<Event>, next: World, end: World)
    requires Stepped(w, e, next) && RunIs(next, rest, end)
    ensures RunIs(w, [e] + rest, end)
  {
    assert LookInto(0);
    assert ([e] + rest)[1..] == rest;
  }

  lemma {:induction false} RunOfThree(w: World, a: Event, b: Event, c: Event, w1: World, w2: World, w3: World)
    requires Stepped(w, a, w1) && Stepped(w1, b, w2) && Stepped(w2, c, w3)
    ensures RunIs(w, [a, b, c], w3)
  {
    assert [c] + [] == [c] && [b] + [c] == [b, c] && [a] + [b, c] == [a, b, c];
    RunNone(w3);
    RunFirst(w2, c, [], w3, w3);
    RunFirst(w1, b, [c], w2, w3);
    RunFirst(w, a, [b, c], w1, w3);
  }

  /** The world after the founder's two adds and the second newcomer's update. */
  lemma {:induction false} ThreeCommits(w: World, one: Event, two: Event) returns (end: World)
    requires Shape(w, {3}) && 0 in w.views
    requires one.AddMember? && two.AddMember? && one.committer == two.committer == 0
    ensures RunIs(w, [one, two, UpdatePath(2)], end) && Shape(end, {0, 1, 2, 3, 4, 5}) && 0 in end.views
  {
    var o1, w1 := Commits(w, {3}, 0, one, 1);
    assert {3} + {0, 1} + {3 + 1} == {0, 1, 3, 4};
    var o2, w2 := Commits(w1, {0, 1, 3, 4}, 0, two, 2);
    assert {0, 1, 3, 4} + {0, 1} + {3 + 2} == {0, 1, 3, 4, 5};
    var r := NewcomerJoins(w1, {0, 1, 3, 4}, 0, two, 2, o2);
    assert Above(2) - Above(0) == {2};
    JoinedStays(w1, two, o2, w2, r.value);
    var o3;
    o3, end := Commits(w2, {0, 1, 3, 4, 5}, 2, UpdatePath(2), 0);
    assert {0, 1, 3, 4, 5} + {0, 2} + {} == {0, 1, 2, 3, 4, 5};
    OthersStay(w2, UpdatePath(2), o3, end, 0);
    RunOfThree(w, one, two, UpdatePath(2), w1, w2, end);
  }

  /** The newcomer of `e`, added next, is refused by its own commit. */
  ghost predicate Strands(w: World, e: Event) {
    var c := CommitOf(w, e);
    && c.Some? && c.value.welcome.Some? && e.AddMember?
    && Joined(e.identity, LeafKey(e.leafKey), c.value.welcome.value, c.value.commit) == Err(CommitNotDecryptable)
  }

  lemma {:induction false} StrandsAfter(w: World, events: seq<Event>, end: World, e: Event, o: Outcome)
    requires RunIs(w, events, end) && Makes(end, e, o) && JoinIs(e, o, Err(CommitNotDecryptable))
    ensures Strands(Run(w, events), e)
  {
    assert LookInto(0);
  }

  /**
   In every group of capacity 4, after two adds by the founder and a path update by the
   second newcomer, whoever the founder adds next cannot join.
   */
  lemma {:induction false} JoinFailsInARun(founder: View, groupId: GroupId, seed: nat, identity: Identity, leafKey: nat,
      one: Event, two: Event, three: Event)
    requires Created(groupId, seed, identity, leafKey, 4) == Ok(founder)
    requires one.AddMember? && two.AddMember? && three.AddMember?
    requires one.committer == two.committer == three.committer == 0
    ensures Strands(Run(Founded(founder), [one, two, UpdatePath(2)]), three)
  {
    FoundedShape(groupId, seed, identity, leafKey, founder);
    var end := ThreeCommits(Founded(founder), one, two);
    var o, _ := Commits(end, {0, 1, 2, 3, 4, 5}, 0, three, 3);
    var r := NewcomerJoins(end, {0, 1, 2, 3, 4, 5}, 0, three, 3, o);
    assert 2 in Above(3) - Above(0);
    StrandsAfter(Founded(founder), [one, two, UpdatePath(2)], end, three, o);
  }
}
