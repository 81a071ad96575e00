/** Convergence of all live members over every run of a group. */
module GroupRuns {
  import opened Wrappers
  import opened GroupTree
  import opened GroupTypes
  import opened GroupResolution
  import opened GroupSpec
  import opened GroupDecrypt
  import opened GroupWorld
  import opened GroupConvergence
  import opened GroupMembers

  /** A view at the start of an epoch is in sync with an empty log. */
  lemma {:induction false} StartInSync(w: World, l: nat)
    requires l in w.views && Live(w.views[l], l, w.shared) && StartsEpoch(w.views[l]) && w.sent == map[]
    ensures MemberInv(w, l)
  {
  }

  /** Where each view of the next world comes from. */
  lemma {:induction false} ViewAfter(w: World, e: Event, o: Outcome, l: nat)
    requires l in CommitStep(w, e, o).views
    ensures if l in JoinedViews(e, o) then CommitStep(w, e, o).views[l] == JoinedViews(e, o)[l]
            else if l == Committer(e) then CommitStep(w, e, o).views[l] == o.after && !(e.RemoveMember? && e.leaf == l)
            else l in Others(w, e) && CommitStep(w, e, o).views[l] == Received(w.views[l], o.commit)
  {
  }

  lemma {:induction false} OtherMember(w: World, e: Event, o: Outcome, l: nat)
    requires MemberInv(w, l) && MemberInv(w, Committer(e)) && l != Committer(e) && !(e.RemoveMember? && e.leaf == l)
    requires CommitOf(w, e) == Some(o)
    ensures CommitApplied(w.views[l], o.commit).Ok?
    ensures Live(Received(w.views[l], o.commit), l, PublicOf(o.after)) && StartsEpoch(Received(w.views[l], o.commit))
  {
    var cv := w.views[Committer(e)];
    ProposedIs(cv, e, |w.origins|);
    LiveAccepts(w.views[l], cv, w.shared, OpOf(cv, e), Fresh(|w.origins|));
  }

  lemma {:induction false} CommitterMember(w: World, e: Event, o: Outcome)
    requires MemberInv(w, Committer(e)) && CommitOf(w, e) == Some(o) && !(e.RemoveMember? && e.leaf == Committer(e))
    ensures Live(o.after, Committer(e), PublicOf(o.after)) && StartsEpoch(o.after)
  {
    var cv := w.views[Committer(e)];
    ProposedIs(cv, e, |w.origins|);
    CommitterStays(cv, w.shared, OpOf(cv, e), Fresh(|w.origins|));
  }

  lemma {:induction false} JoinedMember(w: World, e: Event, o: Outcome, l: nat)
    requires MemberInv(w, Committer(e)) && CommitOf(w, e) == Some(o) && l in JoinedViews(e, o)
    ensures Live(JoinedViews(e, o)[l], l, PublicOf(o.after)) && StartsEpoch(JoinedViews(e, o)[l])
  {
    JoinsExactlyWhenBlank(w.views[Committer(e)], w.shared, e, |w.origins|);
  }

  /** What each surviving member's view becomes when a commit goes round. */
  lemma {:induction false} CommitMember(w: World, e: Event, o: Outcome, l: nat)
    requires Inv(w) && CommitOf(w, e) == Some(o) && l in CommitStep(w, e, o).views
    ensures Live(CommitStep(w, e, o).views[l], l, PublicOf(o.after)) && StartsEpoch(CommitStep(w, e, o).views[l])
  {
    ViewAfter(w, e, o, l);
    assert MemberInv(w, Committer(e));
    if l in JoinedViews(e, o) {
      JoinedMember(w, e, o, l);
    } else if l == Committer(e) {
      CommitterMember(w, e, o);
    } else {
      assert MemberInv(w, l);
      OtherMember(w, e, o, l);
    }
  }

  lemma {:induction false} CommitKeepsInv(w: World, e: Event, o: Outcome)
    requires Inv(w) && CommitOf(w, e) == Some(o)
    ensures Inv(CommitStep(w, e, o))
  {
    var next := CommitStep(w, e, o);
    forall l | l in next.views ensures MemberInv(next, l) {
      CommitMember(w, e, o, l);
      StartInSync(next, l);
    }
  }

  lemma {:induction false} SendKeepsInv(w: World, sender: nat, plaintext: Plaintext)
    requires Inv(w)
    ensures Inv(SendStep(w, sender, plaintext))
  {
    var next := SendStep(w, sender, plaintext);
    if sender in w.views && SealedRecord(w.views[sender], plaintext).Ok? {
      assert SenderInSync(w, sender);
      forall l | l in next.views ensures MemberInv(next, l) {
        assert MemberInv(w, l);
        SendMember(w, sender, plaintext, l);
      }
    }
  }

  lemma {:induction false} SendMember(w: World, sender: nat, plaintext: Plaintext, l: nat)
    requires MemberInv(w, l) && MemberInv(w, sender) && SealedRecord(w.views[sender], plaintext).Ok?
    ensures MemberInv(SendStep(w, sender, plaintext), l)
  {
    var next := SendStep(w, sender, plaintext);
    assert forall s :: s != sender ==> Log(next, s) == Log(w, s);
    assert Log(next, sender) == Log(w, sender) + [(plaintext, NthRecord(w, sender, |Log(w, sender)|, plaintext))];
    assert forall n, p :: NthRecord(next, l, n, p) == NthRecord(w, l, n, p);
  }

  /** A member whose chain for `sender` stands at `n` opens that sender's record number `n`. */
  lemma {:induction false} OpensNext(v: View, sender: nat, n: nat, plaintext: Plaintext)
    requires v.capacity >= 1 && |v.nodes| == 2 * v.capacity - 1 && sender != v.myLeaf && IsMember(v, sender)
    requires Opened(v, sender) == n
    requires sender in v.recvChains ==> v.recvChains[sender].0 == ChainWalk(SenderChain(v.epochSecret, sender), n)
    ensures var h := Header(v.epoch, sender, n);
            OpenedRecord(v, Record(h, ChainWalk(SenderChain(v.epochSecret, sender), n), h, plaintext))
            == (v.(recvChains := v.recvChains[sender := (ChainWalk(SenderChain(v.epochSecret, sender), n + 1), n + 1)]),
                Ok((sender, plaintext)))
  {
    var chain := ChainWalk(SenderChain(v.epochSecret, sender), n);
    if sender !in v.recvChains {
      assert v.recvChains[sender := (chain, 0)][sender := (NextChain(chain), 1)]
             == v.recvChains[sender := (NextChain(chain), 1)];
    }
  }

  /** A pending record opens to exactly the plaintext its sender sealed, and the receiver moves on by one. */
  lemma {:induction false} PendingOpens(w: World, receiver: nat, sender: nat)
    requires MemberInv(w, receiver) && MemberInv(w, sender) && Pending(w, receiver, sender)
    ensures var n := Opened(w.views[receiver], sender);
            var d := Delivery(w, receiver, sender);
            && d.1 == Ok((sender, Log(w, sender)[n].0))
            && d.0 == w.views[receiver].(recvChains := w.views[receiver].recvChains
                        [sender := (ChainWalk(SenderChain(w.shared.epochSecret, sender), n + 1), n + 1)])
  {
    var v, n := w.views[receiver], Opened(w.views[receiver], sender);
    assert Log(w, sender)[n].1 == NthRecord(w, sender, n, Log(w, sender)[n].0);
    MembersSeeEachOther(w, receiver, sender);
    OpensNext(v, sender, n, Log(w, sender)[n].0);
  }

  lemma {:induction false} MembersSeeEachOther(w: World, a: nat, b: nat)
    requires MemberInv(w, a) && MemberInv(w, b)
    ensures IsMember(w.views[a], b)
  {
  }

  lemma {:induction false} SenderStays(w: World, next: World, l: nat)
    requires SenderInSync(w, l) && next.sent == w.sent && next.shared == w.shared && l in next.views
    requires next.views[l].sendSeq == w.views[l].sendSeq && next.views[l].sendChain == w.views[l].sendChain
    ensures SenderInSync(next, l)
  {
    assert Log(next, l) == Log(w, l);
    assert forall n, p :: NthRecord(next, l, n, p) == NthRecord(w, l, n, p);
  }

  lemma {:induction false} ReceiverMoves(w: World, next: World, l: nat, sender: nat, n: nat)
    requires ReceiverInSync(w, l) && next.sent == w.sent && next.shared == w.shared && l in next.views
    requires next.views[l].recvChains
             == w.views[l].recvChains[sender := (ChainWalk(SenderChain(w.shared.epochSecret, sender), n), n)]
    requires n <= |Log(w, sender)|
    ensures ReceiverInSync(next, l)
  {
    forall s | s in next.views[l].recvChains
      ensures next.views[l].recvChains[s].0
              == ChainWalk(SenderChain(next.shared.epochSecret, s), next.views[l].recvChains[s].1)
      ensures Opened(next.views[l], s) <= |Log(next, s)|
    {
      assert s != sender ==> s in w.views[l].recvChains && Opened(next.views[l], s) == Opened(w.views[l], s);
    }
  }

  /** The world with `receiver`'s chain for `sender` one record further on. */
  ghost function MovedOn(w: World, receiver: nat, sender: nat): World
    requires receiver in w.views
  {
    var v, n := w.views[receiver], Opened(w.views[receiver], sender) + 1;
    var chain := ChainWalk(SenderChain(w.shared.epochSecret, sender), n);
    w.(views := w.views[receiver := v.(recvChains := v.recvChains[sender := (chain, n)])])
  }

  lemma {:induction false} DeliverMoves(w: World, receiver: nat, sender: nat)
    requires MemberInv(w, receiver) && MemberInv(w, sender) && Pending(w, receiver, sender)
    ensures Step(w, Deliver(receiver, sender)) == MovedOn(w, receiver, sender)
  {
    PendingOpens(w, receiver, sender);
  }

  /** Moving one receive chain on by one keeps every member in sync. */
  lemma {:induction false} MovedMember(w: World, receiver: nat, sender: nat, l: nat)
    requires MemberInv(w, receiver) && MemberInv(w, l) && Opened(w.views[receiver], sender) < |Log(w, sender)|
    ensures MemberInv(MovedOn(w, receiver, sender), l)
  {
    var next := MovedOn(w, receiver, sender);
    SenderStays(w, next, l);
    if l == receiver {
      ReceiverMoves(w, next, l, sender, Opened(w.views[receiver], sender) + 1);
    } else {
      assert forall s :: Log(next, s) == Log(w, s);
    }
  }

  lemma {:induction false} MovedInv(w: World, receiver: nat, sender: nat)
    requires Inv(w) && receiver in w.views && Opened(w.views[receiver], sender) < |Log(w, sender)|
    ensures Inv(MovedOn(w, receiver, sender))
  {
    var next := MovedOn(w, receiver, sender);
    assert MemberInv(w, receiver);
    forall l | l in next.views ensures MemberInv(next, l) {
      assert MemberInv(w, l);
      MovedMember(w, receiver, sender, l);
    }
  }

  lemma {:induction false} DeliverKeepsInv(w: World, receiver: nat, sender: nat)
    requires Inv(w)
    ensures Inv(Step(w, Deliver(receiver, sender)))
  {
    if Pending(w, receiver, sender) {
      assert sender in w.sent;
      assert MemberInv(w, receiver) && MemberInv(w, sender);
      DeliverMoves(w, receiver, sender);
      MovedInv(w, receiver, sender);
    }
  }

  lemma {:induction false} StepKeepsInv(w: World, e: Event)
    requires Inv(w)
    ensures Inv(Step(w, e))
  {
    match e
    case Send(sender, plaintext) => SendKeepsInv(w, sender, plaintext);
    case Deliver(receiver, sender) => DeliverKeepsInv(w, receiver, sender);
    case _ =>
      if CommitOf(w, e).Some? { CommitKeepsInv(w, e, CommitOf(w, e).value); }
  }

  lemma {:induction false} RunKeepsInv(w: World, events: seq<Event>)
    requires Inv(w)
    ensures Inv(Run(w, events))
    decreases |events|
  {
    if events != [] {
      StepKeepsInv(w, events[0]);
      RunKeepsInv(Step(w, events[0]), events[1..]);
    }
  }

  lemma {:induction false} FoundedInv(groupId: GroupId, seed: nat, identity: Identity, leafKey: nat, capacity: nat)
    requires Created(groupId, seed, identity, leafKey, capacity).Ok?
    ensures Inv(Founded(Created(groupId, seed, identity, leafKey, capacity).value))
  {
    var v := Created(groupId, seed, identity, leafKey, capacity).value;
    var w := Founded(v);
    forall a: nat | Within(MyNode(v), a) && a != MyNode(v) && a < |v.nodes|
      ensures v.nodes[a].Blank?
    {
    }
    StartInSync(w, 0);
  }

  /**
   Convergence. After any run from a founded group, any two live members hold the
   same tree, epoch, epoch secret and transcript, and each one's secrets derive the
   key of every populated internal ancestor of its leaf.
   */
  lemma {:induction false} Convergence(founder: View, groupId: GroupId, seed: nat, identity: Identity, leafKey: nat,
      capacity: nat,
                    events: seq<Event>, a: nat, b: nat)
    requires Created(groupId, seed, identity, leafKey, capacity) == Ok(founder)
    requires a in Run(Founded(founder), events).views && b in Run(Founded(founder), events).views
    ensures var w := Run(Founded(founder), events);
            && w.views[a].nodes == w.views[b].nodes
            && w.views[a].epoch == w.views[b].epoch
            && w.views[a].epochSecret == w.views[b].epochSecret
            && w.views[a].transcript == w.views[b].transcript
            && w.views[a].myLeaf == a
            && ValidView(w.views[a]) && KnowsAncestors(w.views[a])
  {
    FoundedInv(groupId, seed, identity, leafKey, capacity);
    RunKeepsInv(Founded(founder), events);
    assert MemberInv(Run(Founded(founder), events), a) && MemberInv(Run(Founded(founder), events), b);
  }

  /**
   Progress. After any run, whatever commit comes next is accepted by every live
   member but its maker and the member it removes, and every pending record opens
   at every other live member to the plaintext that was sealed.
   */
  lemma {:induction false} EveryoneAccepts(founder: View, groupId: GroupId, seed: nat, identity: Identity,
      leafKey: nat, capacity: nat,
                        events: seq<Event>, e: Event)
    requires Created(groupId, seed, identity, leafKey, capacity) == Ok(founder)
    ensures var w := Run(Founded(founder), events);
            && (CommitOf(w, e).Some? ==>
                  forall l :: l in Others(w, e) ==>
                    ValidView(w.views[l]) && CommitApplied(w.views[l], CommitOf(w, e).value.commit).Ok?)
            && (e.Deliver? && Pending(w, e.receiver, e.sender) ==>
                  SoundView(w.views[e.receiver]) &&
                  Delivery(w, e.receiver, e.sender).1
                  == Ok((e.sender, Log(w, e.sender)[Opened(w.views[e.receiver], e.sender)].0)))
  {
    var w := Run(Founded(founder), events);
    FoundedInv(groupId, seed, identity, leafKey, capacity);
    RunKeepsInv(Founded(founder), events);
    if CommitOf(w, e).Some? {
      forall l | l in Others(w, e)
        ensures ValidView(w.views[l]) && CommitApplied(w.views[l], CommitOf(w, e).value.commit).Ok?
      {
        assert MemberInv(w, l) && MemberInv(w, Committer(e));
        OtherMember(w, e, CommitOf(w, e).value, l);
      }
    }
    if e.Deliver? && Pending(w, e.receiver, e.sender) {
      assert e.sender in w.sent;
      assert MemberInv(w, e.receiver) && MemberInv(w, e.sender);
      PendingOpens(w, e.receiver, e.sender);
    }
  }
}
