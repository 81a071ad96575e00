/**
 A whole group: every live member's view, and the events that move it. Commits are
 delivered to everyone in one agreed order; application records of an epoch may be
 delivered at any later time, in order per sender.
 */
module GroupWorld {
  import opened Powers
  import opened Wrappers
  import opened GroupTree
  import opened GroupTypes
  import opened GroupSpec
  import opened GroupDecrypt

  /** The part of a view every member must share. */
  datatype Public = Public(groupId: GroupId, capacity: nat, nodes: seq<TreeNode>, epoch: nat,
                           epochSecret: EpochSecret, transcript: Transcript)

  /**
   `views` holds the live members by leaf. `origins[f]` is the leaf node of the
   committer who drew fresh secret `f`, and `sent` the records of this epoch with
   the plaintexts they were sealed from.
   */
  datatype World = World(shared: Public, views: map<nat, View>, origins: seq<nat>,
                         sent: map<nat, seq<(Plaintext, Record)>>)

  datatype Event =
    | AddMember(committer: nat, identity: Identity, leafKey: nat)
    | RemoveMember(committer: nat, leaf: nat)
    | UpdatePath(committer: nat)
    | Send(sender: nat, plaintext: Plaintext)
    | Deliver(receiver: nat, sender: nat)

  function PublicOf(v: View): Public {
    Public(v.groupId, v.capacity, v.nodes, v.epoch, v.epochSecret, v.transcript)
  }

  function Created(groupId: GroupId, seed: nat, identity: Identity, leafKey: nat,
      capacity: nat): (r: Result<View, Error>)
    ensures r.Ok? ==> ValidView(r.value)
  {
    if capacity < 2 || !IsPowerOfTwo(capacity) then Err(Malformed)
    else if capacity > MAX_CAPACITY then Err(Malformed)
    else
      assert CapacityOk(capacity);
      var blank := seq(2 * capacity - 1, _ => Blank);
      var epochSecret := InitialSecret(seed, groupId);
      Ok(View(groupId, capacity,
              blank[LeafToNode(capacity, 0) := Leaf(LeafKeyPackage(identity, LeafKey(leafKey)))],
              0, epochSecret, Genesis(groupId), 0, LeafKey(leafKey), map[], 0, SenderChain(epochSecret, 0), map[]))
  }

  // ----- the invariant -----

  /** Each populated internal ancestor of the member's leaf carries the key its own secret derives. */
  ghost predicate KnowsAncestors(v: View)
    requires ValidView(v)
  {
    forall a: nat :: Within(MyNode(v), a) && a != MyNode(v) && a < |v.nodes| && !v.nodes[a].Blank? ==>
                       a in v.knownSecrets && v.nodes[a] == Internal(NodeKey(v.knownSecrets[a]))
  }

  ghost predicate Live(v: View, leaf: nat, shared: Public) {
    && PublicOf(v) == shared
    && ValidView(v)
    && v.myLeaf == leaf
    && v.nodes[MyNode(v)].Leaf?
    && v.nodes[MyNode(v)].package.publicKey == v.myLeafKey
    && KnownAbove(v)
    && KnowsAncestors(v)
  }

  function Log(w: World, sender: nat): seq<(Plaintext, Record)> {
    if sender in w.sent then w.sent[sender] else []
  }

  /** How many of `sender`'s records of this epoch the member has opened. */
  function Opened(v: View, sender: nat): nat {
    if sender in v.recvChains then v.recvChains[sender].1 else 0
  }

  function NthRecord(w: World, sender: nat, n: nat, plaintext: Plaintext): Record {
    var h := Header(w.shared.epoch, sender, n);
    Record(h, ChainWalk(SenderChain(w.shared.epochSecret, sender), n), h, plaintext)
  }

  /** A sender's log and chain agree. */
  ghost predicate SenderInSync(w: World, sender: nat) {
    && sender in w.views
    && w.views[sender].sendSeq == |Log(w, sender)|
    && w.views[sender].sendChain == ChainWalk(SenderChain(w.shared.epochSecret, sender), |Log(w, sender)|)
    && forall n :: 0 <= n < |Log(w, sender)| ==> Log(w, sender)[n].1 == NthRecord(w, sender, n, Log(w, sender)[n].0)
  }

  /** Each receive chain stands exactly where it has read its sender's log to. */
  ghost predicate ReceiverInSync(w: World, receiver: nat) {
    && receiver in w.views
    && forall s :: s in w.views[receiver].recvChains ==>
                     && w.views[receiver].recvChains[s].0
                        == ChainWalk(SenderChain(w.shared.epochSecret, s), w.views[receiver].recvChains[s].1)
                     && Opened(w.views[receiver], s) <= |Log(w, s)|
  }

  ghost predicate MemberInv(w: World, l: nat) {
    l in w.views && Live(w.views[l], l, w.shared) && SenderInSync(w, l) && ReceiverInSync(w, l)
  }

  ghost predicate Inv(w: World) {
    (forall l :: l in w.views ==> MemberInv(w, l)) && (forall s :: s in w.sent ==> s in w.views)
  }

  // ----- steps -----

  /** What a step needs to be defined: a well-formed tree with the member's own leaf populated. */
  ghost predicate SoundView(v: View) {
    ValidView(v) && v.nodes[MyNode(v)].Leaf?
  }

  function SignerOf(v: View): Identity
    requires ValidView(v) && v.nodes[MyNode(v)].Leaf?
  {
    v.nodes[MyNode(v)].package.identity
  }

  datatype Outcome = Outcome(after: View, commit: Commit, welcome: Option<Welcome>)

  /** The commit an event makes of the committer's view, drawing fresh secret number `nonce`. */
  function Proposed(v: View, e: Event, nonce: nat): Option<Outcome>
    requires ValidView(v) && v.nodes[MyNode(v)].Leaf?
  {
    match e
    case AddMember(_, identity, key) =>
      (match ProposedAdd(v, SignerOf(v), LeafKeyPackage(identity, LeafKey(key)), Fresh(nonce))
       case Err(_) => None
       case Ok(p) => Some(Outcome(p.0, p.1, Some(p.2))))
    case RemoveMember(_, leaf) =>
      (match ProposedRemove(v, SignerOf(v), leaf, Fresh(nonce))
       case Err(_) => None
       case Ok(p) => Some(Outcome(p.0, p.1, None)))
    case UpdatePath(_) =>
      (match Committed(v, SignerOf(v), Update, Fresh(nonce))
       case Err(_) => None
       case Ok(p) => Some(Outcome(p.0, p.1, None)))
    case Send(_, _) => None
    case Deliver(_, _) => None
  }

  function Committer(e: Event): nat {
    match e
    case AddMember(c, _, _) => c
    case RemoveMember(c, _) => c
    case UpdatePath(c) => c
    case Send(s, _) => s
    case Deliver(r, _) => r
  }

  /** Nothing when the named committer is not live, or cannot make this commit. */
  ghost function CommitOf(w: World, e: Event): Option<Outcome> {
    if Committer(e) !in w.views || !SoundView(w.views[Committer(e)]) then None
    else Proposed(w.views[Committer(e)], e, |w.origins|)
  }

  /** A member's view after it receives a commit; an error leaves it as it was. */
  ghost function Received(v: View, c: Commit): View {
    if !ValidView(v) then v
    else match CommitApplied(v, c)
      case Ok(after) => after
      case Err(_) => v
  }

  ghost function JoinedViews(e: Event, o: Outcome): map<nat, View> {
    if !(e.AddMember? && o.welcome.Some?) then map[]
    else
      match Joined(e.identity, LeafKey(e.leafKey), o.welcome.value, o.commit)
      case Ok(v) => map[v.myLeaf := v]
      case Err(_) => map[]
  }

  /** Members whose view survives event `e` and who did not make the commit. */
  ghost function Others(w: World, e: Event): set<nat> {
    set l | l in w.views && l != Committer(e) && !(e.RemoveMember? && e.leaf == l)
  }

  ghost function CommitStep(w: World, e: Event, o: Outcome): World {
    var others := map l | l in Others(w, e) :: Received(w.views[l], o.commit);
    var own := if e.RemoveMember? && e.leaf == e.committer then map[] else map[Committer(e) := o.after];
    World(PublicOf(o.after), others + own + JoinedViews(e, o), w.origins + [MyNode0(o.after)], map[])
  }

  function MyNode0(v: View): nat {
    if v.capacity >= 1 then MyNode(v) else 0
  }

  ghost function SendStep(w: World, sender: nat, plaintext: Plaintext): World {
    if sender !in w.views then w
    else
      match SealedRecord(w.views[sender], plaintext)
      case Err(_) => w
      case Ok(p) => w.(views := w.views[sender := p.0],
                       sent := w.sent[sender := Log(w, sender) + [(plaintext, p.1)]])
  }

  /** The next of `sender`'s records that `receiver` has not opened, if it has been sent. */
  ghost predicate Pending(w: World, receiver: nat, sender: nat) {
    receiver in w.views && receiver != sender && Opened(w.views[receiver], sender) < |Log(w, sender)|
  }

  ghost function Delivery(w: World, receiver: nat, sender: nat): (View, Result<(nat, Plaintext), Error>)
    requires Pending(w, receiver, sender) && SoundView(w.views[receiver])
  {
    OpenedRecord(w.views[receiver], Log(w, sender)[Opened(w.views[receiver], sender)].1)
  }

  ghost function Step(w: World, e: Event): World {
    match e
    case Send(sender, plaintext) => SendStep(w, sender, plaintext)
    case Deliver(receiver, sender) =>
      if Pending(w, receiver, sender)
          && SoundView(w.views[receiver]) then w.(views := w.views[receiver := Delivery(w, receiver, sender).0]) else w
    case _ =>
      match CommitOf(w, e)
      case None => w
      case Some(o) => CommitStep(w, e, o)
  }

  ghost function Run(w: World, events: seq<Event>): World
    decreases |events|
  {
    if events == [] then w else Run(Step(w, events[0]), events[1..])
  }

  /** A new group: its founder alone at leaf 0. */
  ghost function Founded(founder: View): World {
    World(PublicOf(founder), map[0 := founder], [], map[])
  }
}
