/**
 Who can decrypt an honestly built commit: the level is always the one where the
 two direct paths meet, and a holder of the right key recovers exactly the secret
 the committer put there.
 */
module GroupDecrypt {
  import opened Wrappers
  import opened GroupTree
  import opened GroupTypes
  import opened GroupResolution
  import opened GroupSpec

  lemma {:induction false} WalkCompose(secret: PathSecret, j: nat, k: nat)
    ensures Walk(Walk(secret, j), k) == Walk(secret, j + k)
  {
    if k > 0 { WalkCompose(secret, j, k - 1); }
  }

  /** Resuming the walk from level `level` reaches the same end. */
  lemma {:induction false} WalkFrom(secret: PathSecret, level: nat, end: nat)
    requires level <= end
    ensures Walk(Walk(secret, level), end - level) == Walk(secret, end)
  {
    WalkCompose(secret, level, end - level);
  }

  /** Path secrets are held only for proper ancestors of the member's own leaf. */
  ghost predicate KnownAbove(v: View)
    requires v.capacity >= 1
  {
    forall a: nat :: a in v.knownSecrets ==> Within(MyNode(v), a) && a != MyNode(v)
  }

  /** The member holds the private key of resolution member `t` in tree `pre`. */
  ghost predicate Holds(v: View, pre: seq<TreeNode>, t: nat)
    requires v.capacity >= 1
  {
    t < |pre| && !pre[t].Blank? && KeyFor(v, t) == Some(NodePublicKey(pre[t]))
  }

  /** With every ciphertext carrying `secret`, decryption yields `secret` or nothing. */
  lemma {:induction false} DecryptAmongIs(v: View, pre: seq<TreeNode>, targets: seq<nat>, cts: seq<Sealed>,
      secret: PathSecret)
    requires v.capacity >= 1
    requires forall k :: 0 <= k < |cts| ==> cts[k].secret == secret
    ensures DecryptAmong(v, targets, cts) in {None, Some(secret)}
    ensures (forall t :: t in targets ==> KeyFor(v, t).None?) ==> DecryptAmong(v, targets, cts).None?
    ensures (exists t :: t in targets && Holds(v, pre, t) && Sealed(NodePublicKey(pre[t]), secret) in cts)
            ==> DecryptAmong(v, targets, cts) == Some(secret)
  {
    if targets != [] {
      DecryptAmongIs(v, pre, targets[1..], cts, secret);
      assert forall t :: t in targets <==> t == targets[0] || t in targets[1..];
    }
  }

  /** Only the meeting level can hold a key of a member whose secrets lie above its own leaf. */
  lemma {:induction false} NoKeyOffMeet(v: View, pre: seq<TreeNode>, from: nat, i: nat, t: nat)
    requires v.capacity >= 1 && |pre| == 2 * v.capacity - 1 && from < |pre| && i < Depth(from)
    requires KnownAbove(v) && !Within(MyNode(v), from) && !Within(from, MyNode(v))
    requires t in LevelTargets(pre, v.capacity, from, i) && KeyFor(v, t).Some?
    ensures i == MeetLevel(from, MyNode(v)) && Within(MyNode(v), t) && BlankAbove(pre, t, Sibling(Prev(from, i)))
  {
    SiblingInTree(v.capacity, from, i);
    ResolutionMembers(pre, v.capacity, Sibling(Prev(from, i)), t);
    WithinTrans(MyNode(v), t, Sibling(Prev(from, i)));
    ExactlyOneLevel(from, MyNode(v), i);
  }

  /** The member holds the key of some resolution member at the level where the paths meet. */
  ghost predicate HoldsSome(v: View, pre: seq<TreeNode>, from: nat)
    requires v.capacity >= 1 && |pre| == 2 * v.capacity - 1 && from < |pre|
  {
    !Within(MyNode(v), from) &&
    exists t :: t in LevelTargets(pre, v.capacity, from, MeetLevel(from, MyNode(v))) && Holds(v, pre, t)
  }

  /** The member holds no key at all for any resolution member at that level. */
  ghost predicate HoldsNone(v: View, pre: seq<TreeNode>, from: nat)
    requires v.capacity >= 1 && |pre| == 2 * v.capacity - 1 && from < |pre|
  {
    !Within(MyNode(v), from) &&
    forall t :: t in LevelTargets(pre, v.capacity, from, MeetLevel(from, MyNode(v))) ==> KeyFor(v, t).None?
  }

  lemma {:induction false} AtLevel(v: View, pre: seq<TreeNode>, from: nat, secret: PathSecret, i: nat)
    requires v.capacity >= 1 && |pre| == 2 * v.capacity - 1 && from < |pre| && i < Depth(from)
    requires KnownAbove(v) && !Within(MyNode(v), from) && !Within(from, MyNode(v))
    ensures var found := DecryptAmong(v, LevelTargets(pre, v.capacity, from, i),
                                      PathUpdate(pre, v.capacity, from, secret)[i].ciphertexts);
            && (i != MeetLevel(from, MyNode(v)) || HoldsNone(v, pre, from) ==> found.None?)
            && (i == MeetLevel(from, MyNode(v)) && HoldsSome(v, pre, from) ==> found == Some(Walk(secret, i)))
  {
    var targets := LevelTargets(pre, v.capacity, from, i);
    var cts := PathUpdate(pre, v.capacity, from, secret)[i].ciphertexts;
    assert cts == SealAll(pre, targets, Walk(secret, i));
    DecryptAmongIs(v, pre, targets, cts, Walk(secret, i));
    if i != MeetLevel(from, MyNode(v)) {
      forall t | t in targets ensures KeyFor(v, t).None? {
        if KeyFor(v, t).Some? { NoKeyOffMeet(v, pre, from, i, t); }
      }
    } else if t :| t in targets && Holds(v, pre, t) {
      var k :| 0 <= k < |targets| && targets[k] == t;
      assert cts[k] == Sealed(NodePublicKey(pre[t]), Walk(secret, i));
    }
  }

  function LevelResult(v: View, pre: seq<TreeNode>, from: nat, path: seq<UpdatePathNode>, i: nat): Option<PathSecret>
    requires v.capacity >= 1 && |pre| == 2 * v.capacity - 1 && from < |pre|
    requires |path| == Depth(from) && i < Depth(from)
  {
    DecryptAmong(v, LevelTargets(pre, v.capacity, from, i), path[i].ciphertexts)
  }

  /** The search stops at the only level that yields anything. */
  lemma {:induction false} FindOnlyLevel(v: View, pre: seq<TreeNode>, from: nat, path: seq<UpdatePathNode>, meet: nat,
      i: nat)
    requires v.capacity >= 1 && |pre| == 2 * v.capacity - 1 && from < |pre|
    requires |path| == Depth(from) && meet < Depth(from) && i <= Depth(from)
    requires forall j :: 0 <= j < Depth(from) && j != meet ==> LevelResult(v, pre, from, path, j).None?
    ensures FindAndDecrypt(v, pre, from, i, path) ==
            if i <= meet && LevelResult(v, pre, from, path, meet).Some?
            then Some((meet, LevelResult(v, pre, from, path, meet).value)) else None
    decreases Depth(from) - i
  {
    if i < Depth(from) {
      FindOnlyLevel(v, pre, from, path, meet, i + 1);
      assert LevelResult(v, pre, from, path, i).None? || i == meet;
    }
  }

  /**
   What `FindAndDecrypt` returns on an honest path: the meeting level and the
   secret of that level when the member holds a key there, and nothing when it
   holds none.
   */
  lemma {:induction false} FindIs(v: View, pre: seq<TreeNode>, from: nat, secret: PathSecret)
    requires v.capacity >= 1 && |pre| == 2 * v.capacity - 1 && from < |pre|
    requires KnownAbove(v) && !Within(MyNode(v), from) && !Within(from, MyNode(v))
    ensures var found := FindAndDecrypt(v, pre, from, 0, PathUpdate(pre, v.capacity, from, secret));
            var meet := MeetLevel(from, MyNode(v));
            && (HoldsSome(v, pre, from) ==> found == Some((meet, Walk(secret, meet))))
            && (HoldsNone(v, pre, from) ==> found.None?)
  {
    var path := PathUpdate(pre, v.capacity, from, secret);
    var meet := MeetLevel(from, MyNode(v));
    forall j | 0 <= j < Depth(from) && j != meet
      ensures LevelResult(v, pre, from, path, j).None?
    {
      AtLevel(v, pre, from, secret, j);
    }
    AtLevel(v, pre, from, secret, meet);
    FindOnlyLevel(v, pre, from, path, meet, 0);
  }

  /** From the decrypted secret on, every published key checks out and the commit secret is the committer's. */
  lemma {:induction false} RestOfPathMatches(pre: seq<TreeNode>, capacity: nat, from: nat, secret: PathSecret, i: nat)
    requires capacity >= 1 && |pre| == 2 * capacity - 1 && from < |pre| && i < Depth(from)
    ensures PathKeysMatch(PathUpdate(pre, capacity, from, secret), i, Walk(secret, i))
    ensures Walk(Walk(secret, i), Depth(from) - 1 - i) == Walk(secret, Depth(from) - 1)
  {
    var path := PathUpdate(pre, capacity, from, secret);
    PathKeysMatchIs(path, i, Walk(secret, i));
    forall k | i <= k < |path| ensures path[k].publicKey == NodeKey(Walk(Walk(secret, i), k - i)) {
      WalkFrom(secret, i, k);
    }
    WalkFrom(secret, i, Depth(from) - 1);
  }
}
