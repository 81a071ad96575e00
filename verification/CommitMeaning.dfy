/**
 From commits as bytes to the commits of the group model: what a signature over the
 bytes covers there is exactly what the model lets a signature cover.
 */
module CommitMeaning {
  import opened Wrappers
  import opened Bytes
  import Codec = CommitCodec
  import Group = GroupTypes

  /** What the byte strings of a commit stand for in the group model. */
  datatype Reading = Reading(groupId: seq<byte> -> Group.GroupId, identity: Codec.Identity -> Group.Identity,
      key: Codec.NodeKey -> Group.PublicKey, unsealed: Codec.SealedToNode -> Group.Sealed)

  function PackageOf(r: Reading, p: Codec.LeafPackage): Group.LeafKeyPackage {
    Group.LeafKeyPackage(r.identity(p.identity), r.key(p.key))
  }

  function OpOf(r: Reading, op: Codec.GroupOp): Group.GroupOp {
    match op
    case Add(leaf, package) => Group.Add(leaf, PackageOf(r, package))
    case Remove(leaf) => Group.Remove(leaf)
    case Update => Group.Update
  }

  function NodeOf(r: Reading, n: Codec.PathNode): Group.UpdatePathNode {
    Group.UpdatePathNode(r.key(n.key), seq(|n.ciphertexts|, k requires 0 <= k < |n.ciphertexts| =>
      r.unsealed(n.ciphertexts[k])))
  }

  function BodyOf(r: Reading, c: Codec.Commit): Group.CommitBody {
    Group.CommitBody(r.groupId(c.groupId), c.fromEpoch, c.sender, OpOf(r, c.op),
                     seq(|c.path|, k requires 0 <= k < |c.path| => NodeOf(r, c.path[k])))
  }

  /** The commit of the group model, given who signed it and the body that signature was made for. */
  function CommitOf(r: Reading, c: Codec.Commit, signer: Group.Identity, signed: Group.CommitBody): Group.Commit {
    Group.Commit(BodyOf(r, c), signer, signed)
  }

  /**
   A signature made for one commit's bytes and found good for another's was made for
   the same body: the model's test `signedBody == body` is the test on the bytes.
   */
  lemma {:induction false} SignatureCoversBody(f: Codec.Formats, r: Reading, made: Codec.Commit, got: Codec.Commit,
      signer: Group.Identity)
    requires Codec.FieldsOk(f, made) && Codec.FieldsOk(f, got)
    requires Codec.SignedBytes(Codec.CONTEXT, made) == Codec.SignedBytes(Codec.CONTEXT, got)
    ensures var c := CommitOf(r, got, signer, BodyOf(r, made)); c.signedBody == c.body
  {
    Codec.SignedBytesInjective(f, made, got);
  }

  /** Whatever two byte strings are accepted, if they differ in their context bytes only they carry one body. */
  lemma {:induction false} ContextLeavesBody(f: Codec.Formats, r: Reading, context: seq<byte>, c: Codec.Commit)
    requires Codec.CommitOk(f, c) && |context| == |Codec.CONTEXT|
    ensures var again := Codec.FromBytes(f, Codec.Encoding(context, c));
            again.Ok? && BodyOf(r, again.value) == BodyOf(r, c)
  {
    Codec.EncodingBack(f, context, c);
  }
}
