/**
 The encoding of group commits (crates/core/src/group.rs). Keys, ciphertexts and
 signatures are byte strings; which of them their libraries accept, and whether a
 proof of possession verifies, is a parameter.
 */
module CommitCodec {
  import opened Wrappers
  import opened Bytes
  import opened Wire

  datatype NodeKey = NodeKey(dh: seq<byte>, kem: seq<byte>)

  datatype Identity = Identity(ed25519: seq<byte>, mlDsa: seq<byte>)

  datatype Signature = Signature(ed25519: seq<byte>, mlDsa: seq<byte>)

  datatype LeafPackage = LeafPackage(identity: Identity, key: NodeKey, pop: Signature)

  datatype SealedToNode = SealedToNode(ephemeral: seq<byte>, kemCiphertext: seq<byte>, ciphertext: seq<byte>)

  datatype GroupOp = Add(leaf: nat, package: LeafPackage) | Remove(leaf: nat) | Update

  datatype PathNode = PathNode(key: NodeKey, ciphertexts: seq<SealedToNode>)

  datatype Commit = Commit(groupId: seq<byte>, fromEpoch: nat, sender: nat, op: GroupOp, path: seq<PathNode>,
      signature: Signature)

  /** What the key and signature libraries parse. */
  datatype Format = DhKey | KemKey | KemText | EdKey | MlDsaKey | EdSignature | MlDsaSignature

  /** What those libraries accept: each format's byte strings, and proofs of possession. */
  datatype Formats =
    Formats(accepts: (Format, seq<byte>) -> bool, possession: (Identity, NodeKey, Signature) -> bool)

  /** The 27 bytes that separate commit signatures from all others. */
  const CONTEXT: seq<byte> :=
    [110, 111, 118, 97, 99, 104, 97, 110, 110, 101, 108, 32, 103, 114, 111, 117, 112, 32, 118, 49, 32, 99, 111, 109,
        109, 105, 116]

  // ----- values that have an encoding -----

  predicate KeyOk(f: Formats, k: NodeKey) {
    |k.dh| == 32 && f.accepts(DhKey, k.dh) && f.accepts(KemKey, k.kem) && |k.kem| < U64
  }

  predicate SignatureOk(f: Formats, s: Signature) {
    |s.ed25519| == 64 && f.accepts(EdSignature, s.ed25519) && f.accepts(MlDsaSignature, s.mlDsa) && |s.mlDsa| < U64
  }

  predicate IdentityOk(f: Formats, i: Identity) {
    |i.ed25519| == 32 && f.accepts(EdKey, i.ed25519) && f.accepts(MlDsaKey, i.mlDsa) && |i.mlDsa| < U64
  }

  predicate PackageOk(f: Formats, p: LeafPackage) {
    IdentityOk(f, p.identity) && KeyOk(f, p.key) && SignatureOk(f, p.pop) && f.possession(p.identity, p.key, p.pop)
  }

  predicate SealedOk(f: Formats, s: SealedToNode) {
    |s.ephemeral| == 32 && f.accepts(DhKey, s.ephemeral) && f.accepts(KemText, s.kemCiphertext)
        && |s.kemCiphertext| < U64 && |s.ciphertext| < U64
  }

  predicate OpOk(f: Formats, op: GroupOp) {
    match op
    case Add(leaf, package) => leaf < U32 && PackageOk(f, package)
    case Remove(leaf) => leaf < U32
    case Update => true
  }

  predicate AllSealedOk(f: Formats, items: seq<SealedToNode>) {
    forall k :: 0 <= k < |items| ==> SealedOk(f, items[k])
  }

  predicate AllNodesOk(f: Formats, path: seq<PathNode>) {
    forall k :: 0 <= k < |path| ==> PathNodeOk(f, path[k])
  }

  predicate PathNodeOk(f: Formats, n: PathNode) {
    KeyOk(f, n.key) && |n.ciphertexts| < U32 && AllSealedOk(f, n.ciphertexts)
  }

  predicate FieldsOk(f: Formats, c: Commit) {
    && |c.groupId| == 16 && c.fromEpoch < U64 && c.sender < U32 && OpOk(f, c.op)
    && |c.path| < U32 && AllNodesOk(f, c.path)
  }

  predicate CommitOk(f: Formats, c: Commit) {
    FieldsOk(f, c) && SignatureOk(f, c.signature) && |SignedBytes(CONTEXT, c)| < U64
  }

  // ----- writing -----

  function WriteKey(k: NodeKey): seq<byte> { k.dh + VarField(k.kem) }

  function WriteSignature(s: Signature): seq<byte> { s.ed25519 + VarField(s.mlDsa) }

  function WriteIdentity(i: Identity): seq<byte> { i.ed25519 + VarField(i.mlDsa) }

  function WritePackage(p: LeafPackage): seq<byte> {
    WriteIdentity(p.identity) + (WriteKey(p.key) + WriteSignature(p.pop))
  }

  function WriteSealed(s: SealedToNode): seq<byte> {
    s.ephemeral + (VarField(s.kemCiphertext) + VarField(s.ciphertext))
  }

  function WriteOp(op: GroupOp): seq<byte> {
    match op
    case Add(leaf, package) => [0] + (ToBe(leaf, 4) + WritePackage(package))
    case Remove(leaf) => [1] + ToBe(leaf, 4)
    case Update => [2]
  }

  function WriteSealeds(items: seq<SealedToNode>): (b: seq<byte>)
    ensures |b| >= |items|
  {
    if items == [] then [] else WriteSealed(items[0]) + WriteSealeds(items[1..])
  }

  function WritePathNode(n: PathNode): (b: seq<byte>)
    ensures |b| >= 1
  {
    WriteKey(n.key) + (ToBe(|n.ciphertexts|, 4) + WriteSealeds(n.ciphertexts))
  }

  function WritePath(path: seq<PathNode>): (b: seq<byte>)
    ensures |b| >= |path|
  {
    if path == [] then [] else WritePathNode(path[0]) + WritePath(path[1..])
  }

  /** The signed section, under a given context. */
  function SignedBytes(context: seq<byte>, c: Commit): seq<byte> {
    context + (c.groupId + (ToBe(c.fromEpoch,
        8) + (ToBe(c.sender, 4) + (WriteOp(c.op) + (ToBe(|c.path|, 4) + WritePath(c.path))))))
  }

  function Encoding(context: seq<byte>, c: Commit): seq<byte> {
    VarField(SignedBytes(context, c)) + WriteSignature(c.signature)
  }

  function ToBytes(c: Commit): seq<byte> {
    Encoding(CONTEXT, c)
  }

  // ----- reading -----

  type Parsed<T> = Result<(T, seq<byte>), Failure>

  function ReadKey(f: Formats, s: seq<byte>): Parsed<NodeKey> {
    var (dh, s1) :- TakeFixed(s, 32);
    if !f.accepts(DhKey, dh) then Err(BadKey)
    else
      var (kem, s2) :- TakeVar(s1);
      if !f.accepts(KemKey, kem) then Err(BadKey) else Ok((NodeKey(dh, kem), s2))
  }

  function ReadSignature(f: Formats, s: seq<byte>): Parsed<Signature> {
    var (ed, s1) :- TakeFixed(s, 64);
    if !f.accepts(EdSignature, ed) then Err(BadKey)
    else
      var (ml, s2) :- TakeVar(s1);
      if !f.accepts(MlDsaSignature, ml) then Err(BadKey) else Ok((Signature(ed, ml), s2))
  }

  function ReadIdentity(f: Formats, s: seq<byte>): Parsed<Identity> {
    var (ed, s1) :- TakeFixed(s, 32);
    if !f.accepts(EdKey, ed) then Err(BadKey)
    else
      var (ml, s2) :- TakeVar(s1);
      if !f.accepts(MlDsaKey, ml) then Err(BadKey) else Ok((Identity(ed, ml), s2))
  }

  function ReadPackage(f: Formats, s: seq<byte>): Parsed<LeafPackage> {
    var (identity, s1) :- ReadIdentity(f, s);
    var (key, s2) :- ReadKey(f, s1);
    var (pop, s3) :- ReadSignature(f, s2);
    if f.possession(identity, key, pop) then Ok((LeafPackage(identity, key, pop), s3)) else Err(BadPossession)
  }

  function ReadSealed(f: Formats, s: seq<byte>): Parsed<SealedToNode> {
    var (ephemeral, s1) :- TakeFixed(s, 32);
    if !f.accepts(DhKey, ephemeral) then Err(BadKey)
    else
      var (kemCiphertext, s2) :- TakeVar(s1);
      if !f.accepts(KemText, kemCiphertext) then Err(BadKey)
      else
        var (ciphertext, s3) :- TakeVar(s2);
        Ok((SealedToNode(ephemeral, kemCiphertext, ciphertext), s3))
  }

  function ReadOp(f: Formats, s: seq<byte>): Parsed<GroupOp> {
    var (tag, s1) :- TakeFixed(s, 1);
    if tag[0] == 0 then
      var (leaf, s2) :- TakeFixed(s1, 4);
      var (package, s3) :- ReadPackage(f, s2);
      Ok((Add(FromBe(leaf), package), s3))
    else if tag[0] == 1 then
      var (leaf, s2) :- TakeFixed(s1, 4);
      Ok((Remove(FromBe(leaf)), s2))
    else if tag[0] == 2 then Ok((Update, s1))
    else Err(UnknownTag)
  }

  function ReadSealeds(f: Formats, count: nat, s: seq<byte>): Parsed<seq<SealedToNode>> {
    if count == 0 then Ok(([], s))
    else
      var (first, s1) :- ReadSealed(f, s);
      var (others, s2) :- ReadSealeds(f, count - 1, s1);
      Ok(([first] + others, s2))
  }

  function ReadPathNode(f: Formats, s: seq<byte>): Parsed<PathNode> {
    var (key, s1) :- ReadKey(f, s);
    var (count, s2) :- TakeFixed(s1, 4);
    if FromBe(count) > |s2| then Err(CountTooLarge)
    else
      var (ciphertexts, s3) :- ReadSealeds(f, FromBe(count), s2);
      Ok((PathNode(key, ciphertexts), s3))
  }

  function ReadPath(f: Formats, count: nat, s: seq<byte>): Parsed<seq<PathNode>> {
    if count == 0 then Ok(([], s))
    else
      var (first, s1) :- ReadPathNode(f, s);
      var (others, s2) :- ReadPath(f, count - 1, s1);
      Ok(([first] + others, s2))
  }

  /** The signed section without its context, which is skipped unread; nothing may follow. */
  function ReadFields(f: Formats, signed: seq<byte>, signature: Signature): Result<Commit, Failure> {
    var (_, s1) :- TakeFixed(signed, |CONTEXT|);
    var (groupId, s2) :- TakeFixed(s1, 16);
    var (epoch, s3) :- TakeFixed(s2, 8);
    var (sender, s4) :- TakeFixed(s3, 4);
    var (op, s5) :- ReadOp(f, s4);
    var (count, s6) :- TakeFixed(s5, 4);
    if FromBe(count) > |s6| then Err(CountTooLarge)
    else
      var (path, s7) :- ReadPath(f, FromBe(count), s6);
      if s7 != [] then Err(TrailingBytes) else Ok(Commit(groupId, FromBe(epoch), FromBe(sender), op, path, signature))
  }

  function ReadCommit(f: Formats, s: seq<byte>): Parsed<Commit> {
    var (signed, s1) :- TakeVar(s);
    var (signature, s2) :- ReadSignature(f, s1);
    var c :- ReadFields(f, signed, signature);
    Ok((c, s2))
  }

  function FromBytes(f: Formats, s: seq<byte>): Result<Commit, Failure> {
    var (c, rest) :- ReadCommit(f, s);
    if rest != [] then Err(TrailingBytes) else Ok(c)
  }

  // ----- what is written reads back -----

  lemma {:induction false} KeyBack(f: Formats, k: NodeKey, rest: seq<byte>)
    requires KeyOk(f, k)
    ensures ReadKey(f, WriteKey(k) + rest) == Ok((k, rest))
  {
    assert WriteKey(k) + rest == k.dh + (VarField(k.kem) + rest);
    TakeFixedOf(k.dh, VarField(k.kem) + rest);
    TakeVarOf(k.kem, rest);
  }

  lemma {:induction false} SignatureBack(f: Formats, g: Signature, rest: seq<byte>)
    requires SignatureOk(f, g)
    ensures ReadSignature(f, WriteSignature(g) + rest) == Ok((g, rest))
  {
    assert WriteSignature(g) + rest == g.ed25519 + (VarField(g.mlDsa) + rest);
    TakeFixedOf(g.ed25519, VarField(g.mlDsa) + rest);
    TakeVarOf(g.mlDsa, rest);
  }

  lemma {:induction false} IdentityBack(f: Formats, i: Identity, rest: seq<byte>)
    requires IdentityOk(f, i)
    ensures ReadIdentity(f, WriteIdentity(i) + rest) == Ok((i, rest))
  {
    assert WriteIdentity(i) + rest == i.ed25519 + (VarField(i.mlDsa) + rest);
    TakeFixedOf(i.ed25519, VarField(i.mlDsa) + rest);
    TakeVarOf(i.mlDsa, rest);
  }

  lemma {:induction false} PackageBack(f: Formats, p: LeafPackage, rest: seq<byte>)
    requires PackageOk(f, p)
    ensures ReadPackage(f, WritePackage(p) + rest) == Ok((p, rest))
  {
    var (i, k, g) := (WriteIdentity(p.identity), WriteKey(p.key), WriteSignature(p.pop));
    assert WritePackage(p) + rest == i + (k + (g + rest));
    IdentityBack(f, p.identity, k + (g + rest));
    KeyBack(f, p.key, g + rest);
    SignatureBack(f, p.pop, rest);
  }

  lemma {:induction false} SealedBack(f: Formats, x: SealedToNode, rest: seq<byte>)
    requires SealedOk(f, x)
    ensures ReadSealed(f, WriteSealed(x) + rest) == Ok((x, rest))
  {
    var (k, c) := (VarField(x.kemCiphertext), VarField(x.ciphertext));
    assert WriteSealed(x) + rest == x.ephemeral + (k + (c + rest));
    TakeFixedOf(x.ephemeral, k + (c + rest));
    TakeVarOf(x.kemCiphertext, c + rest);
    TakeVarOf(x.ciphertext, rest);
  }

  lemma {:induction false} NumberBack(n: nat, k: nat, rest: seq<byte>)
    requires n < Pow256(k)
    ensures TakeFixed(ToBe(n, k) + rest, k) == Ok((ToBe(n, k), rest)) && FromBe(ToBe(n, k)) == n
  {
    FromToBe(n, k);
    TakeFixedOf(ToBe(n, k), rest);
  }

  lemma {:induction false} AddBack(f: Formats, leaf: nat, package: LeafPackage, rest: seq<byte>)
    requires OpOk(f, Add(leaf, package))
    ensures ReadOp(f, WriteOp(Add(leaf, package)) + rest) == Ok((Add(leaf, package), rest))
  {
    Widths();
    var (l, p) := (ToBe(leaf, 4), WritePackage(package));
    assert WriteOp(Add(leaf, package)) + rest == [0] + (l + (p + rest));
    TakeFixedOf([0], l + (p + rest));
    NumberBack(leaf, 4, p + rest);
    PackageBack(f, package, rest);
  }

  lemma {:induction false} RemoveBack(f: Formats, leaf: nat, rest: seq<byte>)
    requires OpOk(f, Remove(leaf))
    ensures ReadOp(f, WriteOp(Remove(leaf)) + rest) == Ok((Remove(leaf), rest))
  {
    Widths();
    assert WriteOp(Remove(leaf)) + rest == [1] + (ToBe(leaf, 4) + rest);
    TakeFixedOf([1], ToBe(leaf, 4) + rest);
    NumberBack(leaf, 4, rest);
  }

  lemma {:induction false} OpBack(f: Formats, op: GroupOp, rest: seq<byte>)
    requires OpOk(f, op)
    ensures ReadOp(f, WriteOp(op) + rest) == Ok((op, rest))
  {
    match op
    case Add(leaf, package) => AddBack(f, leaf, package, rest);
    case Remove(leaf) => RemoveBack(f, leaf, rest);
    case Update => TakeFixedOf([2], rest);
  }

  lemma {:induction false} SealedsBack(f: Formats, items: seq<SealedToNode>, rest: seq<byte>)
    requires AllSealedOk(f, items)
    ensures ReadSealeds(f, |items|, WriteSealeds(items) + rest) == Ok((items, rest))
    decreases |items|
  {
    if items == [] {
      assert [] + rest == rest;
    } else {
      var (a, b) := (WriteSealed(items[0]), WriteSealeds(items[1..]));
      assert WriteSealeds(items) + rest == a + (b + rest);
      SealedBack(f, items[0], b + rest);
      SealedsBack(f, items[1..], rest);
      assert [items[0]] + items[1..] == items;
    }
  }

  lemma {:induction false} PathNodeBack(f: Formats, n: PathNode, rest: seq<byte>)
    requires PathNodeOk(f, n)
    ensures ReadPathNode(f, WritePathNode(n) + rest) == Ok((n, rest))
  {
    Widths();
    var (k, c, b) := (WriteKey(n.key), ToBe(|n.ciphertexts|, 4), WriteSealeds(n.ciphertexts));
    assert WritePathNode(n) + rest == k + (c + (b + rest));
    KeyBack(f, n.key, c + (b + rest));
    NumberBack(|n.ciphertexts|, 4, b + rest);
    SealedsBack(f, n.ciphertexts, rest);
  }

  /** Reading one node and then the others reads the whole path. */
  lemma {:induction false} ReadPathCons(f: Formats, first: PathNode, others: seq<PathNode>, s: seq<byte>,
      after: seq<byte>, rest: seq<byte>)
    requires ReadPathNode(f, s) == Ok((first, after)) && ReadPath(f, |others|, after) == Ok((others, rest))
    ensures ReadPath(f, |others| + 1, s) == Ok(([first] + others, rest))
  {
  }

  lemma {:induction false} PathBack(f: Formats, path: seq<PathNode>, rest: seq<byte>)
    requires AllNodesOk(f, path)
    ensures ReadPath(f, |path|, WritePath(path) + rest) == Ok((path, rest))
    decreases |path|
  {
    if path == [] {
      assert [] + rest == rest;
    } else {
      var (a, b) := (WritePathNode(path[0]), WritePath(path[1..]));
      assert WritePath(path) + rest == a + (b + rest);
      PathNodeBack(f, path[0], b + rest);
      PathBack(f, path[1..], rest);
      ReadPathCons(f, path[0], path[1..], a + (b + rest), b + rest, rest);
      assert [path[0]] + path[1..] == path;
    }
  }

  /** The signed section reads back under every context of the right length: no count guard ever fires on it. */
  lemma {:induction false} FieldsBack(f: Formats, context: seq<byte>, c: Commit)
    requires FieldsOk(f, c) && |context| == |CONTEXT|
    ensures ReadFields(f, SignedBytes(context, c), c.signature) == Ok(c)
  {
    Widths();
    var count, path := ToBe(|c.path|, 4), WritePath(c.path);
    var s5 := count + path;
    var s4 := WriteOp(c.op) + s5;
    var s3 := ToBe(c.sender, 4) + s4;
    var s2 := ToBe(c.fromEpoch, 8) + s3;
    TakeFixedOf(context, c.groupId + s2);
    TakeFixedOf(c.groupId, s2);
    NumberBack(c.fromEpoch, 8, s3);
    NumberBack(c.sender, 4, s4);
    OpBack(f, c.op, s5);
    NumberBack(|c.path|, 4, path);
    assert path + [] == path;
    PathBack(f, c.path, []);
  }

  /** Parsing inverts printing for every commit, whatever the context bytes are. */
  lemma {:induction false} EncodingBack(f: Formats, context: seq<byte>, c: Commit)
    requires CommitOk(f, c) && |context| == |CONTEXT|
    ensures FromBytes(f, Encoding(context, c)) == Ok(c)
  {
    var signed := SignedBytes(context, c);
    assert |signed| == |SignedBytes(CONTEXT, c)|;
    TakeVarOf(signed, WriteSignature(c.signature));
    assert WriteSignature(c.signature) + [] == WriteSignature(c.signature);
    SignatureBack(f, c.signature, []);
    FieldsBack(f, context, c);
  }

  /** `from_bytes` inverts `to_bytes`. */
  lemma {:induction false} RoundTrip(f: Formats, c: Commit)
    requires CommitOk(f, c)
    ensures FromBytes(f, ToBytes(c)) == Ok(c)
  {
    EncodingBack(f, CONTEXT, c);
  }

  /**
   What is signed determines every field: two commits with the same signed bytes differ at most in their
   signature.
   */
  lemma {:induction false} SignedBytesInjective(f: Formats, a: Commit, b: Commit)
    requires FieldsOk(f, a) && FieldsOk(f, b) && SignedBytes(CONTEXT, a) == SignedBytes(CONTEXT, b)
    ensures a == b.(signature := a.signature)
  {
    FieldsBack(f, CONTEXT, a);
    FieldsBack(f, CONTEXT, b.(signature := a.signature));
    assert SignedBytes(CONTEXT, b) == SignedBytes(CONTEXT, b.(signature := a.signature));
  }

  // ----- what reads is what was written -----

  lemma {:induction false} KeyInverse(f: Formats, s: seq<byte>)
    requires ReadKey(f, s).Ok?
    ensures var (k, rest) := ReadKey(f, s).value; KeyOk(f, k) && s == WriteKey(k) + rest
  {
    TakeFixedParts(s, 32);
    TakeVarInverse(s[32..]);
    var (k, rest) := ReadKey(f, s).value;
    assert s == k.dh + (VarField(k.kem) + rest);
  }

  lemma {:induction false} SignatureInverse(f: Formats, s: seq<byte>)
    requires ReadSignature(f, s).Ok?
    ensures var (g, rest) := ReadSignature(f, s).value; SignatureOk(f, g) && s == WriteSignature(g) + rest
  {
    var (ed, s1) := TakeFixed(s, 64).value;
    TakeVarInverse(s1);
    var (g, rest) := ReadSignature(f, s).value;
    assert s == g.ed25519 + (VarField(g.mlDsa) + rest);
  }

  lemma {:induction false} IdentityInverse(f: Formats, s: seq<byte>)
    requires ReadIdentity(f, s).Ok?
    ensures var (i, rest) := ReadIdentity(f, s).value; IdentityOk(f, i) && s == WriteIdentity(i) + rest
  {
    var (ed, s1) := TakeFixed(s, 32).value;
    TakeVarInverse(s1);
    var (i, rest) := ReadIdentity(f, s).value;
    assert s == i.ed25519 + (VarField(i.mlDsa) + rest);
  }

  lemma {:induction false} PackageInverse(f: Formats, s: seq<byte>)
    requires ReadPackage(f, s).Ok?
    ensures var (p, rest) := ReadPackage(f, s).value; PackageOk(f, p) && s == WritePackage(p) + rest
  {
    IdentityInverse(f, s);
    var (identity, s1) := ReadIdentity(f, s).value;
    KeyInverse(f, s1);
    var (key, s2) := ReadKey(f, s1).value;
    SignatureInverse(f, s2);
    var (p, rest) := ReadPackage(f, s).value;
    assert s == WriteIdentity(p.identity) + (WriteKey(p.key) + (WriteSignature(p.pop) + rest));
    Regroup(WriteIdentity(p.identity), WriteKey(p.key), WriteSignature(p.pop), rest);
  }

  lemma {:induction false} Regroup(a: seq<byte>, b: seq<byte>, c: seq<byte>, d: seq<byte>)
    ensures a + (b + (c + d)) == a + (b + c) + d
  {
  }

  lemma {:induction false} SealedInverse(f: Formats, s: seq<byte>)
    requires ReadSealed(f, s).Ok?
    ensures var (x, rest) := ReadSealed(f, s).value; SealedOk(f, x) && s == WriteSealed(x) + rest
  {
    var (ephemeral, s1) := TakeFixed(s, 32).value;
    TakeVarInverse(s1);
    var (kemCiphertext, s2) := TakeVar(s1).value;
    TakeVarInverse(s2);
    var (x, rest) := ReadSealed(f, s).value;
    assert s == x.ephemeral + (VarField(x.kemCiphertext) + (VarField(x.ciphertext) + rest));
    Regroup(x.ephemeral, VarField(x.kemCiphertext), VarField(x.ciphertext), rest);
  }

  /** A fixed-width number read off the front is exactly what writing it gives. */
  lemma {:induction false} NumberInverse(s: seq<byte>, k: nat)
    requires k <= |s|
    ensures var (b, rest) := TakeFixed(s, k).value; FromBe(b) < Pow256(k) && s == ToBe(FromBe(b), k) + rest
  {
    TakeFixedParts(s, k);
    var (b, _) := TakeFixed(s, k).value;
    ToFromBe(b);
    FromBeBound(b);
  }

  lemma {:induction false} OpInverse(f: Formats, s: seq<byte>)
    requires ReadOp(f, s).Ok?
    ensures var (op, rest) := ReadOp(f, s).value; OpOk(f, op) && s == WriteOp(op) + rest
  {
    Widths();
    var (tag, s1) := TakeFixed(s, 1).value;
    TakeFixedParts(s, 1);
    assert tag == [tag[0]];
    var (op, rest) := ReadOp(f, s).value;
    if tag[0] == 0 {
      NumberInverse(s1, 4);
      PackageInverse(f, TakeFixed(s1, 4).value.1);
      Regroup([0], ToBe(op.leaf, 4), WritePackage(op.package), rest);
    } else if tag[0] == 1 {
      NumberInverse(s1, 4);
      assert s == [1] + (ToBe(op.leaf, 4) + rest);
    }
  }

  lemma {:induction false} SealedsCons(first: SealedToNode, others: seq<SealedToNode>, rest: seq<byte>)
    ensures WriteSealeds([first] + others) + rest == WriteSealed(first) + (WriteSealeds(others) + rest)
  {
    assert ([first] + others)[1..] == others;
  }

  lemma {:induction false} PathCons(first: PathNode, others: seq<PathNode>, rest: seq<byte>)
    ensures WritePath([first] + others) + rest == WritePathNode(first) + (WritePath(others) + rest)
  {
    assert ([first] + others)[1..] == others;
  }

  /** The parse of `count` ciphertexts, unfolded only where a proof says so. */
  ghost predicate ParsesSealeds(f: Formats, count: nat, s: seq<byte>, items: seq<SealedToNode>, rest: seq<byte>) {
    forall u: nat {:trigger LookInto(u)} :: u == 0 ==> ReadSealeds(f, count, s) == Ok((items, rest))
  }

  predicate SealedsRead(f: Formats, count: nat, s: seq<byte>, items: seq<SealedToNode>, rest: seq<byte>) {
    |items| == count && AllSealedOk(f, items) && s == WriteSealeds(items) + rest
  }

  lemma {:induction false} SealedsInverse(f: Formats, count: nat, s: seq<byte>, items: seq<SealedToNode>,
      rest: seq<byte>)
    requires ParsesSealeds(f, count, s, items, rest)
    ensures SealedsRead(f, count, s, items, rest)
    decreases count
  {
    if count == 0 {
      assert LookInto(0);
      assert [] + s == s;
    } else {
      var first, others, s1 := SealedsParts(f, count, s, items, rest);
      SealedsInverse(f, count - 1, s1, others, rest);
      SealedsJoin(f, count, first, others, s1, rest, s);
    }
  }

  lemma {:induction false} SealedsParts(f: Formats, count: nat, s: seq<byte>, items: seq<SealedToNode>, rest: seq<byte>)
      returns (first: SealedToNode, others: seq<SealedToNode>, s1: seq<byte>)
    requires count > 0 && ParsesSealeds(f, count, s, items, rest)
    ensures SealedOk(f, first) && s == WriteSealed(first) + s1
    ensures ParsesSealeds(f, count - 1, s1, others, rest) && items == [first] + others
  {
    assert LookInto(0);
    SealedInverse(f, s);
    first, s1 := ReadSealed(f, s).value.0, ReadSealed(f, s).value.1;
    others := ReadSealeds(f, count - 1, s1).value.0;
  }

  lemma {:induction false} SealedsJoin(f: Formats, count: nat, first: SealedToNode, others: seq<SealedToNode>,
      s1: seq<byte>, rest: seq<byte>, s: seq<byte>)
    requires count > 0 && SealedOk(f, first) && SealedsRead(f, count - 1, s1, others, rest)
             && s == WriteSealed(first) + s1
    ensures SealedsRead(f, count, s, [first] + others, rest)
  {
    SealedsCons(first, others, rest);
  }

  lemma {:induction false} PathNodeInverse(f: Formats, s: seq<byte>)
    requires ReadPathNode(f, s).Ok?
    ensures var (n, rest) := ReadPathNode(f, s).value; PathNodeOk(f, n) && s == WritePathNode(n) + rest
  {
    Widths();
    KeyInverse(f, s);
    var (key, s1) := ReadKey(f, s).value;
    NumberInverse(s1, 4);
    var (count, s2) := TakeFixed(s1, 4).value;
    var (n, rest) := ReadPathNode(f, s).value;
    SealedsInverse(f, FromBe(count), s2, n.ciphertexts, rest);
    Regroup(WriteKey(n.key), ToBe(|n.ciphertexts|, 4), WriteSealeds(n.ciphertexts), rest);
  }

  ghost predicate ParsesPath(f: Formats, count: nat, s: seq<byte>, path: seq<PathNode>, rest: seq<byte>) {
    forall u: nat {:trigger LookInto(u)} :: u == 0 ==> ReadPath(f, count, s) == Ok((path, rest))
  }

  predicate PathReads(f: Formats, count: nat, s: seq<byte>, path: seq<PathNode>, rest: seq<byte>) {
    |path| == count && AllNodesOk(f, path) && s == WritePath(path) + rest
  }

  lemma {:induction false} PathInverse(f: Formats, count: nat, s: seq<byte>, path: seq<PathNode>, rest: seq<byte>)
    requires ParsesPath(f, count, s, path, rest)
    ensures PathReads(f, count, s, path, rest)
    decreases count
  {
    if count == 0 {
      assert LookInto(0);
      assert [] + s == s;
    } else {
      var first, others, s1 := PathParts(f, count, s, path, rest);
      PathInverse(f, count - 1, s1, others, rest);
      PathJoin(f, count, first, others, s1, rest, s);
    }
  }

  lemma {:induction false} PathParts(f: Formats, count: nat, s: seq<byte>, path: seq<PathNode>, rest: seq<byte>)
      returns (first: PathNode, others: seq<PathNode>, s1: seq<byte>)
    requires count > 0 && ParsesPath(f, count, s, path, rest)
    ensures PathNodeOk(f, first) && s == WritePathNode(first) + s1
    ensures ParsesPath(f, count - 1, s1, others, rest) && path == [first] + others
  {
    assert LookInto(0);
    PathNodeInverse(f, s);
    first, s1 := ReadPathNode(f, s).value.0, ReadPathNode(f, s).value.1;
    others := ReadPath(f, count - 1, s1).value.0;
  }

  lemma {:induction false} PathJoin(f: Formats, count: nat, first: PathNode, others: seq<PathNode>, s1: seq<byte>,
      rest: seq<byte>, s: seq<byte>)
    requires count > 0 && PathNodeOk(f, first) && PathReads(f, count - 1, s1, others, rest)
             && s == WritePathNode(first) + s1
    ensures PathReads(f, count, s, [first] + others, rest)
  {
    PathCons(first, others, rest);
  }

  lemma {:induction false} FieldsInverse(f: Formats, signed: seq<byte>, signature: Signature)
    requires ReadFields(f, signed, signature).Ok?
    ensures var c := ReadFields(f, signed, signature).value;
            && |signed| >= |CONTEXT| && FieldsOk(f, c) && c.signature == signature
            && signed == SignedBytes(signed[..|CONTEXT|], c)
  {
    Widths();
    TakeFixedParts(signed, |CONTEXT|);
    var s1 := signed[|CONTEXT|..];
    TakeFixedParts(s1, 16);
    var s2 := s1[16..];
    NumberInverse(s2, 8);
    NumberInverse(s2[8..], 4);
    var s4 := s2[8..][4..];
    OpInverse(f, s4);
    var (op, s5) := ReadOp(f, s4).value;
    NumberInverse(s5, 4);
    var (count, s6) := TakeFixed(s5, 4).value;
    var (path, s7) := ReadPath(f, FromBe(count), s6).value;
    PathInverse(f, FromBe(count), s6, path, s7);
    assert s6 == WritePath(path) + [] == WritePath(path);
  }

  /**
   Exactly the encodings of well-formed commits parse, each to its commit, with any bytes at all in place of
   the context.
   */
  lemma {:induction false} AcceptedExactly(f: Formats, s: seq<byte>, c: Commit)
    ensures FromBytes(f, s) == Ok(c) <==>
            CommitOk(f, c) && exists context: seq<byte> :: |context| == |CONTEXT| && s == Encoding(context, c)
  {
    if FromBytes(f, s) == Ok(c) {
      TakeVarInverse(s);
      var (signed, s1) := TakeVar(s).value;
      SignatureInverse(f, s1);
      var (signature, rest) := ReadSignature(f, s1).value;
      FieldsInverse(f, signed, signature);
      assert |signed| == |SignedBytes(CONTEXT, c)|;
      assert WriteSignature(signature) + [] == WriteSignature(signature);
      assert s == Encoding(signed[..|CONTEXT|], c);
    }
    if CommitOk(f, c) {
      forall context: seq<byte> | |context| == |CONTEXT| && s == Encoding(context, c) ensures FromBytes(f, s) == Ok(c) {
        EncodingBack(f, context, c);
      }
    }
  }

  lemma {:induction false} EncodingParts(context: seq<byte>, c: Commit)
    requires |context| == |CONTEXT|
    ensures |Encoding(context, c)| == |ToBytes(c)| >= VAR_LEN_PREFIX + |CONTEXT|
    ensures Encoding(context, c)[..VAR_LEN_PREFIX] == ToBytes(c)[..VAR_LEN_PREFIX]
    ensures Encoding(context, c)[VAR_LEN_PREFIX..VAR_LEN_PREFIX + |CONTEXT|] == context
    ensures Encoding(context, c)[VAR_LEN_PREFIX + |CONTEXT|..] == ToBytes(c)[VAR_LEN_PREFIX + |CONTEXT|..]
  {
    Split(context, c);
    Split(CONTEXT, c);
  }

  lemma {:induction false} Split(context: seq<byte>, c: Commit)
    requires |context| == |CONTEXT|
    ensures var e, size := Encoding(context, c), |SignedBytes(CONTEXT, c)|;
            var tail := SignedBytes(CONTEXT, c)[|CONTEXT|..] + WriteSignature(c.signature);
            e == ToBe(size, VAR_LEN_PREFIX) + (context + tail)
  {
    assert SignedBytes(context, c) == context + SignedBytes(CONTEXT, c)[|CONTEXT|..];
    Regroup(ToBe(|SignedBytes(CONTEXT, c)|, VAR_LEN_PREFIX), context, SignedBytes(CONTEXT, c)[|CONTEXT|..],
        WriteSignature(c.signature));
  }

  /**
   An accepted byte string equals the re-encoding of what it parses to everywhere but in the context bytes,
   which parsing skips.
   */
  lemma {:induction false} ReencodingDiffersOnlyInContext(f: Formats, s: seq<byte>)
    requires FromBytes(f, s).Ok?
    ensures var again := ToBytes(FromBytes(f, s).value);
            var start, end := VAR_LEN_PREFIX, VAR_LEN_PREFIX + |CONTEXT|;
            && |s| == |again| >= end && s[..start] == again[..start] && s[end..] == again[end..]
            && (s == again <==> s[start..end] == CONTEXT)
  {
    var c := FromBytes(f, s).value;
    AcceptedExactly(f, s, c);
    var context: seq<byte> :| |context| == |CONTEXT| && s == Encoding(context, c);
    EncodingParts(context, c);
    EncodingParts(CONTEXT, c);
    if context == CONTEXT {
      assert s == ToBytes(c);
    }
  }

  /**
   So a commit does not have one encoding only: changing a context byte gives different bytes that parse to
   the same commit.
   */
  lemma {:induction false} SecondEncoding(f: Formats, c: Commit) returns (s: seq<byte>)
    requires CommitOk(f, c)
    ensures s != ToBytes(c) && FromBytes(f, s) == Ok(c)
  {
    var context := CONTEXT[0 := 0];
    s := Encoding(context, c);
    EncodingBack(f, context, c);
    EncodingParts(context, c);
    EncodingParts(CONTEXT, c);
    assert context[0] != CONTEXT[0];
  }
}
