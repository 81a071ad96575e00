/** The loops that write and read a commit's update path through a writer and a reader (crates/core/src/group.rs). */
module CommitIo {
  import opened Wrappers
  import opened Bytes
  import opened Wire
  import opened CommitCodec

  /** A read through `r` did what the parse of its unread bytes says. */
  ghost predicate Did<T(!new)>(parsed: Parsed<T>, result: Result<T, Failure>, rest: seq<byte>) {
    if parsed.Ok? then result == Ok(parsed.value.0) && rest == parsed.value.1 else result == Err(parsed.error)
  }

  method WriteKeyTo(w: Writer, k: NodeKey)
    modifies w
    ensures w.bytes == old(w.bytes) + WriteKey(k)
  {
    w.PutFixed(k.dh);
    w.PutVar(k.kem);
    assert old(w.bytes) + k.dh + VarField(k.kem) == old(w.bytes) + WriteKey(k);
  }

  method WriteSealedTo(w: Writer, s: SealedToNode)
    modifies w
    ensures w.bytes == old(w.bytes) + WriteSealed(s)
  {
    w.PutFixed(s.ephemeral);
    w.PutVar(s.kemCiphertext);
    w.PutVar(s.ciphertext);
    assert old(w.bytes) + s.ephemeral + VarField(s.kemCiphertext) + VarField(s.ciphertext)
        == old(w.bytes) + WriteSealed(s);
  }

  method WritePathNodeTo(w: Writer, n: PathNode)
    modifies w
    ensures w.bytes == old(w.bytes) + WritePathNode(n)
  {
    WriteKeyTo(w, n.key);
    w.PutFixed(ToBe(|n.ciphertexts|, 4));
    ghost var start := w.bytes;
    assert n.ciphertexts[0..] == n.ciphertexts;
    for k := 0 to |n.ciphertexts|
      invariant w.bytes + WriteSealeds(n.ciphertexts[k..]) == start + WriteSealeds(n.ciphertexts)
    {
      assert n.ciphertexts[k..][1..] == n.ciphertexts[k + 1..];
      ghost var before := w.bytes;
      WriteSealedTo(w, n.ciphertexts[k]);
      Shift(before, WriteSealed(n.ciphertexts[k]), WriteSealeds(n.ciphertexts[k + 1..]));
    }
    assert w.bytes + [] == w.bytes;
    Shift(old(w.bytes), WriteKey(n.key), ToBe(|n.ciphertexts|, 4));
    Shift(old(w.bytes), WriteKey(n.key) + ToBe(|n.ciphertexts|, 4), WriteSealeds(n.ciphertexts));
    Shift(WriteKey(n.key), ToBe(|n.ciphertexts|, 4), WriteSealeds(n.ciphertexts));
  }

  lemma {:induction false} Shift(a: seq<byte>, b: seq<byte>, c: seq<byte>)
    ensures a + b + c == a + (b + c)
  {
  }

  method WritePathTo(w: Writer, path: seq<PathNode>)
    modifies w
    ensures w.bytes == old(w.bytes) + WritePath(path)
  {
    assert path[0..] == path;
    for k := 0 to |path|
      invariant w.bytes + WritePath(path[k..]) == old(w.bytes) + WritePath(path)
    {
      assert path[k..][1..] == path[k + 1..];
      ghost var before := w.bytes;
      WritePathNodeTo(w, path[k]);
      Shift(before, WritePathNode(path[k]), WritePath(path[k + 1..]));
    }
    assert w.bytes + [] == w.bytes;
  }

  method ReadKeyFrom(f: Formats, r: Reader) returns (result: Result<NodeKey, Failure>)
    requires r.Valid()
    modifies r
    ensures r.Valid() && Did(ReadKey(f, old(r.Rest())), result, r.Rest())
  {
    var dh :- r.GetFixed(32);
    if !f.accepts(DhKey, dh) {
      return Err(BadKey);
    }
    var kem :- r.GetVar();
    if !f.accepts(KemKey, kem) {
      return Err(BadKey);
    }
    return Ok(NodeKey(dh, kem));
  }

  method ReadSealedFrom(f: Formats, r: Reader) returns (result: Result<SealedToNode, Failure>)
    requires r.Valid()
    modifies r
    ensures r.Valid() && Did(ReadSealed(f, old(r.Rest())), result, r.Rest())
  {
    var ephemeral :- r.GetFixed(32);
    if !f.accepts(DhKey, ephemeral) {
      return Err(BadKey);
    }
    var kemCiphertext :- r.GetVar();
    if !f.accepts(KemText, kemCiphertext) {
      return Err(BadKey);
    }
    var ciphertext :- r.GetVar();
    return Ok(SealedToNode(ephemeral, kemCiphertext, ciphertext));
  }

  lemma {:induction false} PrefixedByNone<T>(parsed: Parsed<seq<T>>)
    ensures Prefixed([], parsed) == parsed
  {
    assert parsed.Ok? ==> [] + parsed.value.0 == parsed.value.0;
  }

  /** A failed item fails the whole parse. */
  lemma {:induction false} SealedsFail(f: Formats, count: nat, s: seq<byte>, done: seq<SealedToNode>)
    requires count > 0 && ReadSealed(f, s).Err?
    ensures Prefixed(done, ReadSealeds(f, count, s)) == Err(ReadSealed(f, s).error)
  {
  }

  /** The parse of what remains, once the next item has been read. */
  lemma {:induction false} SealedsGo(f: Formats, count: nat, s: seq<byte>, done: seq<SealedToNode>,
      first: SealedToNode, rest: seq<byte>)
    requires count > 0 && ReadSealed(f, s) == Ok((first, rest))
    ensures Prefixed(done, ReadSealeds(f, count, s)) == Prefixed(done + [first], ReadSealeds(f, count - 1, rest))
  {
    var others := ReadSealeds(f, count - 1, rest);
    if others.Ok? {
      assert done + ([first] + others.value.0) == done + [first] + others.value.0;
    }
  }

  lemma {:induction false} SealedsDone(f: Formats, s: seq<byte>, done: seq<SealedToNode>)
    ensures Prefixed(done, ReadSealeds(f, 0, s)) == Ok((done, s))
  {
    assert done + [] == done;
  }

  function Prefixed<T>(done: seq<T>, parsed: Parsed<seq<T>>): Parsed<seq<T>> {
    match parsed
    case Ok((items, rest)) => Ok((done + items, rest))
    case Err(e) => Err(e)
  }

  method ReadCiphertexts(f: Formats, r: Reader, count: nat) returns (result: Result<seq<SealedToNode>, Failure>)
    requires r.Valid()
    modifies r
    ensures r.Valid() && Did(ReadSealeds(f, count, old(r.Rest())), result, r.Rest())
  {
    var items: seq<SealedToNode> := [];
    ghost var total := ReadSealeds(f, count, r.Rest());
    PrefixedByNone(total);
    ghost var left: nat := count;
    for k := 0 to count
      invariant r.Valid() && left == count - k && total == Prefixed(items, ReadSealeds(f, left, r.Rest()))
    {
      ghost var s := r.Rest();
      if ReadSealed(f, s).Err? { SealedsFail(f, left, s, items); }
      var item :- ReadSealedFrom(f, r);
      SealedsGo(f, left, s, items, item, r.Rest());
      items, left := items + [item], left - 1;
    }
    SealedsDone(f, r.Rest(), items);
    return Ok(items);
  }

  /** A path node: its key, a guarded count, then that many ciphertexts. */
  method ReadPathNodeFrom(f: Formats, r: Reader) returns (result: Result<PathNode, Failure>)
    requires r.Valid()
    modifies r
    ensures r.Valid() && Did(ReadPathNode(f, old(r.Rest())), result, r.Rest())
  {
    var key :- ReadKeyFrom(f, r);
    var count :- r.GetFixed(4);
    var left := r.Remaining();
    if FromBe(count) > left {
      return Err(CountTooLarge);
    }
    var ciphertexts :- ReadCiphertexts(f, r, FromBe(count));
    return Ok(PathNode(key, ciphertexts));
  }
}
