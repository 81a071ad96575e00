/** The byte writer and reader every message goes through (crates/core/src/wire.rs). */
module Wire {
  import opened Wrappers
  import opened Bytes

  const VAR_LEN_PREFIX: nat := 8

  datatype Failure = UnexpectedEnd | BadKey | UnknownTag | CountTooLarge | TrailingBytes | BadPossession

  // ----- fields as functions on byte strings -----

  /** A variable field: its length in eight bytes, then its bytes. */
  function VarField(b: seq<byte>): seq<byte> {
    ToBe(|b|, VAR_LEN_PREFIX) + b
  }

  /** A fixed field off the front, and what is left. */
  function TakeFixed(s: seq<byte>, n: nat): (r: Result<(seq<byte>, seq<byte>), Failure>)
    ensures r.Ok? <==> n <= |s|
    ensures r.Ok? ==> |r.value.0| == n
  {
    if |s| < n then Err(UnexpectedEnd) else Ok((s[..n], s[n..]))
  }

  function TakeVar(s: seq<byte>): Result<(seq<byte>, seq<byte>), Failure> {
    var (prefix, rest) :- TakeFixed(s, VAR_LEN_PREFIX);
    TakeFixed(rest, FromBe(prefix))
  }

  lemma {:induction false} TakeFixedParts(s: seq<byte>, n: nat)
    requires n <= |s|
    ensures var (a, rest) := TakeFixed(s, n).value; s == a + rest
  {
  }

  lemma {:induction false} TakeFixedOf(a: seq<byte>, rest: seq<byte>)
    ensures TakeFixed(a + rest, |a|) == Ok((a, rest))
  {
    assert (a + rest)[..|a|] == a && (a + rest)[|a|..] == rest;
  }

  /** A written variable field reads back, with whatever follows it left over. */
  lemma {:induction false} TakeVarOf(b: seq<byte>, rest: seq<byte>)
    requires |b| < U64
    ensures TakeVar(VarField(b) + rest) == Ok((b, rest))
  {
    Widths();
    FromToBe(|b|, VAR_LEN_PREFIX);
    assert VarField(b) + rest == ToBe(|b|, VAR_LEN_PREFIX) + (b + rest);
    TakeFixedOf(ToBe(|b|, VAR_LEN_PREFIX), b + rest);
    TakeFixedOf(b, rest);
  }

  /** A variable field that reads is exactly what writing its contents gives. */
  lemma {:induction false} TakeVarInverse(s: seq<byte>)
    requires TakeVar(s).Ok?
    ensures var (b, rest) := TakeVar(s).value; s == VarField(b) + rest && |b| < U64
  {
    Widths();
    var (prefix, after) := TakeFixed(s, VAR_LEN_PREFIX).value;
    ToFromBe(prefix);
    FromBeBound(prefix);
    TakeFixedParts(s, VAR_LEN_PREFIX);
    TakeFixedParts(after, FromBe(prefix));
    var (b, rest) := TakeVar(s).value;
    assert prefix + (b + rest) == prefix + b + rest;
  }

  // ----- the writer and the reader as objects -----

  class Writer {
    var bytes: seq<byte>

    constructor ()
      ensures bytes == []
    {
      bytes := [];
    }

    method PutFixed(b: seq<byte>)
      modifies this
      ensures bytes == old(bytes) + b
    {
      bytes := bytes + b;
    }

    method PutVar(b: seq<byte>)
      modifies this
      ensures bytes == old(bytes) + VarField(b)
    {
      bytes := bytes + ToBe(|b|, VAR_LEN_PREFIX);
      bytes := bytes + b;
      assert old(bytes) + ToBe(|b|, VAR_LEN_PREFIX) + b == old(bytes) + (ToBe(|b|, VAR_LEN_PREFIX) + b);
    }
  }

  class Reader {
    const buf: seq<byte>
    var pos: nat

    predicate Valid()
      reads this
    {
      pos <= |buf|
    }

    /** What is still unread. */
    function Rest(): seq<byte>
      reads this
      requires Valid()
    {
      buf[pos..]
    }

    constructor (buf: seq<byte>)
      ensures Valid() && this.buf == buf && Rest() == buf
    {
      this.buf := buf;
      pos := 0;
    }

    /** A fixed field; a failed read consumes nothing. */
    method GetFixed(n: nat) returns (r: Result<seq<byte>, Failure>)
      requires Valid()
      modifies this
      ensures Valid()
      ensures var t := TakeFixed(old(Rest()), n);
              if t.Ok? then r == Ok(t.value.0) && Rest() == t.value.1 else r == Err(t.error) && Rest() == old(Rest())
    {
      if |buf| - pos < n {
        return Err(UnexpectedEnd);
      }
      assert buf[pos..][..n] == buf[pos..pos + n] && buf[pos..][n..] == buf[pos + n..];
      r := Ok(buf[pos..pos + n]);
      pos := pos + n;
    }

    /** A variable field; when its prefix reads but its body does not, the prefix stays consumed. */
    method GetVar() returns (r: Result<seq<byte>, Failure>)
      requires Valid()
      modifies this
      ensures Valid()
      ensures var t := TakeVar(old(Rest()));
              if t.Ok? then r == Ok(t.value.0) && Rest() == t.value.1
              else r == Err(t.error)
                   && Rest() == old(Rest())[if |old(Rest())| < VAR_LEN_PREFIX then 0 else VAR_LEN_PREFIX..]
    {
      var prefix := GetFixed(VAR_LEN_PREFIX);
      if prefix.Err? {
        return prefix;
      }
      r := GetFixed(FromBe(prefix.value));
    }

    method Remaining() returns (n: nat)
      requires Valid()
      ensures n == |Rest()|
    {
      n := |buf| - pos;
    }

    method Finished() returns (done: bool)
      requires Valid()
      ensures done <==> Rest() == []
    {
      done := pos == |buf|;
    }
  }
}
