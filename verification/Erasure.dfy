/**
 Splitting a payload into shards, rebuilding it, and filing chunks as they arrive
 (crates/core/src/erasure.rs and crates/core/src/ratchet.rs). The erasure code
 itself is a parameter with the law that any `data` shards restore the rest.
 */
module Erasure {
  import opened Wrappers
  import opened Bytes
  import opened Sequences

  type Shard = seq<byte>

  datatype Failure =
    | InvalidCounts | WrongNumber | TooFew | InconsistentLength | OddLength | ReconstructionFailed
    | IndexOutOfRange | ParameterMismatch | ShorterThanDeclared | ChecksumMismatch

  predicate CountsOk(data: nat, parity: nat) {
    data > 0 && parity > 0 && data + parity <= 255
  }

  predicate UniformLength(shards: seq<Shard>, length: nat) {
    forall k :: 0 <= k < |shards| ==> |shards[k]| == length
  }

  /** Some of the entries of a list. */
  predicate PartOf(m: map<nat, Shard>, s: seq<Shard>) {
    forall i :: i in m ==> i < |s| && m[i] == s[i]
  }

  /** The library: parity shards for data shards, and the missing data shards from what is left. */
  datatype Code =
    Code(parity: (nat, nat, seq<Shard>) -> seq<Shard>,
        restore: (nat, nat, map<nat, Shard>, map<nat, Shard>) -> Option<map<nat, Shard>>)
  {
    ghost predicate AnyKOfN() {
      && (forall d, p, length, data {:trigger parity(d, p, data), UniformLength(data, length)} ::
            CountsOk(d, p) && |data| == d && UniformLength(data, length) && length % 2 == 0
            ==> |parity(d, p, data)| == p && UniformLength(parity(d, p, data), length))
      && (forall d, p, length, data, have,
              spare {:trigger restore(d, p, have, spare), parity(d, p, data), UniformLength(data, length)} ::
            CountsOk(d, p) && |data| == d && UniformLength(data, length) && length % 2 == 0
            && PartOf(have, data) && PartOf(spare, parity(d, p, data)) && |have| + |spare| >= d
            ==> restore(d, p, have, spare).Some? &&
                forall i :: 0 <= i < d && i !in have ==>
                  i in restore(d, p, have, spare).value && restore(d, p, have, spare).value[i] == data[i])
    }
  }

  // ----- splitting -----

  /** `n` times a length, as a sum. */
  function Times(n: nat, length: nat): nat {
    if n == 0 then 0 else Times(n - 1, length) + length
  }

  lemma {:induction false} TimesIs(n: nat, length: nat)
    ensures Times(n, length) == n * length
    decreases n
  {
    if n > 0 {
      TimesIs(n - 1, length);
      assert n * length == (n - 1) * length + length;
    }
  }

  lemma {:induction false} TimesMonotone(n: nat, m: nat, length: nat)
    requires n <= m
    ensures Times(n, length) <= Times(m, length)
    decreases m
  {
    if n < m {
      TimesMonotone(n, m - 1, length);
    }
  }

  lemma {:induction false} TimesGrows(n: nat, length: nat, more: nat)
    requires length <= more
    ensures Times(n, length) <= Times(n, more)
    decreases n
  {
    if n > 0 {
      TimesGrows(n - 1, length, more);
    }
  }

  /** The common shard length: enough for the payload, at least one byte, and even. */
  function ShardLength(size: nat, data: nat): (length: nat)
    requires data > 0
    ensures length % 2 == 0 && length > 0
  {
    var least := (size + data - 1) / data;
    var length := if least == 0 then 1 else least;
    if length % 2 == 0 then length else length + 1
  }

  lemma {:induction false} ShardsHold(size: nat, data: nat)
    requires data > 0
    ensures Times(data, ShardLength(size, data)) >= size
  {
    var least := (size + data - 1) / data;
    TimesIs(data, least);
    assert size + data - 1 == data * least + (size + data - 1) % data;
    TimesGrows(data, least, ShardLength(size, data));
  }

  function Padded(payload: seq<byte>, size: nat): (r: seq<byte>)
    requires |payload| <= size
    ensures |r| == size
  {
    payload + Zeros(size - |payload|)
  }

  /** Consecutive stretches of one length. */
  function Pieces(bytes: seq<byte>, data: nat, length: nat): (r: seq<Shard>)
    requires |bytes| == Times(data, length)
    ensures |r| == data && UniformLength(r, length)
    decreases data
  {
    if data == 0 then []
    else
      var cut := Times(data - 1, length);
      Pieces(bytes[..cut], data - 1, length) + [bytes[cut..]]
  }

  /** The pieces put together are the bytes. */
  lemma {:induction false} PiecesJoin(bytes: seq<byte>, data: nat, length: nat)
    requires |bytes| == Times(data, length)
    ensures Flatten(Pieces(bytes, data, length)) == bytes
    decreases data
  {
    if data > 0 {
      var cut := Times(data - 1, length);
      PiecesJoin(bytes[..cut], data - 1, length);
      assert Pieces(bytes, data, length)[..data - 1] == Pieces(bytes[..cut], data - 1, length);
    }
  }

  /** The payload padded to a whole number of shards. */
  function Whole(payload: seq<byte>, data: nat): (r: seq<byte>)
    requires data > 0
    ensures |r| == Times(data, ShardLength(|payload|, data)) && |payload| <= |r| && r[..|payload|] == payload
  {
    ShardsHold(|payload|, data);
    Padded(payload, Times(data, ShardLength(|payload|, data)))
  }

  function DataShards(payload: seq<byte>, data: nat): (r: seq<Shard>)
    requires data > 0
    ensures |r| == data && UniformLength(r, ShardLength(|payload|, data))
  {
    Pieces(Whole(payload, data), data, ShardLength(|payload|, data))
  }

  /** All shards of a payload: the data shards in order, then the parity shards. */
  function Encoded(code: Code, payload: seq<byte>, data: nat, parity: nat): seq<Shard>
    requires data > 0
  {
    DataShards(payload, data) + code.parity(data, parity, DataShards(payload, data))
  }

  /** Cuts the payload shard by shard, padding each, and adds the parity shards. */
  method Encode(code: Code, payload: seq<byte>, data: nat, parity: nat) returns (r: Result<(seq<Shard>, nat), Failure>)
    ensures r == if !CountsOk(data, parity) then Err(InvalidCounts)
                 else Ok((Encoded(code, payload, data, parity), ShardLength(|payload|, data)))
  {
    if !CountsOk(data, parity) {
      return Err(InvalidCounts);
    }
    var length := ShardLength(|payload|, data);
    ghost var whole := Whole(payload, data);
    var shards: seq<Shard> := [];
    var start := 0;
    for i := 0 to data
      invariant start == Times(i, length) <= |whole|
      invariant shards == Pieces(whole[..start], i, length)
    {
      TimesMonotone(i + 1, data, length);
      var shard := CutShard(payload, start, length, whole);
      PiecesNext(whole, i, length, shard);
      shards := shards + [shard];
      start := start + length;
    }
    assert whole[..start] == whole;
    return Ok((shards + code.parity(data, parity, shards), length));
  }

  lemma {:induction false} PiecesNext(whole: seq<byte>, i: nat, length: nat, shard: Shard)
    requires Times(i + 1, length) <= |whole| && shard == whole[Times(i, length)..Times(i, length) + length]
    ensures Pieces(whole[..Times(i + 1, length)], i + 1, length)
            == Pieces(whole[..Times(i, length)], i, length) + [shard]
  {
    assert whole[..Times(i + 1, length)][..Times(i, length)] == whole[..Times(i, length)];
  }

  /** One shard: the payload's bytes from `start`, then zeros. */
  method CutShard(payload: seq<byte>, start: nat, length: nat, ghost whole: seq<byte>) returns (shard: Shard)
    requires |payload| <= |whole| && whole == Padded(payload, |whole|) && start + length <= |whole|
    ensures shard == whole[start..start + length]
  {
    shard := Zeros(length);
    if start < |payload| {
      var end := if start + length < |payload| then start + length else |payload|;
      shard := payload[start..end] + Zeros(length - (end - start));
    }
  }

  // ----- rebuilding -----

  /** How many shards are there. */
  function Present(shards: seq<Option<Shard>>): nat {
    if shards == [] then 0
    else Present(shards[..|shards| - 1]) + if shards[|shards| - 1].Some? then 1 else 0
  }

  function Held(shards: seq<Option<Shard>>): map<nat, Shard> {
    map i: nat | i < |shards| && shards[i].Some? :: shards[i].value
  }

  lemma {:induction false} HeldSize(shards: seq<Option<Shard>>)
    ensures |Held(shards)| == Present(shards)
    decreases |shards|
  {
    if shards != [] {
      var n := |shards| - 1;
      HeldSize(shards[..n]);
      assert forall i: nat :: i < n ==> shards[..n][i] == shards[i];
      if shards[n].Some? {
        assert Held(shards) == Held(shards[..n])[n := shards[n].value];
      } else {
        assert Held(shards) == Held(shards[..n]);
      }
    }
  }

  lemma {:induction false} PresentSplit(shards: seq<Option<Shard>>, k: nat)
    requires k <= |shards|
    ensures Present(shards) == Present(shards[..k]) + Present(shards[k..])
    decreases |shards|
  {
    if k == |shards| {
      assert shards[..k] == shards && shards[k..] == [];
    } else {
      var n := |shards| - 1;
      PresentSplit(shards[..n], k);
      assert shards[..n][..k] == shards[..k] && shards[..n][k..] == shards[k..][..n - k]
          && shards[k..][n - k] == shards[n];
    }
  }

  predicate SameLength(shards: seq<Option<Shard>>, length: nat) {
    forall i :: 0 <= i < |shards| && shards[i].Some? ==> |shards[i].value| == length
  }

  /** The length of the first shard present. */
  function FirstLength(shards: seq<Option<Shard>>): (n: nat)
    ensures (exists length :: SameLength(shards, length)) ==> SameLength(shards, n)
    decreases |shards|
  {
    if shards == [] then 0
    else if shards[0].Some? then |shards[0].value|
    else
      var n := FirstLength(shards[1..]);
      assert forall length :: SameLength(shards, length) <==> SameLength(shards[1..], length) by {
        assert forall i :: 0 < i < |shards| ==> shards[i] == shards[1..][i - 1];
      }
      n
  }

  predicate AllPresent(shards: seq<Option<Shard>>) {
    forall i :: 0 <= i < |shards| ==> shards[i].Some?
  }

  /** The data shards, the missing ones taken from what was restored. */
  function Filled(shards: seq<Option<Shard>>, restored: map<nat, Shard>): (r: seq<Shard>)
    requires forall i :: 0 <= i < |shards| && shards[i].None? ==> i in restored
    ensures |r| == |shards|
    ensures forall i :: 0 <= i < |shards| ==> r[i] == if shards[i].Some? then shards[i].value else restored[i]
  {
    seq(|shards|, i requires 0 <= i < |shards| => if shards[i].Some? then shards[i].value else restored[i])
  }

  function Decoded(code: Code, shards: seq<Option<Shard>>, data: nat, parity: nat): Result<seq<byte>, Failure> {
    if !CountsOk(data, parity) then Err(InvalidCounts)
    else if |shards| != data + parity then Err(WrongNumber)
    else if Present(shards) < data then Err(TooFew)
    else if !SameLength(shards, FirstLength(shards)) then Err(InconsistentLength)
    else if FirstLength(shards) % 2 != 0 then Err(OddLength)
    else if AllPresent(shards[..data]) then Ok(Flatten(Filled(shards[..data], map[])))
    else
      match code.restore(data, parity, Held(shards[..data]), Held(shards[data..]))
      case None => Err(ReconstructionFailed)
      case Some(m) =>
        if forall i :: 0 <= i < data && shards[i].None? ==> i in m then Ok(Flatten(Filled(shards[..data], m)))
        else Err(ReconstructionFailed)
  }

  /** Some shards of an encoding, the others lost. */
  predicate SomeOf(shards: seq<Option<Shard>>, all: seq<Shard>) {
    |shards| == |all| && forall i :: 0 <= i < |all| && shards[i].Some? ==> shards[i].value == all[i]
  }

  /** Any `data` shards of an encoding rebuild the padded payload, whichever they are. */
  lemma {:induction false} DecodesEncoded(code: Code, payload: seq<byte>, data: nat, parity: nat,
      shards: seq<Option<Shard>>)
    requires code.AnyKOfN() && CountsOk(data, parity) && SomeOf(shards, Encoded(code, payload, data, parity))
             && Present(shards) >= data
    ensures Decoded(code, shards, data, parity) == Ok(Whole(payload, data))
  {
    var pieces := DataShards(payload, data);
    Restores(code, pieces, code.parity(data, parity, pieces), ShardLength(|payload|, data), data, parity, shards);
    PiecesJoin(Whole(payload, data), data, ShardLength(|payload|, data));
  }

  lemma {:induction false} Restores(
      code: Code, pieces: seq<Shard>, spare: seq<Shard>, length: nat, data: nat, parity: nat,
          shards: seq<Option<Shard>>)
    requires code.AnyKOfN() && CountsOk(data, parity) && |pieces| == data && UniformLength(pieces, length)
             && length % 2 == 0
    requires spare == code.parity(data, parity, pieces) && SomeOf(shards, pieces + spare) && Present(shards) >= data
    ensures |spare| == parity && Decoded(code, shards, data, parity) == Ok(Flatten(pieces))
  {
    assert |spare| == parity && UniformLength(spare, length);
    assert SameLength(shards, length);
    LengthsAgree(shards, length, data);
    if AllPresent(shards[..data]) {
      assert Filled(shards[..data], map[]) == pieces;
    } else {
      RestoredPieces(code, pieces, spare, length, data, parity, shards);
      var m := code.restore(data, parity, Held(shards[..data]), Held(shards[data..])).value;
      assert Filled(shards[..data], m) == pieces;
    }
  }

  lemma {:induction false} RestoredPieces(
      code: Code, pieces: seq<Shard>, spare: seq<Shard>, length: nat, data: nat, parity: nat,
          shards: seq<Option<Shard>>)
    requires code.AnyKOfN() && CountsOk(data, parity) && |pieces| == data && UniformLength(pieces, length)
             && length % 2 == 0
    requires spare == code.parity(data, parity, pieces) && |spare| == parity && SomeOf(shards, pieces + spare)
             && Present(shards) >= data
    ensures var r := code.restore(data, parity, Held(shards[..data]), Held(shards[data..]));
            r.Some? && forall i :: 0 <= i < data && shards[i].None? ==> i in r.value && r.value[i] == pieces[i]
  {
    var have, backup := Held(shards[..data]), Held(shards[data..]);
    HeldSize(shards[..data]);
    HeldSize(shards[data..]);
    PresentSplit(shards, data);
    assert PartOf(have, pieces) && PartOf(backup, spare);
  }

  lemma {:induction false} LengthsAgree(shards: seq<Option<Shard>>, length: nat, data: nat)
    requires SameLength(shards, length) && Present(shards) >= data > 0
    ensures SameLength(shards, FirstLength(shards)) && FirstLength(shards) == length
  {
    if forall i :: 0 <= i < |shards| ==> shards[i].None? {
      NonePresent(shards);
    } else {
      var i :| 0 <= i < |shards| && shards[i].Some?;
    }
  }

  lemma {:induction false} NonePresent(shards: seq<Option<Shard>>)
    requires forall i :: 0 <= i < |shards| ==> shards[i].None?
    ensures Present(shards) == 0
    decreases |shards|
  {
    if shards != [] {
      NonePresent(shards[..|shards| - 1]);
    }
  }

  method CountPresent(shards: seq<Option<Shard>>) returns (present: nat)
    ensures present == Present(shards)
  {
    present := 0;
    for i := 0 to |shards|
      invariant present == Present(shards[..i])
    {
      assert shards[..i + 1][..i] == shards[..i];
      if shards[i].Some? {
        present := present + 1;
      }
    }
    assert shards[..|shards|] == shards;
  }

  /** The length the shards present share, if any is present; an error when they differ. */
  method CommonLength(shards: seq<Option<Shard>>) returns (r: Result<Option<nat>, Failure>)
    ensures r.Err? ==> r.error == InconsistentLength && forall n :: !SameLength(shards, n)
    ensures r.Ok? && r.value.Some? ==> SameLength(shards, r.value.value)
    ensures r.Ok? && r.value.None? ==> forall j :: 0 <= j < |shards| ==> shards[j].None?
  {
    var length: Option<nat> := None;
    for i := 0 to |shards|
      invariant length.None? ==> forall j :: 0 <= j < i ==> shards[j].None?
      invariant length.Some? ==> SameLength(shards[..i], length.value) && exists j :: 0 <= j < i && shards[j].Some?
                                                                              && |shards[j].value| == length.value
    {
      if shards[i].Some? {
        if length.None? {
          length := Some(|shards[i].value|);
        } else if length.value != |shards[i].value| {
          Differ(shards, i, length.value);
          return Err(InconsistentLength);
        }
      }
    }
    assert shards[..|shards|] == shards;
    return Ok(length);
  }

  /** Joins the data shards, a missing one taken from what was restored. */
  method CopyData(shards: seq<Option<Shard>>, restored: map<nat, Shard>, data: nat) returns (out: seq<byte>)
    requires data <= |shards| && forall i :: 0 <= i < data && shards[i].None? ==> i in restored
    ensures out == Flatten(Filled(shards[..data], restored))
  {
    ghost var filled := Filled(shards[..data], restored);
    out := [];
    for i := 0 to data
      invariant out == Flatten(filled[..i])
    {
      assert filled[..i + 1][..i] == filled[..i];
      out := out + if shards[i].Some? then shards[i].value else restored[i];
    }
    assert filled[..data] == filled;
  }

  /** Rebuilding as the code does it: counting, checking lengths, then copying or restoring. */
  method Decode(code: Code, shards: seq<Option<Shard>>, data: nat, parity: nat) returns (r: Result<seq<byte>, Failure>)
    ensures r == Decoded(code, shards, data, parity)
  {
    if !CountsOk(data, parity) {
      return Err(InvalidCounts);
    }
    if |shards| != data + parity {
      return Err(WrongNumber);
    }
    var present := CountPresent(shards);
    if present < data {
      return Err(TooFew);
    }
    var length :- CommonLength(shards);
    if length.None? {
      NonePresent(shards);
    }
    LengthsAgree(shards, length.value, data);
    if length.value % 2 != 0 {
      return Err(OddLength);
    }
    var all := forall i :: 0 <= i < data ==> shards[..data][i].Some?;
    var restored: map<nat, Shard> := map[];
    if !all {
      var m := code.restore(data, parity, Held(shards[..data]), Held(shards[data..]));
      if m.None? {
        return Err(ReconstructionFailed);
      }
      restored := m.value;
      if !forall i :: 0 <= i < data && shards[i].None? ==> i in restored {
        return Err(ReconstructionFailed);
      }
    }
    var out := CopyData(shards, restored, data);
    return Ok(out);
  }

  lemma {:induction false} Differ(shards: seq<Option<Shard>>, i: nat, length: nat)
    requires i < |shards| && shards[i].Some? && |shards[i].value| != length
    requires exists j :: 0 <= j < |shards| && shards[j].Some? && |shards[j].value| == length
    ensures !SameLength(shards, FirstLength(shards))
  {
  }

  // ----- filing chunks -----

  datatype Fields = Fields(index: nat, data: nat, parity: nat, originalLength: nat, checksum: seq<byte>, shard: Shard)

  datatype Filing =
    Filing(attempt: nat, data: nat, parity: nat, originalLength: nat, checksum: seq<byte>,
        shards: seq<Option<Shard>>)

  /** What has arrived of one attempt, with one place for each of its shards. */
  type Accumulator = a: Filing | |a.shards| == a.data + a.parity witness Filing(0, 0, 0, 0, [], [])

  type Rebuilt = Option<(seq<byte>, nat, nat)>

  function Fresh(attempt: nat, f: Fields): Accumulator {
    Filing(attempt, f.data, f.parity, f.originalLength, f.checksum, seq(f.data + f.parity, _ => None))
  }

  /** A completed reconstruction: truncated to the declared length, and checked. */
  function Checked(checksum: seq<byte> -> seq<byte>, decoded: Result<seq<byte>, Failure>,
      acc: Accumulator): Result<Rebuilt, Failure> {
    match decoded
    case Err(e) => Err(e)
    case Ok(bytes) =>
      if acc.originalLength > |bytes| then Err(ShorterThanDeclared)
      else if checksum(bytes[..acc.originalLength]) != acc.checksum then Err(ChecksumMismatch)
      else Ok(Some((bytes[..acc.originalLength], acc.data, acc.parity)))
  }

  /** Filing one chunk: the slot afterwards, and the payload once enough shards are there. */
  function Accumulate(code: Code, checksum: seq<byte> -> seq<byte>, slot: Option<Accumulator>, attempt: nat, f: Fields)
      : (Option<Accumulator>, Result<Rebuilt, Failure>)
  {
    if f.index >= f.data + f.parity then (slot, Err(IndexOutOfRange))
    else
      var acc := if slot.Some? && slot.value.attempt == attempt then slot.value else Fresh(attempt, f);
      if acc.data != f.data || acc.parity != f.parity || acc.originalLength != f.originalLength
          || acc.checksum != f.checksum
      then (Some(acc), Err(ParameterMismatch))
      else
        var filed := acc.(shards := acc.shards[f.index := Some(f.shard)]);
        if Present(filed.shards) < f.data then (Some(filed), Ok(None))
        else (None, Checked(checksum, Decoded(code, filed.shards, f.data, f.parity), filed))
  }

  class ChunkSlot {
    var slot: Option<Accumulator>

    constructor ()
      ensures slot == None
    {
      slot := None;
    }

    method File(code: Code, checksum: seq<byte> -> seq<byte>, attempt: nat,
        f: Fields) returns (r: Result<Rebuilt, Failure>)
      modifies this
      ensures (slot, r) == Accumulate(code, checksum, old(slot), attempt, f)
    {
      if f.index >= f.data + f.parity {
        return Err(IndexOutOfRange);
      }
      if slot.None? || slot.value.attempt != attempt {
        slot := Some(Fresh(attempt, f));
      }
      var acc := slot.value;
      if acc.data != f.data || acc.parity != f.parity || acc.originalLength != f.originalLength
          || acc.checksum != f.checksum {
        return Err(ParameterMismatch);
      }
      acc := acc.(shards := acc.shards[f.index := Some(f.shard)]);
      slot := Some(acc);
      var present := 0;
      for i := 0 to |acc.shards|
        invariant present == Present(acc.shards[..i]) && slot == Some(acc)
      {
        assert acc.shards[..i + 1][..i] == acc.shards[..i];
        if acc.shards[i].Some? {
          present := present + 1;
        }
      }
      assert acc.shards[..|acc.shards|] == acc.shards;
      if present < f.data {
        return Ok(None);
      }
      var decoded := Decode(code, acc.shards, f.data, f.parity);
      slot := None;
      r := Checked(checksum, decoded, acc);
    }
  }

  // ----- reassembly -----

  /** One attempt: a payload, how it is split, and all its shards. */
  datatype Attempt = Attempt(id: nat, payload: seq<byte>, data: nat, parity: nat, all: seq<Shard>, checksum: seq<byte>)

  ghost predicate Genuine(code: Code, checksum: seq<byte> -> seq<byte>, t: Attempt) {
    && code.AnyKOfN() && CountsOk(t.data, t.parity) && t.checksum == checksum(t.payload)
    && t.all == Encoded(code, t.payload, t.data, t.parity) && |t.all| == t.data + t.parity
  }

  /** An encoding makes a genuine attempt. */
  lemma {:induction false} EncodingGenuine(code: Code, checksum: seq<byte> -> seq<byte>, id: nat, payload: seq<byte>,
      data: nat, parity: nat)
    requires code.AnyKOfN() && CountsOk(data, parity)
    ensures Genuine(code, checksum,
            Attempt(id, payload, data, parity, Encoded(code, payload, data, parity), checksum(payload)))
  {
    assert UniformLength(DataShards(payload, data), ShardLength(|payload|, data));
  }

  /** The chunk of one shard. */
  function ChunkOf(t: Attempt, i: nat): Fields
    requires i < |t.all|
  {
    Fields(i, t.data, t.parity, |t.payload|, t.checksum, t.all[i])
  }

  /** Of so many places, those of the shards whose indices have arrived. */
  function Arrived(all: seq<Shard>, places: nat, got: set<nat>): (r: seq<Option<Shard>>)
    ensures |r| == places
    ensures forall i :: 0 <= i < |r| ==> r[i] == if i in got && i < |all| then Some(all[i]) else None
  {
    seq(places, i requires 0 <= i < places => if i in got && i < |all| then Some(all[i]) else None)
  }

  lemma {:induction false} PresentArrived(shards: seq<Option<Shard>>, got: set<nat>)
    requires (forall i :: 0 <= i < |shards| ==> (shards[i].Some? <==> i in got)) && forall i :: i in got
                                                                                        ==> i < |shards|
    ensures Present(shards) == |got|
    decreases |shards|
  {
    if shards == [] {
      assert got == {};
    } else {
      var n := |shards| - 1;
      PresentArrived(shards[..n], got - {n});
      if n !in got { assert got - {n} == got; }
    }
  }

  /** The slot after some chunks of an attempt, fewer than are needed. */
  function Partly(t: Attempt, got: set<nat>): Accumulator {
    Filing(t.id, t.data, t.parity, |t.payload|, t.checksum, Arrived(t.all, t.data + t.parity, got))
  }

  /** The slot an attempt has once the given indices have arrived: untouched by it, partly filled, or cleared. */
  ghost predicate SlotAfter(slot: Option<Accumulator>, t: Attempt, got: set<nat>) {
    if got == {} then slot.None? || slot.value.attempt != t.id
    else if |got| < t.data then slot == Some(Partly(t, got))
    else slot == None
  }

  /** What filing the last of some indices answers. */
  function AnswerAfter(t: Attempt, got: set<nat>): Result<Rebuilt, Failure> {
    if |got| < t.data then Ok(None) else Ok(Some((t.payload, t.data, t.parity)))
  }

  /** The accumulator a chunk is filed in, and what filing makes of it. */
  lemma {:induction false} FiledArrives(slot: Option<Accumulator>, t: Attempt, got: set<nat>, i: nat)
    requires |t.all| == t.data + t.parity && i < |t.all| && |got| < t.data && SlotAfter(slot, t, got)
    ensures var f := ChunkOf(t, i);
            var acc := if slot.Some? && slot.value.attempt == t.id then slot.value else Fresh(t.id, f);
            acc == Partly(t, got) && acc.(shards := acc.shards[i := Some(f.shard)]) == Partly(t, got + {i})
  {
    var f := ChunkOf(t, i);
    var acc := if slot.Some? && slot.value.attempt == t.id then slot.value else Fresh(t.id, f);
    assert acc.shards == Arrived(t.all, t.data + t.parity, got);
    assert acc.shards[i := Some(f.shard)] == Arrived(t.all, t.data + t.parity, got + {i});
  }

  /** Enough shards of a genuine attempt pass every check and give the payload. */
  lemma {:induction false} EnoughGives(code: Code, checksum: seq<byte> -> seq<byte>, t: Attempt, got: set<nat>)
    requires Genuine(code, checksum, t) && (forall k :: k in got ==> k < |t.all|)
    ensures Present(Partly(t, got).shards) == |got|
    ensures |got| >= t.data ==>
              Checked(checksum, Decoded(code, Partly(t, got).shards, t.data, t.parity), Partly(t, got))
              == Ok(Some((t.payload, t.data, t.parity)))
  {
    PresentArrived(Partly(t, got).shards, got);
    if |got| >= t.data {
      DecodesEncoded(code, t.payload, t.data, t.parity, Partly(t, got).shards);
    }
  }

  /** One more chunk of an attempt, new or repeated, first or later. */
  lemma {:induction false} FileNext(code: Code, checksum: seq<byte> -> seq<byte>, slot: Option<Accumulator>,
      t: Attempt, got: set<nat>, i: nat)
    requires Genuine(code, checksum, t) && i < |t.all| && (forall k :: k in got ==> k < |t.all|)
    requires |got| < t.data && SlotAfter(slot, t, got)
    ensures var (after, answer) := Accumulate(code, checksum, slot, t.id, ChunkOf(t, i));
            SlotAfter(after, t, got + {i}) && answer == AnswerAfter(t, got + {i})
  {
    FiledArrives(slot, t, got, i);
    EnoughGives(code, checksum, t, got + {i});
    assert i in got + {i};
  }

  /** Filing a list of chunks of one attempt: the slot and every answer. */
  function FileAll(code: Code, checksum: seq<byte> -> seq<byte>, slot: Option<Accumulator>, t: Attempt, order: seq<nat>)
      : (Option<Accumulator>, seq<Result<Rebuilt, Failure>>)
    requires forall k :: 0 <= k < |order| ==> order[k] < |t.all|
    decreases |order|
  {
    if order == [] then (slot, [])
    else
      var n := |order| - 1;
      var before := FileAll(code, checksum, slot, t, order[..n]);
      var last := Accumulate(code, checksum, before.0, t.id, ChunkOf(t, order[n]));
      (last.0, before.1 + [last.1])
  }

  /** What filing the last chunk of a list does, given the indices that arrived before it. */
  lemma {:induction false} FiledLast(code: Code, checksum: seq<byte> -> seq<byte>, slot: Option<Accumulator>,
      t: Attempt, order: seq<nat>, got: set<nat>)
    requires Genuine(code, checksum, t) && (forall k :: 0 <= k < |order| ==> order[k] < |t.all|)
             && (forall k :: k in got ==> k < |t.all|)
    requires order != [] && |got| < t.data
             && SlotAfter(FileAll(code, checksum, slot, t, order[..|order| - 1]).0, t, got)
    ensures var now := got + {order[|order| - 1]};
            && SlotAfter(FileAll(code, checksum, slot, t, order).0, t, now)
            && FileAll(code, checksum, slot, t, order).1
               == FileAll(code, checksum, slot, t, order[..|order| - 1]).1 + [AnswerAfter(t, now)]
  {
    var before := FileAll(code, checksum, slot, t, order[..|order| - 1]);
    FileNext(code, checksum, before.0, t, got, order[|order| - 1]);
  }

  function Indices(order: seq<nat>): set<nat> {
    set i | i in order
  }

  lemma {:induction false} IndicesSnoc(order: seq<nat>)
    requires order != []
    ensures Indices(order) == Indices(order[..|order| - 1]) + {order[|order| - 1]}
  {
    assert order == order[..|order| - 1] + [order[|order| - 1]];
  }

  lemma {:induction false} FewerBefore(s: set<nat>, i: nat, bound: nat)
    requires |s + {i}| < bound
    ensures |s| < bound
  {
    if i in s { assert s + {i} == s; }
  }

  /** Nothing before the last chunk, and for the last what the indices arrived so far call for. */
  ghost predicate AnswersAre(t: Attempt, order: seq<nat>, answers: seq<Result<Rebuilt, Failure>>) {
    && |answers| == |order|
    && (forall k :: 0 <= k < |order| - 1 ==> answers[k] == Ok(None))
    && (order != [] ==> answers[|order| - 1] == AnswerAfter(t, Indices(order)))
  }

  lemma {:induction false} AnswersSnoc(t: Attempt, order: seq<nat>, answers: seq<Result<Rebuilt, Failure>>,
      answer: Result<Rebuilt, Failure>)
    requires order != [] && AnswersAre(t, order[..|order| - 1], answers) && |Indices(order[..|order| - 1])| < t.data
    requires answer == AnswerAfter(t, Indices(order))
    ensures AnswersAre(t, order, answers + [answer])
  {
  }

  /**
   Reassembly. Chunks of one attempt arrive in any order and with any repeats. As long
   as fewer than `data` different ones have arrived nothing is returned; the one that
   makes it `data` returns exactly the payload and clears the slot.
   */
  lemma {:induction false} Reassembles(code: Code, checksum: seq<byte> -> seq<byte>, slot: Option<Accumulator>,
      t: Attempt, order: seq<nat>)
    requires Genuine(code, checksum, t) && (forall k :: 0 <= k < |order| ==> order[k] < |t.all|)
    requires slot.None? || slot.value.attempt != t.id
    requires order != [] ==> |Indices(order[..|order| - 1])| < t.data
    ensures SlotAfter(FileAll(code, checksum, slot, t, order).0, t, Indices(order))
    ensures AnswersAre(t, order, FileAll(code, checksum, slot, t, order).1)
    decreases |order|
  {
    if order != [] {
      var n := |order| - 1;
      PrefixFewer(t, order);
      Reassembles(code, checksum, slot, t, order[..n]);
      IndicesSnoc(order);
      FiledLast(code, checksum, slot, t, order, Indices(order[..n]));
      AnswersSnoc(t, order, FileAll(code, checksum, slot, t, order[..n]).1, AnswerAfter(t, Indices(order)));
    }
  }

  lemma {:induction false} PrefixFewer(t: Attempt, order: seq<nat>)
    requires order != [] && |Indices(order[..|order| - 1])| < t.data
    ensures var prefix := order[..|order| - 1]; prefix != [] ==> |Indices(prefix[..|prefix| - 1])| < t.data
  {
    var prefix := order[..|order| - 1];
    if prefix != [] {
      IndicesSnoc(prefix);
      FewerBefore(Indices(prefix[..|prefix| - 1]), prefix[|prefix| - 1], t.data);
    }
  }
}
