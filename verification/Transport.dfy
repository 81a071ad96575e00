/**
 The record layer of one direction: sequence numbers on the sending side and the
 64-bit sliding replay window on the receiving side (crates/core/src/transport.rs).
 Numbers and bitmap are 64-bit words; the AEAD is a free term bound to its key and
 sequence number.
 */
module Transport {
  import opened Wrappers
  import opened Sequences

  const MAX_PLAINTEXT_LEN: nat := 16384
  const TAG_LEN: nat := 16
  const SEQ_LEN: nat := 8
  const REPLAY_WINDOW: nat := 64

  /** A 64-bit sequence number. */
  type SeqNo = n: nat | n < 0x1_0000_0000_0000_0000

  const LAST_SEQ: SeqNo := 0xFFFF_FFFF_FFFF_FFFF

  datatype Error = Malformed | TooLarge | Replay | Decrypt | SequenceExhausted

  /** A ciphertext with its tag: produced under a key for one sequence number, or any other bytes. */
  datatype Body = Sealed(key: nat, seqNo: SeqNo, plaintext: seq<bv8>) | Forged(size: nat)

  /** A record on the wire, or bytes too short to hold a sequence number. */
  datatype Record = Stub(size: nat) | Record(seqNo: SeqNo, body: Body)

  function Size(r: Record): nat {
    match r
    case Stub(n) => if n < SEQ_LEN then n else SEQ_LEN
    case Record(_, Sealed(_, _, plaintext)) => SEQ_LEN + |plaintext| + TAG_LEN
    case Record(_, Forged(n)) => SEQ_LEN + n
  }

  // ----- 64-bit words as their bits, least significant first -----

  type Word = bits: seq<bool> | |bits| == 64 witness seq(64, _ => false)

  function Zero(): (w: Word)
    ensures forall k :: 0 <= k < 64 ==> !w[k]
  {
    seq(64, _ => false)
  }

  /** `1 << i`. */
  function OneBit(i: nat): (w: Word)
    requires i < 64
  {
    seq(64, k => k == i)
  }

  /** `w << s`: bits move up, those past the top are lost, zeros come in. */
  function ShiftLeft(w: Word, s: nat): (r: Word)
    requires s < 64
  {
    seq(64, k requires 0 <= k < 64 => k >= s && w[k - s])
  }

  function Or(a: Word, b: Word): (r: Word) {
    seq(64, k requires 0 <= k < 64 => a[k] || b[k])
  }

  /** `w & (1 << i) != 0`. */
  predicate Bit(w: Word, i: nat)
    requires i < 64
  {
    exists k: nat :: k < 64 && w[k] && OneBit(i)[k]
  }

  lemma {:induction false} BitIs(w: Word, i: nat)
    requires i < 64
    ensures Bit(w, i) <==> w[i]
  {
    assert OneBit(i)[i];
  }

  // ----- the window as a function of its state -----

  datatype Window = Window(highest: Option<SeqNo>, bits: Word)

  /** `window` summarises the set of numbers opened so far. */
  ghost predicate Agrees(w: Window, seen: set<SeqNo>) {
    match w.highest
    case None => seen == {}
    case Some(h) =>
      && h in seen && (forall s :: s in seen ==> s <= h)
      && forall age: nat :: 1 <= age <= 64 && age <= h ==> BitMeans(w.bits, h, age, seen)
  }

  ghost predicate BitMeans(bits: Word, h: SeqNo, age: nat, seen: set<SeqNo>)
    requires 1 <= age <= 64 && age <= h
  {
    bits[age - 1] <==> h - age in seen
  }

  /** The numbers a receiver lets through: above the highest, or within the window and unseen. */
  ghost predicate Admissible(w: Window, seen: set<SeqNo>, s: SeqNo) {
    match w.highest
    case None => true
    case Some(h) => s > h || (s < h && h - s <= REPLAY_WINDOW && s !in seen)
  }

  predicate CheckReplay(w: Window, s: SeqNo) {
    match w.highest
    case None => true
    case Some(h) =>
      if s > h then true
      else if s == h then false
      else !(h - s > REPLAY_WINDOW || Bit(w.bits, h - s - 1))
  }

  /** The bitmap after the highest number has moved up, the old highest taking its place in it. */
  function MoveUp(bits: Word, shift: nat): Word
    requires shift > 0
  {
    if shift > REPLAY_WINDOW then Zero()
    else if shift == REPLAY_WINDOW then OneBit(63)
    else Or(ShiftLeft(bits, shift), OneBit(shift - 1))
  }

  function RecordSeen(w: Window, s: SeqNo): Window
    requires CheckReplay(w, s)
  {
    match w.highest
    case None => Window(Some(s), Zero())
    case Some(h) =>
      if s > h then
        Window(Some(s), MoveUp(w.bits, s - h))
      else Window(Some(h), Or(w.bits, OneBit(h - s - 1)))
  }

  /** The check lets a number through exactly when it is new and not older than the window. */
  lemma {:induction false} CheckExactly(w: Window, seen: set<SeqNo>, s: SeqNo)
    requires Agrees(w, seen)
    ensures CheckReplay(w, s) <==> Admissible(w, seen, s)
    ensures Admissible(w, seen, s) ==> s !in seen
  {
    if w.highest.Some? && s < w.highest.value && w.highest.value - s <= 64 {
      BitIs(w.bits, w.highest.value - s - 1);
      assert BitMeans(w.bits, w.highest.value, w.highest.value - s, seen);
    }
  }

  /** Recording an admitted number keeps the bitmap and the set of opened numbers in step, at every distance. */
  lemma {:induction false} RecordAgrees(w: Window, seen: set<SeqNo>, s: SeqNo)
    requires Agrees(w, seen) && CheckReplay(w, s)
    ensures Agrees(RecordSeen(w, s), seen + {s})
  {
    var w' := RecordSeen(w, s);
    if w.highest.Some? {
      var h := w.highest.value;
      if s > h {
        forall age: nat | 1 <= age <= 64 && age <= s ensures BitMeans(w'.bits, s, age, seen + {s}) {
          if age > s - h {
            assert BitMeans(w.bits, h, age - (s - h), seen);
          }
        }
      } else {
        forall age: nat | 1 <= age <= 64 && age <= h ensures BitMeans(w'.bits, h, age, seen + {s}) {
          assert BitMeans(w.bits, h, age, seen);
        }
      }
    }
  }

  // ----- runs -----

  /** The numbers a run of authentic records gets opened, in order. */
  function OpenedBy(w: Window, numbers: seq<SeqNo>): (r: (Window, seq<SeqNo>))
    decreases |numbers|
  {
    if numbers == [] then (w, [])
    else
      var (before, accepted) := OpenedBy(w, numbers[..|numbers| - 1]);
      var s := numbers[|numbers| - 1];
      if CheckReplay(before, s) then (RecordSeen(before, s), accepted + [s]) else (before, accepted)
  }

  ghost function Elements(numbers: seq<SeqNo>): set<SeqNo> {
    set s | s in numbers
  }

  /** Over any run nothing is opened twice, and the window always agrees with what was opened. */
  lemma {:induction false} RunOpensOnce(numbers: seq<SeqNo>)
    ensures var (w, accepted) := OpenedBy(Window(None, Zero()), numbers);
            NoRepeats(accepted) && Agrees(w, Elements(accepted))
    decreases |numbers|
  {
    if numbers != [] {
      var n := |numbers| - 1;
      RunOpensOnce(numbers[..n]);
      var (w, accepted) := OpenedBy(Window(None, Zero()), numbers[..n]);
      CheckExactly(w, Elements(accepted), numbers[n]);
      if CheckReplay(w, numbers[n]) {
        RecordAgrees(w, Elements(accepted), numbers[n]);
        assert Elements(accepted + [numbers[n]]) == Elements(accepted) + {numbers[n]};
        assert forall i :: 0 <= i < |accepted| ==> accepted[i] in Elements(accepted);
      }
    }
  }

  // ----- the two halves as objects -----

  class Sender {
    const key: nat
    var nextSeq: SeqNo
    /** Every number sealed so far. */
    ghost var used: set<SeqNo>

    /** All numbers used lie below the next one. */
    ghost predicate Valid()
      reads this
    {
      forall s :: s in used ==> s < nextSeq
    }

    constructor (key: nat)
      ensures Valid() && this.key == key && nextSeq == 0 && used == {}
    {
      this.key := key;
      nextSeq := 0;
      used := {};
    }

    /** Seals a record under the next number, which has never been used; the last number of all is refused. */
    method Seal(plaintext: seq<bv8>) returns (r: Result<Record, Error>)
      requires Valid()
      modifies this`nextSeq, this`used
      ensures Valid()
      ensures r == if |plaintext| > MAX_PLAINTEXT_LEN then Err(TooLarge)
                   else if old(nextSeq) == LAST_SEQ then Err(SequenceExhausted)
                   else Ok(Record(old(nextSeq), Sealed(key, old(nextSeq), plaintext)))
      ensures r.Ok? ==> r.value.seqNo !in old(used) && used == old(used) + {r.value.seqNo}
                        && nextSeq == old(nextSeq) + 1
      ensures r.Err? ==> used == old(used) && nextSeq == old(nextSeq)
    {
      if |plaintext| > MAX_PLAINTEXT_LEN {
        return Err(TooLarge);
      }
      var s := nextSeq;
      if s == LAST_SEQ {
        return Err(SequenceExhausted);
      }
      nextSeq := s + 1;
      used := used + {s};
      return Ok(Record(s, Sealed(key, s, plaintext)));
    }
  }

  class Receiver {
    const key: nat
    var highest: Option<SeqNo>
    var window: Word
    /** The numbers of all records opened so far. */
    ghost var seen: set<SeqNo>

    ghost predicate Valid()
      reads this
    {
      Agrees(Window(highest, window), seen)
    }

    constructor (key: nat)
      ensures Valid() && this.key == key && seen == {} && highest == None
    {
      this.key := key;
      highest := None;
      window := Zero();
      seen := {};
    }

    /** Marks a number as opened. */
    method MarkSeen(s: SeqNo)
      requires Valid() && CheckReplay(Window(highest, window), s)
      modifies this`highest, this`window, this`seen
      ensures Valid() && seen == old(seen) + {s}
              && Window(highest, window) == old(RecordSeen(Window(highest, window), s))
    {
      CheckExactly(Window(highest, window), seen, s);
      RecordAgrees(Window(highest, window), seen, s);
      seen := seen + {s};
      if highest.None? {
        highest := Some(s);
        window := Zero();
      } else if s > highest.value {
        var shift := s - highest.value;
        if shift > REPLAY_WINDOW {
          window := Zero();
        } else if shift == REPLAY_WINDOW {
          window := OneBit(63);
        } else {
          window := Or(ShiftLeft(window, shift), OneBit(shift - 1));
        }
        highest := Some(s);
      } else {
        var age := highest.value - s;
        window := Or(window, OneBit(age - 1));
      }
    }

    /**
     Opens a record: sizes first, then the replay check, then authentication. Exactly
     the authentic records with an admissible number open, each to its plaintext, and
     only those change anything.
     */
    method Open(record: Record) returns (r: Result<seq<bv8>, Error>)
      requires Valid()
      modifies this`highest, this`window, this`seen
      ensures Valid()
      ensures Size(record) < SEQ_LEN + TAG_LEN ==> r == Err(Malformed)
      ensures Size(record) > SEQ_LEN + TAG_LEN + MAX_PLAINTEXT_LEN ==> r == Err(TooLarge)
      ensures SEQ_LEN + TAG_LEN <= Size(record) <= SEQ_LEN + TAG_LEN + MAX_PLAINTEXT_LEN ==>
                record.Record? &&
                r == if !Admissible(old(Window(highest, window)), old(seen), record.seqNo) then Err(Replay)
                     else if record.body.Sealed? && record.body.key == key
                         && record.body.seqNo == record.seqNo then Ok(record.body.plaintext)
                     else Err(Decrypt)
      ensures r.Ok? ==> record.Record? && record.seqNo !in old(seen) && seen == old(seen) + {record.seqNo}
      ensures r.Err? ==> seen == old(seen) && highest == old(highest) && window == old(window)
    {
      if Size(record) < SEQ_LEN + TAG_LEN {
        return Err(Malformed);
      }
      if Size(record) > SEQ_LEN + TAG_LEN + MAX_PLAINTEXT_LEN {
        return Err(TooLarge);
      }
      var s := record.seqNo;
      CheckExactly(Window(highest, window), seen, s);
      if !CheckReplay(Window(highest, window), s) {
        return Err(Replay);
      }
      if !(record.body.Sealed? && record.body.key == key && record.body.seqNo == s) {
        return Err(Decrypt);
      }
      var plaintext := record.body.plaintext;
      MarkSeen(s);
      return Ok(plaintext);
    }
  }
}
