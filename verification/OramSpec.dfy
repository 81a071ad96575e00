/**
 The oblivious store as a function of its state: reading a path, updating one block,
 and greedy eviction, with conservation of blocks and optimality of the eviction
 (crates/oram/src/lib.rs).
 */
module OramSpec {
  import opened Wrappers
  import opened Permuted
  import opened Sequences
  import opened OramTree

  type BlockId = nat

  datatype Block<V> = Block(id: BlockId, value: V)

  type Bucket<V> = seq<Block<V>>

  type Positions = map<BlockId, nat>

  predicate Mapped<V>(positions: Positions, b: Block<V>) { b.id in positions }

  predicate AllMapped<V>(positions: Positions, blocks: seq<Block<V>>) {
    forall k {:trigger Mapped(positions, blocks[k])} :: 0 <= k < |blocks| ==> Mapped(positions, blocks[k])
  }

  /** A leaf lies below a node. */
  predicate Under(node: nat, numLeaves: nat, leaf: nat)
    requires numLeaves >= 1
  {
    IsAncestor(node, numLeaves + leaf)
  }

  lemma {:induction false} MappedMore<V>(positions: Positions, more: Positions, blocks: seq<Block<V>>)
    requires AllMapped(positions, blocks) && positions.Keys <= more.Keys
    ensures AllMapped(more, blocks)
  {
    forall k | 0 <= k < |blocks| ensures Mapped(more, blocks[k]) {
      assert Mapped(positions, blocks[k]);
    }
  }

  /** Whether a block may be stored at a node: its leaf lies below. */
  predicate Eligible<V>(numLeaves: nat, positions: Positions, node: nat, b: Block<V>)
    requires numLeaves >= 1 && Mapped(positions, b)
  {
    Under(node, numLeaves, positions[b.id])
  }

  // ----- one bucket -----

  /** The first blocks of the stash that fit the node, up to its capacity, and the rest in order. */
  function Select<V>(numLeaves: nat, positions: Positions, node: nat, capacity: nat,
      stash: seq<Block<V>>): (r: (Bucket<V>, seq<Block<V>>))
    requires numLeaves >= 1 && AllMapped(positions, stash)
    decreases |stash|
  {
    if stash == [] || capacity == 0 then ([], stash)
    else if Eligible(numLeaves, positions, node, stash[0]) then
      var (chosen, rest) := Select(numLeaves, positions, node, capacity - 1, stash[1..]);
      ([stash[0]] + chosen, rest)
    else
      var (chosen, rest) := Select(numLeaves, positions, node, capacity, stash[1..]);
      (chosen, [stash[0]] + rest)
  }

  /** How many blocks fit a node. */
  function Count<V>(numLeaves: nat, positions: Positions, node: nat, blocks: seq<Block<V>>): (n: nat)
    requires numLeaves >= 1 && AllMapped(positions, blocks)
    ensures n <= |blocks|
    decreases |blocks|
  {
    if blocks == [] then 0
    else (if Eligible(numLeaves, positions, node, blocks[0]) then 1
        else 0) + Count(numLeaves, positions, node, blocks[1..])
  }

  function Min(a: nat, b: nat): nat { if a <= b then a else b }

  /** Selection splits the stash: what is chosen fits, as many as possible are chosen, nothing is lost. */
  lemma {:induction false} SelectSplits<V>(numLeaves: nat, positions: Positions, node: nat, capacity: nat,
      stash: seq<Block<V>>)
    requires numLeaves >= 1 && AllMapped(positions, stash)
    ensures var (chosen, rest) := Select(numLeaves, positions, node, capacity, stash);
            && multiset(chosen) + multiset(rest) == multiset(stash)
            && AllMapped(positions, chosen) && AllMapped(positions, rest)
            && (forall k :: 0 <= k < |chosen| ==> Eligible(numLeaves, positions, node, chosen[k]))
            && |chosen| == Min(capacity, Count(numLeaves, positions, node, stash))
  {
    SelectConserves(numLeaves, positions, node, capacity, stash);
    SelectFits(numLeaves, positions, node, capacity, stash);
  }

  lemma {:induction false} SelectConserves<V>(numLeaves: nat, positions: Positions, node: nat, capacity: nat,
      stash: seq<Block<V>>)
    requires numLeaves >= 1 && AllMapped(positions, stash)
    ensures var (chosen, rest) := Select(numLeaves, positions, node, capacity, stash);
            multiset(chosen) + multiset(rest) == multiset(stash)
    decreases |stash|
  {
    if stash != [] && capacity != 0 {
      SelectConserves(numLeaves, positions, node, if Eligible(numLeaves, positions, node, stash[0]) then capacity - 1
          else capacity, stash[1..]);
      assert stash == [stash[0]] + stash[1..];
    }
  }

  lemma {:induction false} SelectFits<V>(numLeaves: nat, positions: Positions, node: nat, capacity: nat,
      stash: seq<Block<V>>)
    requires numLeaves >= 1 && AllMapped(positions, stash)
    ensures var (chosen, rest) := Select(numLeaves, positions, node, capacity, stash);
            && AllMapped(positions, chosen) && AllMapped(positions, rest)
            && (forall k :: 0 <= k < |chosen| ==> Eligible(numLeaves, positions, node, chosen[k]))
            && |chosen| == Min(capacity, Count(numLeaves, positions, node, stash))
    decreases |stash|
  {
    if stash != [] && capacity != 0 {
      SelectFits(numLeaves, positions, node, if Eligible(numLeaves, positions, node, stash[0]) then capacity - 1
          else capacity, stash[1..]);
    }
  }

  // ----- eviction along a path -----

  /** Eviction bucket by bucket: what each node of the path receives, and what stays in the stash. */
  function EvictAll<V>(numLeaves: nat, positions: Positions, path: seq<nat>, capacity: nat, stash: seq<Block<V>>)
      : (r: (seq<Bucket<V>>, seq<Block<V>>))
    requires numLeaves >= 1 && AllMapped(positions, stash)
    ensures |r.0| == |path| && AllMapped(positions, r.1)
    decreases |path|
  {
    if path == [] then ([], stash)
    else
      var n := |path| - 1;
      var (placed, left) := EvictAll(numLeaves, positions, path[..n], capacity, stash);
      SelectSplits(numLeaves, positions, path[n], capacity, left);
      var (chosen, rest) := Select(numLeaves, positions, path[n], capacity, left);
      (placed + [chosen], rest)
  }

  /** Eviction only moves blocks. */
  lemma {:induction false} EvictConserves<V>(numLeaves: nat, positions: Positions, path: seq<nat>, capacity: nat,
      stash: seq<Block<V>>)
    requires numLeaves >= 1 && AllMapped(positions, stash)
    ensures var (placed, left) := EvictAll(numLeaves, positions, path, capacity, stash);
            multiset(Flatten(placed)) + multiset(left) == multiset(stash)
    decreases |path|
  {
    if path != [] {
      var n := |path| - 1;
      EvictConserves(numLeaves, positions, path[..n], capacity, stash);
      var (placed, left) := EvictAll(numLeaves, positions, path[..n], capacity, stash);
      SelectSplits(numLeaves, positions, path[n], capacity, left);
      var (chosen, rest) := Select(numLeaves, positions, path[n], capacity, left);
      assert (placed + [chosen])[..n] == placed;
    }
  }

  /** What each node receives fits it and fits its capacity. */
  lemma {:induction false} EvictFits<V>(numLeaves: nat, positions: Positions, path: seq<nat>, capacity: nat,
      stash: seq<Block<V>>, i: nat)
    requires numLeaves >= 1 && AllMapped(positions, stash) && i < |path|
    ensures var placed := EvictAll(numLeaves, positions, path, capacity, stash).0;
            && |placed[i]| <= capacity && AllMapped(positions, placed[i])
            && forall k :: 0 <= k < |placed[i]| ==> Eligible(numLeaves, positions, path[i], placed[i][k])
    decreases |path|
  {
    var n := |path| - 1;
    if i == n {
      var left := EvictAll(numLeaves, positions, path[..n], capacity, stash).1;
      SelectSplits(numLeaves, positions, path[n], capacity, left);
    } else {
      EvictFits(numLeaves, positions, path[..n], capacity, stash, i);
    }
  }

  // ----- counting -----

  lemma {:induction false} CountCons<V>(numLeaves: nat, positions: Positions, node: nat, b: Block<V>, s: seq<Block<V>>)
    requires numLeaves >= 1 && Mapped(positions, b) && AllMapped(positions, [b] + s) && AllMapped(positions, s)
    ensures Count(numLeaves, positions, node, [b] + s)
            == Count(numLeaves, positions, node, s) + if Eligible(numLeaves, positions, node, b) then 1 else 0
  {
    assert ([b] + s)[1..] == s;
  }

  lemma {:induction false} CountWithout<V>(numLeaves: nat, positions: Positions, node: nat, s: seq<Block<V>>, i: nat)
    requires numLeaves >= 1 && AllMapped(positions, s) && i < |s|
    ensures AllMapped(positions, Without(s, i))
    ensures Count(numLeaves, positions, node, s)
            == Count(numLeaves, positions, node, Without(s, i)) + if Eligible(numLeaves, positions, node, s[i]) then 1
                else 0
    decreases |s|
  {
    if i == 0 {
      assert Without(s, i) == s[1..];
    } else {
      CountWithout(numLeaves, positions, node, s[1..], i - 1);
      assert Without(s, i) == [s[0]] + Without(s[1..], i - 1);
      CountCons(numLeaves, positions, node, s[0], Without(s[1..], i - 1));
    }
  }

  lemma {:induction false} CountPermuted<V>(numLeaves: nat, positions: Positions, node: nat, s: seq<Block<V>>,
      t: seq<Block<V>>)
    requires numLeaves >= 1 && AllMapped(positions, s) && AllMapped(positions, t) && SameElements(s, t)
    ensures Count(numLeaves, positions, node, s) == Count(numLeaves, positions, node, t)
    decreases |t|
  {
    SameLength(s, t);
    if t != [] {
      var n := |t| - 1;
      var i := MatchLast(s, t);
      CountWithout(numLeaves, positions, node, s, i);
      CountWithout(numLeaves, positions, node, t, n);
      assert Without(t, n) == t[..n];
      CountPermuted(numLeaves, positions, node, Without(s, i), t[..n]);
    }
  }

  lemma {:induction false} CountConcat<V>(numLeaves: nat, positions: Positions, node: nat, s: seq<Block<V>>,
      t: seq<Block<V>>)
    requires numLeaves >= 1 && AllMapped(positions, s) && AllMapped(positions, t)
    ensures Count(numLeaves, positions, node, s + t)
            == Count(numLeaves, positions, node, s) + Count(numLeaves, positions, node, t)
    decreases |s|
  {
    if s == [] {
      assert s + t == t;
    } else {
      CountConcat(numLeaves, positions, node, s[1..], t);
      assert (s + t)[1..] == s[1..] + t;
    }
  }

  lemma {:induction false} CountAll<V>(numLeaves: nat, positions: Positions, node: nat, s: seq<Block<V>>)
    requires numLeaves >= 1 && AllMapped(positions, s)
    requires forall k :: 0 <= k < |s| ==> Eligible(numLeaves, positions, node, s[k])
    ensures Count(numLeaves, positions, node, s) == |s|
    decreases |s|
  {
    if s != [] {
      CountAll(numLeaves, positions, node, s[1..]);
    }
  }

  lemma {:induction false} CountNone<V>(numLeaves: nat, positions: Positions, node: nat, s: seq<Block<V>>, i: nat)
    requires numLeaves >= 1 && AllMapped(positions, s) && i < |s|
    requires Count(numLeaves, positions, node, s) == 0
    ensures !Eligible(numLeaves, positions, node, s[i])
  {
    CountWithout(numLeaves, positions, node, s, i);
  }

  // ----- any placement -----

  /**
   `placed` and `left` share out `stash` along `path` within the rules: what a bucket gets belongs below it,
   and fits.
   */
  ghost predicate LegalPlacement<V>(
      numLeaves: nat, positions: Positions, path: seq<nat>, capacity: nat, stash: seq<Block<V>>,
          placed: seq<Bucket<V>>, left: seq<Block<V>>)
    requires numLeaves >= 1
  {
    && |placed| == |path| && AllMapped(positions, left)
    && (forall i :: 0 <= i < |path| ==> FitsAt(numLeaves, positions, path[i], capacity, placed[i]))
    && multiset(Flatten(placed)) + multiset(left) == multiset(stash)
  }

  ghost predicate FitsAt<V>(numLeaves: nat, positions: Positions, node: nat, capacity: nat, bucket: Bucket<V>)
    requires numLeaves >= 1
  {
    && |bucket| <= capacity && AllMapped(positions, bucket)
    && forall k :: 0 <= k < |bucket| ==> Eligible(numLeaves, positions, node, bucket[k])
  }

  /** The greedy eviction is one of them. */
  lemma {:induction false} EvictLegal<V>(numLeaves: nat, positions: Positions, path: seq<nat>, capacity: nat,
      stash: seq<Block<V>>)
    requires numLeaves >= 1 && AllMapped(positions, stash)
    ensures var (placed, left) := EvictAll(numLeaves, positions, path, capacity, stash);
            LegalPlacement(numLeaves, positions, path, capacity, stash, placed, left)
  {
    EvictConserves(numLeaves, positions, path, capacity, stash);
    forall i | 0 <= i < |path|
      ensures FitsAt(numLeaves, positions, path[i], capacity,
              EvictAll(numLeaves, positions, path, capacity, stash).0[i])
    {
      EvictFits(numLeaves, positions, path, capacity, stash, i);
    }
  }

  /** The most that the first `i` nodes of the path can hold between them. */
  function Best<V>(numLeaves: nat, positions: Positions, path: seq<nat>, capacity: nat, stash: seq<Block<V>>,
      i: nat): nat
    requires numLeaves >= 1 && AllMapped(positions, stash) && i <= |path|
  {
    if i == 0 then 0
    else Min(Best(numLeaves, positions, path, capacity, stash, i - 1) + capacity,
        Count(numLeaves, positions, path[i - 1], stash))
  }

  /** All leaves below `a` are below `b`. */
  ghost predicate Inside(a: nat, b: nat, numLeaves: nat)
    requires numLeaves >= 1
  {
    forall leaf: nat :: Under(a, numLeaves, leaf) ==> Under(b, numLeaves, leaf)
  }

  /** Each node of the path is an ancestor of the ones before it. */
  ghost predicate Nested(path: seq<nat>, numLeaves: nat)
    requires numLeaves >= 1
  {
    forall i, j :: 0 <= i <= j < |path| ==> Inside(path[i], path[j], numLeaves)
  }

  lemma {:induction false} LeafPathNested(numLeaves: nat, leaf: nat)
    requires numLeaves >= 1
    ensures Nested(PathFrom(numLeaves + leaf), numLeaves)
  {
    var path := PathFrom(numLeaves + leaf);
    forall i, j | 0 <= i <= j < |path|
      ensures Inside(path[i], path[j], numLeaves)
    {
      forall other: nat | Under(path[i], numLeaves, other)
        ensures Under(path[j], numLeaves, other)
      {
        PathNested(numLeaves + leaf, i, j, numLeaves + other);
      }
    }
  }

  /** Everything placed in the first `i` nodes fits each later node. */
  lemma {:induction false} FlattenFits<V>(numLeaves: nat, positions: Positions, path: seq<nat>, capacity: nat,
      placed: seq<Bucket<V>>, node: nat)
    requires numLeaves >= 1 && |placed| <= |path|
    requires forall i :: 0 <= i < |placed| ==> FitsAt(numLeaves, positions, path[i], capacity, placed[i])
    requires forall i :: 0 <= i < |placed| ==> Inside(path[i], node, numLeaves)
    ensures AllMapped(positions, Flatten(placed))
    ensures forall k :: 0 <= k < |Flatten(placed)| ==> Eligible(numLeaves, positions, node, Flatten(placed)[k])
    decreases |placed|
  {
    if placed != [] {
      var n := |placed| - 1;
      FlattenFits(numLeaves, positions, path, capacity, placed[..n], node);
      assert FitsAt(numLeaves, positions, path[n], capacity, placed[n]) && Inside(path[n], node, numLeaves);
      forall k | 0 <= k < |placed[n]| ensures Mapped(positions, placed[n][k])
          && Eligible(numLeaves, positions, node, placed[n][k]) {
        assert Eligible(numLeaves, positions, path[n], placed[n][k]);
      }
    }
  }

  lemma {:induction false} FlattenSplit<T>(parts: seq<seq<T>>, i: nat)
    requires i <= |parts|
    ensures multiset(Flatten(parts)) == multiset(Flatten(parts[..i])) + multiset(Flatten(parts[i..]))
    decreases |parts| - i
  {
    if i == |parts| {
      assert parts[..i] == parts && parts[i..] == [];
    } else {
      FlattenSplit(parts, i + 1);
      assert parts[..i + 1][..i] == parts[..i];
      FlattenFront(parts[i..]);
      assert parts[i..][1..] == parts[i + 1..];
    }
  }

  lemma {:induction false} FlattenFront<T>(parts: seq<seq<T>>)
    requires parts != []
    ensures multiset(Flatten(parts)) == multiset(parts[0]) + multiset(Flatten(parts[1..]))
    decreases |parts|
  {
    var n := |parts| - 1;
    if n > 0 {
      FlattenFront(parts[..n]);
      assert parts[..n][1..] == parts[1..][..n - 1];
    }
  }

  /** A part of a list that fits a node is no longer than the number of blocks that fit it. */
  lemma {:induction false} PartAtMostCount<V>(numLeaves: nat, positions: Positions, node: nat, part: seq<Block<V>>,
      rest: seq<Block<V>>, stash: seq<Block<V>>)
    requires numLeaves >= 1 && AllMapped(positions, part) && AllMapped(positions, stash)
    requires multiset(part) + multiset(rest) == multiset(stash)
    requires forall k :: 0 <= k < |part| ==> Eligible(numLeaves, positions, node, part[k])
    ensures AllMapped(positions, rest)
    ensures Count(numLeaves, positions, node, stash) == |part| + Count(numLeaves, positions, node, rest)
  {
    forall k | 0 <= k < |rest|
      ensures Mapped(positions, rest[k])
    {
      assert rest[k] in multiset(rest);
      assert rest[k] in multiset(stash);
      var j :| 0 <= j < |stash| && stash[j] == rest[k];
      assert Mapped(positions, stash[j]);
    }
    CountConcat(numLeaves, positions, node, part, rest);
    CountAll(numLeaves, positions, node, part);
    CountPermuted(numLeaves, positions, node, part + rest, stash);
  }

  /** No legal placement beats the bound. */
  lemma {:induction false} LegalAtMostBest<V>(
      numLeaves: nat, positions: Positions, path: seq<nat>, capacity: nat, stash: seq<Block<V>>,
          placed: seq<Bucket<V>>, left: seq<Block<V>>, i: nat)
    requires numLeaves >= 1 && AllMapped(positions, stash) && Nested(path, numLeaves) && i <= |path|
    requires LegalPlacement(numLeaves, positions, path, capacity, stash, placed, left)
    ensures |Flatten(placed[..i])| <= Best(numLeaves, positions, path, capacity, stash, i)
    decreases i
  {
    if i > 0 {
      LegalAtMostBest(numLeaves, positions, path, capacity, stash, placed, left, i - 1);
      assert placed[..i][..i - 1] == placed[..i - 1];
      assert FitsAt(numLeaves, positions, path[i - 1], capacity, placed[i - 1]);
      FlattenFits(numLeaves, positions, path, capacity, placed[..i], path[i - 1]);
      FlattenSplit(placed, i);
      PartAtMostCount(numLeaves, positions, path[i - 1], Flatten(placed[..i]), Flatten(placed[i..]) + left, stash);
    }
  }

  /** Blocks a legal placement of the first nodes could still move further up are all among those it left. */
  lemma {:induction false} RoomAt<V>(
      numLeaves: nat, positions: Positions, path: seq<nat>, capacity: nat, stash: seq<Block<V>>,
          placed: seq<Bucket<V>>, left: seq<Block<V>>, n: nat)
    requires numLeaves >= 1 && AllMapped(positions, stash) && Nested(path, numLeaves) && n < |path|
    requires LegalPlacement(numLeaves, positions, path[..n], capacity, stash, placed, left)
    ensures Count(numLeaves, positions, path[n], stash)
            == |Flatten(placed)| + Count(numLeaves, positions, path[n], left)
  {
    assert forall k :: 0 <= k < |placed| ==> path[..n][k] == path[k];
    FlattenFits(numLeaves, positions, path, capacity, placed, path[n]);
    PartAtMostCount(numLeaves, positions, path[n], Flatten(placed), left, stash);
  }

  lemma {:induction false} EvictOneMore<V>(numLeaves: nat, positions: Positions, path: seq<nat>, capacity: nat,
      stash: seq<Block<V>>, n: nat)
    requires numLeaves >= 1 && AllMapped(positions, stash) && n < |path|
    ensures var (placed, left) := EvictAll(numLeaves, positions, path[..n], capacity, stash);
            && |Flatten(EvictAll(numLeaves, positions, path[..n + 1], capacity, stash).0)|
               == |Flatten(placed)| + Min(capacity, Count(numLeaves, positions, path[n], left))
  {
    assert path[..n + 1][..n] == path[..n];
    var (placed, left) := EvictAll(numLeaves, positions, path[..n], capacity, stash);
    SelectSplits(numLeaves, positions, path[n], capacity, left);
    assert (placed + [Select(numLeaves, positions, path[n], capacity, left).0])[..n] == placed;
  }

  lemma {:induction false} PlacedAfter<V>(numLeaves: nat, positions: Positions, path: seq<nat>, capacity: nat,
      stash: seq<Block<V>>, n: nat)
    requires numLeaves >= 1 && AllMapped(positions, stash) && Nested(path, numLeaves) && n < |path|
    ensures |Flatten(EvictAll(numLeaves, positions, path[..n + 1], capacity, stash).0)|
            == Min(|Flatten(EvictAll(numLeaves, positions, path[..n], capacity, stash).0)| + capacity,
                Count(numLeaves, positions, path[n], stash))
  {
    var (placed, left) := EvictAll(numLeaves, positions, path[..n], capacity, stash);
    EvictLegal(numLeaves, positions, path[..n], capacity, stash);
    RoomAt(numLeaves, positions, path, capacity, stash, placed, left, n);
    EvictOneMore(numLeaves, positions, path, capacity, stash, n);
    MinShift(capacity, Count(numLeaves, positions, path[n], left), |Flatten(placed)|);
  }

  lemma {:induction false} MinShift(a: nat, b: nat, d: nat)
    ensures d + Min(a, b) == Min(d + a, d + b)
  {
  }

  /** The greedy eviction reaches it. */
  lemma {:induction false} EvictReachesBest<V>(
      numLeaves: nat, positions: Positions, path: seq<nat>, capacity: nat, stash: seq<Block<V>>, i: nat)
    requires numLeaves >= 1 && AllMapped(positions, stash) && Nested(path, numLeaves) && i <= |path|
    ensures |Flatten(EvictAll(numLeaves, positions, path[..i], capacity, stash).0)|
            == Best(numLeaves, positions, path, capacity, stash, i)
    decreases i
  {
    if i > 0 {
      EvictReachesBest(numLeaves, positions, path, capacity, stash, i - 1);
      PlacedAfter(numLeaves, positions, path, capacity, stash, i - 1);
    }
  }

  lemma {:induction false} PlacedAndLeft<V>(stash: seq<Block<V>>, placed: seq<Bucket<V>>, left: seq<Block<V>>)
    requires multiset(Flatten(placed)) + multiset(left) == multiset(stash)
    ensures |Flatten(placed)| + |left| == |stash|
  {
    SameLength(Flatten(placed) + left, stash);
  }

  /**
   Greedy eviction onto a leaf's path is optimal: every legal placement of the same blocks leaves at least as
   many in the stash.
   */
  lemma {:induction false} EvictOptimal<V>(
      numLeaves: nat, positions: Positions, leaf: nat, capacity: nat, stash: seq<Block<V>>, placed: seq<Bucket<V>>,
          left: seq<Block<V>>)
    requires numLeaves >= 1 && AllMapped(positions, stash)
    requires LegalPlacement(numLeaves, positions, PathFrom(numLeaves + leaf), capacity, stash, placed, left)
    ensures |EvictAll(numLeaves, positions, PathFrom(numLeaves + leaf), capacity, stash).1| <= |left|
  {
    LeafPathNested(numLeaves, leaf);
    EvictBeats(numLeaves, positions, PathFrom(numLeaves + leaf), capacity, stash, placed, left);
  }

  lemma {:induction false} EvictBeats<V>(
      numLeaves: nat, positions: Positions, path: seq<nat>, capacity: nat, stash: seq<Block<V>>,
          placed: seq<Bucket<V>>, left: seq<Block<V>>)
    requires numLeaves >= 1 && AllMapped(positions, stash) && Nested(path, numLeaves)
    requires LegalPlacement(numLeaves, positions, path, capacity, stash, placed, left)
    ensures |EvictAll(numLeaves, positions, path, capacity, stash).1| <= |left|
  {
    assert path[..|path|] == path && placed[..|path|] == placed;
    EvictReachesBest(numLeaves, positions, path, capacity, stash, |path|);
    LegalAtMostBest(numLeaves, positions, path, capacity, stash, placed, left, |path|);
    EvictConserves(numLeaves, positions, path, capacity, stash);
    var (greedy, rest) := EvictAll(numLeaves, positions, path, capacity, stash);
    PlacedAndLeft(stash, greedy, rest);
    PlacedAndLeft(stash, placed, left);
  }

  /** A block left in the stash saw only full buckets among those it could have gone to. */
  lemma {:induction false} LeftSeesFull<V>(
      numLeaves: nat, positions: Positions, path: seq<nat>, capacity: nat, stash: seq<Block<V>>, b: Block<V>, i: nat)
    requires numLeaves >= 1 && AllMapped(positions, stash) && i < |path|
    requires b in EvictAll(numLeaves, positions, path, capacity, stash).1
    requires b.id in positions && Eligible(numLeaves, positions, path[i], b)
    ensures |EvictAll(numLeaves, positions, path, capacity, stash).0[i]| == capacity
    decreases |path|
  {
    var n := |path| - 1;
    var (placed, left) := EvictAll(numLeaves, positions, path[..n], capacity, stash);
    SelectSplits(numLeaves, positions, path[n], capacity, left);
    var (chosen, rest) := Select(numLeaves, positions, path[n], capacity, left);
    if i == n {
      PartAtMostCount(numLeaves, positions, path[n], chosen, rest, left);
      var k :| 0 <= k < |rest| && rest[k] == b;
      if Count(numLeaves, positions, path[n], rest) == 0 {
        CountNone(numLeaves, positions, path[n], rest, k);
      }
    } else {
      assert b in multiset(rest);
      assert b in multiset(left);
      LeftSeesFull(numLeaves, positions, path[..n], capacity, stash, b, i);
    }
  }
}
