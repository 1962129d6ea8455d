/** Every proof the prover makes is accepted by the verifier and yields the tree's root. */
module MerkleCompleteness {
  import opened Hashing
  import opened MerkleTree
  import opened MerkleProver
  import opened MerkleVerifier

  /** Strictly increasing indices below `bound`. */
  ghost predicate Ascending(indices: seq<int>, bound: int) {
    && (forall i :: 0 <= i < |indices| ==> 0 <= indices[i] < bound)
    && (forall i, j :: 0 <= i < j < |indices| ==> indices[i] < indices[j])
  }

  ghost predicate InRange(indices: seq<int>, bound: int) {
    forall i :: 0 <= i < |indices| ==> 0 <= indices[i] < bound
  }

  /** The hashes of a layer at the given indices, in index order. */
  function Select<H>(layer: seq<H>, indices: seq<int>): (selected: seq<H>)
    requires InRange(indices, |layer|)
    ensures |selected| == |indices|
  {
    seq(|indices|, i requires 0 <= i < |indices| => layer[indices[i]])
  }

  // ---------- one layer ----------

  /** The index after a node's one or two children belongs to a later parent. */
  lemma TailIsLater(indices: seq<int>, bound: nat)
    requires indices != [] && Ascending(indices, bound)
    ensures Ascending(Tail(indices), bound)
    ensures Tail(indices) != [] ==> Tail(indices)[0] / 2 > indices[0] / 2
  {
  }

  lemma ConsAscending(head: int, tail: seq<int>, bound: int)
    requires 0 <= head < bound && Ascending(tail, bound)
    requires tail != [] ==> head < tail[0]
    ensures Ascending([head] + tail, bound)
  {
  }

  /** Parents of strictly increasing in-range indices are strictly increasing and in range. */
  lemma {:induction false} NextAscending(indices: seq<int>, bound: nat)
    requires bound % 2 == 0 && Ascending(indices, bound)
    ensures Ascending(NextIndices(indices), bound / 2)
    ensures indices != [] ==> NextIndices(indices) != [] && NextIndices(indices)[0] == indices[0] / 2
    decreases |indices|
  {
    if indices != [] {
      var tail := Tail(indices);
      TailIsLater(indices, bound);
      NextAscending(tail, bound);
      assert tail == [] ==> NextIndices(tail) == [];
      ConsAscending(indices[0] / 2, NextIndices(tail), bound / 2);
    }
  }

  lemma {:induction false} AuthInRange(indices: seq<int>, bound: nat)
    requires bound % 2 == 0 && Ascending(indices, bound)
    ensures InRange(AuthIndices(indices), bound)
    decreases |indices|
  {
    if indices != [] {
      AuthInRange(Tail(indices), bound);
    }
  }

  lemma {:induction false} LookupInRange<H>(layer: seq<H>, indices: seq<int>)
    requires InRange(indices, |layer|)
    ensures Lookup(layer, indices) == LayerProved([], Select(layer, indices), [])
  {
    if indices != [] {
      LookupInRange(layer, indices[1..]);
      assert Select(layer, indices) == [layer[indices[0]]] + Select(layer, indices[1..]);
    }
  }

  lemma {:induction false} CountConcat(a: seq<bool>, b: seq<bool>, flag: bool)
    ensures Count(a + b, flag) == Count(a, flag) + Count(b, flag)
  {
    if a == [] {
      assert a + b == b;
    } else {
      assert (a + b)[1..] == a[1..] + b;
      CountConcat(a[1..], b, flag);
    }
  }

  /** Each index of a layer either is paired (true flag) or costs one proof hash (false flag). */
  lemma {:induction false} LayerCounts(indices: seq<int>)
    ensures |SourceFlags(indices)| == |NextIndices(indices)| <= |indices|
    ensures Count(SourceFlags(indices), false) == |AuthIndices(indices)|
    ensures Count(SourceFlags(indices), true) + |NextIndices(indices)| == |indices|
    decreases |indices|
  {
    if indices != [] {
      LayerCounts(Tail(indices));
      CountConcat([HeadIsPair(indices)], SourceFlags(Tail(indices)), true);
      CountConcat([HeadIsPair(indices)], SourceFlags(Tail(indices)), false);
    }
  }

  /** The verifier's combination for the first index is the tree's own parent node. */
  lemma CombinedIsParent<H(!new)>(hasher: Hasher<H>, layer: seq<H>, indices: seq<int>)
    requires Commutative(hasher) && |layer| % 2 == 0 && indices != [] && Ascending(indices, |layer|)
    ensures var x := indices[0];
            && 0 <= SiblingIndex(x) < |layer|
            && Parents(hasher, layer)[x / 2] == hasher.internal(layer[SiblingIndex(x)], layer[x])
            && Parents(hasher, layer)[x / 2] == hasher.internal(layer[x], layer[SiblingIndex(x)])
  {
    var x := indices[0];
    var i := x / 2;
    assert Parents(hasher, layer)[i] == hasher.internal(layer[2 * i], layer[2 * i + 1]);
  }

  /** A verifier in the first situation computes what it computes in the second. */
  ghost predicate SameReplay<H>(hasher: Hasher<H>, queue: seq<H>, hashes: seq<H>, flags: seq<bool>,
                                queue': seq<H>, hashes': seq<H>, flags': seq<bool>)
  {
    Balanced(queue, hashes, flags) ==>
      Balanced(queue', hashes', flags') && Replay(hasher, queue, hashes, flags) == Replay(hasher, queue', hashes', flags')
  }

  lemma SameReplayTrans<H>(hasher: Hasher<H>, q: seq<H>, h: seq<H>, f: seq<bool>,
                           q': seq<H>, h': seq<H>, f': seq<bool>, q'': seq<H>, h'': seq<H>, f'': seq<bool>)
    requires SameReplay(hasher, q, h, f, q', h', f') && SameReplay(hasher, q', h', f', q'', h'', f'')
    ensures SameReplay(hasher, q, h, f, q'', h'', f'')
  {
    hide Replay, Balanced;
  }

  /** Replaying one layer's flags turns the queue of this layer's selected hashes into the queue of the parents. */
  lemma {:induction false} LayerReplay<H(!new)>(hasher: Hasher<H>, layer: seq<H>, indices: seq<int>,
                                                out: seq<H>, supply: seq<H>, flags: seq<bool>)
    requires Commutative(hasher) && |layer| % 2 == 0 && Ascending(indices, |layer|)
    requires InRange(AuthIndices(indices), |layer|) && InRange(NextIndices(indices), |layer| / 2)
    ensures SameReplay(hasher,
                       Select(layer, indices) + out, Select(layer, AuthIndices(indices)) + supply, SourceFlags(indices) + flags,
                       out + Select(Parents(hasher, layer), NextIndices(indices)), supply, flags)
    decreases |indices|
  {
    hide Replay, Balanced, Parents;
    var parents := Parents(hasher, layer);
    if indices == [] {
      assert Select(layer, indices) + out == out + Select(parents, []);
      assert Select(layer, []) + supply == supply;
      assert SourceFlags(indices) + flags == flags;
    } else {
      hide Select, SameReplay, AuthIndices, SourceFlags, Commutative;
      var tail := Tail(indices);
      var parent := parents[indices[0] / 2];
      LayerReplayHead(hasher, layer, indices, out, supply, flags);
      AuthInRange(tail, |layer|);
      NextAscending(tail, |layer|);
      LayerReplay(hasher, layer, tail, out + [parent], supply, flags);
      SelectHead(parents, NextIndices(indices), out);
      assert NextIndices(indices) == [indices[0] / 2] + NextIndices(tail);
      SameReplayTrans(hasher,
        Select(layer, indices) + out, Select(layer, AuthIndices(indices)) + supply, SourceFlags(indices) + flags,
        Select(layer, tail) + (out + [parent]), Select(layer, AuthIndices(tail)) + supply, SourceFlags(tail) + flags,
        (out + [parent]) + Select(parents, NextIndices(tail)), supply, flags);
    }
  }

  lemma SelectHead<H>(layer: seq<H>, indices: seq<int>, out: seq<H>)
    requires InRange(indices, |layer|) && indices != []
    ensures out + Select(layer, indices) == (out + [layer[indices[0]]]) + Select(layer, indices[1..])
  {
  }

  /** What popping the first index off the queue, and pushing its parent, leaves. */
  lemma QueueAfterHead<H(!new)>(hasher: Hasher<H>, layer: seq<H>, indices: seq<int>, out: seq<H>, supply: seq<H>)
    requires Commutative(hasher) && |layer| % 2 == 0 && indices != [] && Ascending(indices, |layer|)
    requires InRange(AuthIndices(indices), |layer|)
    ensures var tail := Tail(indices);
            var queue := Select(layer, indices) + out;
            var hashes := Select(layer, AuthIndices(indices)) + supply;
            var parent := Parents(hasher, layer)[indices[0] / 2];
            && InRange(AuthIndices(tail), |layer|)
            && var rest := Select(layer, tail) + (out + [parent]);
            && var restHashes := Select(layer, AuthIndices(tail)) + supply;
            if HeadIsPair(indices) then
              |queue| >= 2 && rest == queue[2..] + [hasher.internal(queue[0], queue[1])] && restHashes == hashes
            else
              |queue| >= 1 && |hashes| >= 1 && rest == queue[1..] + [hasher.internal(hashes[0], queue[0])] && restHashes == hashes[1..]
  {
    hide Parents, Select;
    var tail := Tail(indices);
    var x := indices[0];
    AuthInRange(tail, |layer|);
    CombinedIsParent(hasher, layer, indices);
    if HeadIsPair(indices) {
      assert AuthIndices(indices) == AuthIndices(tail);
      SelectDrop(layer, indices, 2);
      DropAndPush(Select(layer, indices), out, 2, Parents(hasher, layer)[x / 2]);
    } else {
      SelectDrop(layer, indices, 1);
      DropAndPush(Select(layer, indices), out, 1, Parents(hasher, layer)[x / 2]);
      var auth := AuthIndices(indices);
      assert auth == [SiblingIndex(x)] + AuthIndices(tail) && auth[1..] == AuthIndices(tail);
      SelectDrop(layer, auth, 1);
      DropAndPush(Select(layer, auth), supply, 1, layer[x]);
    }
  }

  lemma SelectDrop<H>(layer: seq<H>, indices: seq<int>, n: nat)
    requires InRange(indices, |layer|) && n <= |indices|
    ensures Select(layer, indices)[n..] == Select(layer, indices[n..])
    ensures forall k :: 0 <= k < n ==> Select(layer, indices)[k] == layer[indices[k]]
  {
  }

  lemma DropAndPush<T>(front: seq<T>, back: seq<T>, n: nat, x: T)
    requires n <= |front|
    ensures (front + back)[n..] == front[n..] + back
    ensures (front + back)[n..] + [x] == front[n..] + (back + [x])
    ensures forall k :: 0 <= k < n ==> (front + back)[k] == front[k]
  {
  }

  /** The first flag of a layer, replayed. */
  lemma LayerReplayHead<H(!new)>(hasher: Hasher<H>, layer: seq<H>, indices: seq<int>,
                                 out: seq<H>, supply: seq<H>, flags: seq<bool>)
    requires Commutative(hasher) && |layer| % 2 == 0 && indices != [] && Ascending(indices, |layer|)
    requires InRange(AuthIndices(indices), |layer|)
    ensures var tail := Tail(indices);
            && InRange(AuthIndices(tail), |layer|)
            && SameReplay(hasher,
                 Select(layer, indices) + out, Select(layer, AuthIndices(indices)) + supply, SourceFlags(indices) + flags,
                 Select(layer, tail) + (out + [Parents(hasher, layer)[indices[0] / 2]]),
                 Select(layer, AuthIndices(tail)) + supply, SourceFlags(tail) + flags)
  {
    hide SameReplay, Select, Parents, AuthIndices, Commutative;
    TailIsLater(indices, |layer|);
    QueueAfterHead(hasher, layer, indices, out, supply);
    var tail := Tail(indices);
    var pair := HeadIsPair(indices);
    FlagsHead(indices, flags);
    ReplayHead(hasher, Select(layer, indices) + out, Select(layer, AuthIndices(indices)) + supply, pair, SourceFlags(tail) + flags,
               Select(layer, tail) + (out + [Parents(hasher, layer)[indices[0] / 2]]), Select(layer, AuthIndices(tail)) + supply);
  }

  lemma FlagsHead(indices: seq<int>, flags: seq<bool>)
    requires indices != []
    ensures SourceFlags(indices) + flags == [HeadIsPair(indices)] + (SourceFlags(Tail(indices)) + flags)
  {
  }

  lemma ReplayHead<H>(hasher: Hasher<H>, queue: seq<H>, hashes: seq<H>, pair: bool, flags: seq<bool>, rest: seq<H>, restHashes: seq<H>)
    requires if pair then
               |queue| >= 2 && rest == queue[2..] + [hasher.internal(queue[0], queue[1])] && restHashes == hashes
             else
               |queue| >= 1 && |hashes| >= 1 && rest == queue[1..] + [hasher.internal(hashes[0], queue[0])] && restHashes == hashes[1..]
    ensures SameReplay(hasher, queue, hashes, [pair] + flags, rest, restHashes, flags)
  {
    assert ([pair] + flags)[1..] == flags;
  }

  // ---------- the whole tree ----------

  /** Number of internal nodes over `n` leaves, counting the parents of padding. */
  function NodeCount(n: nat): nat {
    if n <= 1 then 0 else (n + 1) / 2 + NodeCount((n + 1) / 2)
  }

  lemma {:induction false} AscendingLength(indices: seq<int>, bound: nat)
    requires Ascending(indices, bound)
    ensures |indices| <= bound
    decreases bound
  {
    if indices != [] {
      var front := indices[..|indices| - 1];
      AscendingLength(front, indices[|indices| - 1]);
    }
  }

  /** The prover handed out a proof that the verifier's queue replays to the root. */
  ghost predicate ReplaysToRoot<H(!new)>(hasher: Hasher<H>, leaves: seq<H>, indices: seq<int>)
    requires leaves != [] && InRange(indices, |Padded(hasher, leaves)|)
  {
    var r := ProofFrom(Layers(hasher, leaves), indices);
    var queue := Select(Padded(hasher, leaves), indices);
    && r.Proved?
    && Balanced(queue, r.proof.hashes, r.proof.sourceFlags)
    && Replay(hasher, queue, r.proof.hashes, r.proof.sourceFlags) == RootOf(hasher, leaves)
    && |r.proof.sourceFlags| <= NodeCount(|leaves|)
  }

  /** The prover's recursion: this layer's part in front of the part of the tree above. */
  lemma ProofOfLayer<H(!new)>(hasher: Hasher<H>, leaves: seq<H>, indices: seq<int>)
    requires |leaves| > 1 && Ascending(indices, |Padded(hasher, leaves)|)
    ensures var layer := Padded(hasher, leaves);
            && InRange(AuthIndices(indices), |layer|)
            && var above := ProofFrom(Layers(hasher, Parents(hasher, layer)), NextIndices(indices));
               above.Proved? ==>
                 ProofFrom(Layers(hasher, leaves), indices)
                 == Proved(Proof(Select(layer, AuthIndices(indices)) + above.proof.hashes,
                                 SourceFlags(indices) + above.proof.sourceFlags))
  {
    hide Parents, Padded, AuthIndices, SourceFlags, NextIndices;
    var layer := Padded(hasher, leaves);
    PaddedEven(hasher, leaves);
    AuthInRange(indices, |layer|);
    LookupInRange(layer, AuthIndices(indices));
    var layers := Layers(hasher, leaves);
    assert layers[0] == layer && layers[1..] == Layers(hasher, Parents(hasher, layer));
  }

  lemma PaddedEven<H>(hasher: Hasher<H>, leaves: seq<H>)
    requires |leaves| > 1
    ensures |Padded(hasher, leaves)| == 2 * ((|leaves| + 1) / 2)
  {
  }

  lemma LayerBalanced<H>(indices: seq<int>, queue: seq<H>, auth: seq<H>, parents: seq<H>, hashes: seq<H>, flags: seq<bool>)
    requires |queue| == |indices| && |auth| == |AuthIndices(indices)| && |parents| == |NextIndices(indices)|
    requires Balanced(parents, hashes, flags)
    ensures Balanced(queue, auth + hashes, SourceFlags(indices) + flags)
  {
    LayerCounts(indices);
    CountConcat(SourceFlags(indices), flags, true);
    CountConcat(SourceFlags(indices), flags, false);
  }

  /** Induction step: a proof for the parents extends to a proof for the layer below. */
  lemma ReplaysThroughLayer<H(!new)>(hasher: Hasher<H>, leaves: seq<H>, indices: seq<int>)
    requires Commutative(hasher) && |leaves| > 1 && indices != [] && Ascending(indices, |Padded(hasher, leaves)|)
    requires var parents := Parents(hasher, Padded(hasher, leaves));
             && InRange(NextIndices(indices), |parents|)
             && ReplaysToRoot(hasher, parents, NextIndices(indices))
    ensures ReplaysToRoot(hasher, leaves, indices)
  {
    hide AuthIndices, SourceFlags, NextIndices, Replay, ProofFrom, Parents, Count, Balanced, Select, Layers, RootOf;
    var layer := Padded(hasher, leaves);
    var parents := Parents(hasher, layer);
    var next := NextIndices(indices);
    SelectPadded(hasher, parents, next);
    var above := ProofFrom(Layers(hasher, parents), next).proof;
    ProofOfLayer(hasher, leaves, indices);
    LayerCounts(indices);
    NextAscending(indices, |layer|);
    AscendingLength(next, |parents|);
    var auth := Select(layer, AuthIndices(indices));
    LayerBalanced(indices, Select(layer, indices), auth, Select(parents, next), above.hashes, above.sourceFlags);
    WholeLayerReplay(hasher, layer, indices, above.hashes, above.sourceFlags);
    RootOfParents(hasher, leaves);
  }

  lemma WholeLayerReplay<H(!new)>(hasher: Hasher<H>, layer: seq<H>, indices: seq<int>, supply: seq<H>, flags: seq<bool>)
    requires Commutative(hasher) && |layer| % 2 == 0 && Ascending(indices, |layer|)
    requires InRange(AuthIndices(indices), |layer|) && InRange(NextIndices(indices), |layer| / 2)
    requires Balanced(Select(layer, indices), Select(layer, AuthIndices(indices)) + supply, SourceFlags(indices) + flags)
    ensures var parents := Select(Parents(hasher, layer), NextIndices(indices));
            && Balanced(parents, supply, flags)
            && Replay(hasher, Select(layer, indices), Select(layer, AuthIndices(indices)) + supply, SourceFlags(indices) + flags)
               == Replay(hasher, parents, supply, flags)
  {
    hide Replay, Balanced, Parents, Select;
    assert Select(layer, indices) + [] == Select(layer, indices);
    LayerReplay(hasher, layer, indices, [], supply, flags);
    var parents := Select(Parents(hasher, layer), NextIndices(indices));
    assert [] + parents == parents;
  }

  lemma RootOfParents<H>(hasher: Hasher<H>, leaves: seq<H>)
    requires |leaves| > 1
    ensures RootOf(hasher, leaves) == RootOf(hasher, Parents(hasher, Padded(hasher, leaves)))
  {
  }

  lemma SelectPadded<H>(hasher: Hasher<H>, layer: seq<H>, indices: seq<int>)
    requires InRange(indices, |layer|)
    ensures Select(Padded(hasher, layer), indices) == Select(layer, indices)
  {
  }

  /** Proving succeeds on every strictly increasing selection, and its proof replays to the root. */
  lemma {:induction false} ProofReplaysToRoot<H(!new)>(hasher: Hasher<H>, leaves: seq<H>, indices: seq<int>)
    requires Commutative(hasher) && leaves != [] && indices != [] && Ascending(indices, |Padded(hasher, leaves)|)
    ensures ReplaysToRoot(hasher, leaves, indices)
    decreases |leaves|
  {
    var layer := Padded(hasher, leaves);
    if |leaves| == 1 {
      assert indices == [0] by { AscendingLength(indices, 1); }
      assert Layers(hasher, leaves) == [leaves] && Select(layer, indices) == leaves;
    } else {
      NextAscending(indices, |layer|);
      ProofReplaysToRoot(hasher, Parents(hasher, layer), NextIndices(indices));
      ReplaysThroughLayer(hasher, leaves, indices);
    }
  }

  lemma {:induction false} NodeCountBound(n: nat, capacity: nat)
    requires n <= capacity && IsPowerOfTwo(capacity)
    ensures NodeCount(n) < capacity
    decreases capacity
  {
    if n > 1 {
      NodeCountBound((n + 1) / 2, capacity / 2);
    }
  }

  /** Conservation of proof sizes, and the bound that keeps trees of the maximal size verifiable. */
  lemma ProofSize<H(!new)>(hasher: Hasher<H>, leaves: seq<H>, indices: seq<int>)
    requires Commutative(hasher) && leaves != [] && indices != [] && Ascending(indices, |Padded(hasher, leaves)|)
    ensures var r := ProofFrom(Layers(hasher, leaves), indices);
            && r.Proved?
            && |r.proof.sourceFlags| + 1 == |indices| + |r.proof.hashes|
            && Count(r.proof.sourceFlags, false) == |r.proof.hashes|
            && |r.proof.sourceFlags| <= NodeCount(|leaves|)
            && (|leaves| <= 256 ==> |r.proof.sourceFlags| <= 255)
  {
    hide ProofFrom, NodeCount, Replay, Count;
    ProofReplaysToRoot(hasher, leaves, indices);
    CountsPartition(ProofFrom(Layers(hasher, leaves), indices).proof.sourceFlags);
    if |leaves| <= MAX_NUMBER_TREE_LEAVES {
      assert IsPowerOfTwo(4);
      assert IsPowerOfTwo(16);
      assert IsPowerOfTwo(64);
      assert IsPowerOfTwo(256);
      NodeCountBound(|leaves|, MAX_NUMBER_TREE_LEAVES);
    }
  }

  /** Completeness for trees of any size: the made proof verifies to the root exactly when it fits the flag limit. */
  lemma CompletenessAnySize<H(!new)>(hasher: Hasher<H>, leaves: seq<H>, indices: seq<int>)
    requires Commutative(hasher) && leaves != [] && indices != [] && Ascending(indices, |leaves|)
    ensures var r := ProofFrom(Layers(hasher, leaves), indices);
            && r.Proved?
            && var outcome := Verify(hasher, Select(leaves, indices), r.proof);
               if |r.proof.sourceFlags| <= 256
               then outcome == Computed(RootOf(hasher, leaves))
               else outcome in {Failed(TooLong), Failed(TooManyHashes)}
  {
    hide Replay, Count, Balanced, ProofFrom, Layers, Select, RootOf, NodeCount, Verify;
    SelectPadded(hasher, leaves, indices);
    ProofReplaysToRoot(hasher, leaves, indices);
    var proof := ProofFrom(Layers(hasher, leaves), indices).proof;
    ComputesExactlyWhenBalanced(hasher, Select(leaves, indices), proof);
    OversizeFails(hasher, Select(leaves, indices), proof);
  }

  lemma OversizeFails<H>(hasher: Hasher<H>, leaves: seq<H>, proof: Proof<H>)
    requires Balanced(leaves, proof.hashes, proof.sourceFlags)
    ensures |proof.sourceFlags| > MAX_NUMBER_TREE_LEAVES
        ==> Verify(hasher, leaves, proof) in {Failed(TooLong), Failed(TooManyHashes)}
  {
    CountsPartition(proof.sourceFlags);
  }

  /** Completeness: every tree of at most 256 leaves, every non-empty strictly increasing selection of them. */
  lemma Completeness<H(!new)>(hasher: Hasher<H>, leaves: seq<H>, indices: seq<int>)
    requires Commutative(hasher) && 0 < |leaves| <= 256
    requires indices != [] && Ascending(indices, |leaves|)
    ensures var r := ProofFrom(Layers(hasher, leaves), indices);
            r.Proved? && Verify(hasher, Select(leaves, indices), r.proof) == Computed(RootOf(hasher, leaves))
  {
    ProofSize(hasher, leaves, indices);
    CompletenessAnySize(hasher, leaves, indices);
  }
}
