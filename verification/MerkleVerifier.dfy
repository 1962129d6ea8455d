/** Multiproof verification: replaying the source flags over a queue of hashes. */
module MerkleVerifier {
  import opened Hashing
  import opened MerkleProver

  const MAX_NUMBER_TREE_LEAVES := 256

  datatype VerifyError = Empty | TooLong | TooManyHashes | WrongFlagCount | WrongProofFlagCount | NotAllUsed

  /** `Panicked` is the index-out-of-range panic of the runtime. */
  datatype Outcome<H> = Computed(root: H) | Failed(error: VerifyError) | Panicked

  /** The flags fit the supplies: each true flag merges two queued hashes, each false flag one queued and one proof hash. */
  predicate Balanced<H>(queue: seq<H>, hashes: seq<H>, flags: seq<bool>) {
    Count(flags, true) + 1 == |queue| && Count(flags, false) == |hashes|
  }

  /** The verifier seen as a FIFO: leaves first, then every produced hash in order of production. */
  function Replay<H>(hasher: Hasher<H>, queue: seq<H>, hashes: seq<H>, flags: seq<bool>): H
    requires Balanced(queue, hashes, flags)
    decreases |flags|
  {
    if flags == [] then queue[0]
    else if flags[0] then
      Replay(hasher, queue[2..] + [hasher.internal(queue[0], queue[1])], hashes, flags[1..])
    else
      Replay(hasher, queue[1..] + [hasher.internal(hashes[0], queue[0])], hashes[1..], flags[1..])
  }

  lemma {:induction false} CountsPartition(flags: seq<bool>)
    ensures Count(flags, true) + Count(flags, false) == |flags|
  {
    if flags != [] {
      CountsPartition(flags[1..]);
    }
  }

  /** What `VerifyComputeRoot` computes for every input. */
  function Verify<H>(hasher: Hasher<H>, leaves: seq<H>, proof: Proof<H>): Outcome<H> {
    var total := |leaves| + |proof.hashes| - 1;
    if |leaves| == 0 && |proof.hashes| == 0 then Failed(Empty)
    else if |leaves| > MAX_NUMBER_TREE_LEAVES + 1 || |proof.hashes| > MAX_NUMBER_TREE_LEAVES + 1 then Failed(TooLong)
    else if total > MAX_NUMBER_TREE_LEAVES then Failed(TooManyHashes)
    else if total != |proof.sourceFlags| then Failed(WrongFlagCount)
    else if total == 0 then (if |leaves| == 0 then Panicked else Computed(leaves[0]))
    else if Count(proof.sourceFlags, false) != |proof.hashes| then Failed(WrongProofFlagCount)
    else
      CountsPartition(proof.sourceFlags);
      Computed(Replay(hasher, leaves, proof.hashes, proof.sourceFlags))
  }

  method CountSourceFlags(flags: seq<bool>, b: bool) returns (count: nat)
    ensures count == Count(flags, b)
  {
    count := 0;
    for k := 0 to |flags|
      invariant Count(flags, b) == count + Count(flags[k..], b)
    {
      assert flags[k..][1..] == flags[k + 1..];
      if flags[k] == b {
        count := count + 1;
      }
    }
  }

  /** One turn of the verifier's loop, on the queue it stands for. */
  lemma ReplayStep<H>(hasher: Hasher<H>, queue: seq<H>, supply: seq<H>, flags: seq<bool>, i: nat)
    requires i < |flags| && Balanced(queue, supply, flags[i..])
    ensures if flags[i] then
              && |queue| >= 2
              && var rest := queue[2..] + [hasher.internal(queue[0], queue[1])];
              && Balanced(rest, supply, flags[i + 1..])
              && Replay(hasher, queue, supply, flags[i..]) == Replay(hasher, rest, supply, flags[i + 1..])
            else
              && |queue| >= 1 && |supply| >= 1
              && var rest := queue[1..] + [hasher.internal(supply[0], queue[0])];
              && Balanced(rest, supply[1..], flags[i + 1..])
              && Replay(hasher, queue, supply, flags[i..]) == Replay(hasher, rest, supply[1..], flags[i + 1..])
  {
    assert flags[i..][1..] == flags[i + 1..];
  }

  lemma ReplayEnd<H>(hasher: Hasher<H>, queue: seq<H>, supply: seq<H>)
    ensures Balanced(queue, supply, []) <==> |queue| == 1 && supply == []
    ensures |queue| == 1 && supply == [] ==> queue == [Replay(hasher, queue, supply, [])]
  {
  }

  /** Takes the next queued hash: a leaf while there are any, then a produced hash. */
  method Take<H>(leaves: seq<H>, produced: array<H>, leafPos: nat, hashPos: nat, ghost end: nat)
    returns (h: H, leafPos': nat, hashPos': nat)
    requires leafPos <= |leaves| && hashPos <= end <= produced.Length
    requires leafPos < |leaves| || hashPos < end
    ensures leafPos <= leafPos' <= |leaves| && hashPos <= hashPos' <= end
    ensures leafPos' < |leaves| ==> hashPos' == hashPos
    ensures [h] + (leaves[leafPos'..] + produced[hashPos'..end]) == leaves[leafPos..] + produced[hashPos..end]
  {
    if leafPos < |leaves| {
      h, leafPos', hashPos' := leaves[leafPos], leafPos + 1, hashPos;
    } else {
      h, leafPos', hashPos' := produced[hashPos], leafPos, hashPos + 1;
    }
  }

  /** The body of the loop: reads one or two queued hashes, writes `produced[i]`. */
  method CombineNext<H>(hasher: Hasher<H>, leaves: seq<H>, proof: Proof<H>, produced: array<H>,
                        leafPos: nat, hashPos: nat, proofPos: nat, i: nat, ghost queue: seq<H>)
    returns (leafPos': nat, hashPos': nat, proofPos': nat)
    requires leafPos <= |leaves| && hashPos <= i < produced.Length && i < |proof.sourceFlags|
    requires proofPos < |proof.hashes| || (proof.sourceFlags[i] && proofPos == |proof.hashes|)
    requires leafPos < |leaves| ==> hashPos == 0
    requires queue == leaves[leafPos..] + produced[hashPos..i] && |queue| >= if proof.sourceFlags[i] then 2 else 1
    modifies produced
    ensures leafPos' <= |leaves| && hashPos' <= i
    ensures leafPos' < |leaves| ==> hashPos' == 0
    ensures if proof.sourceFlags[i] then
              && proofPos' == proofPos
              && leaves[leafPos'..] + produced[hashPos'..i + 1] == queue[2..] + [hasher.internal(queue[0], queue[1])]
            else
              && proofPos' == proofPos + 1
              && leaves[leafPos'..] + produced[hashPos'..i + 1] == queue[1..] + [hasher.internal(proof.hashes[proofPos], queue[0])]
  {
    leafPos', hashPos', proofPos' := leafPos, hashPos, proofPos;
    var a: H, b: H;
    if proof.sourceFlags[i] {
      a, leafPos', hashPos' := Take(leaves, produced, leafPos', hashPos', i);
    } else {
      a := proof.hashes[proofPos'];
      proofPos' := proofPos' + 1;
    }
    b, leafPos', hashPos' := Take(leaves, produced, leafPos', hashPos', i);
    ghost var rest := leaves[leafPos'..] + produced[hashPos'..i];
    assert rest == queue[if proof.sourceFlags[i] then 2 else 1..];
    produced[i] := hasher.internal(a, b);
    assert leaves[leafPos'..] + produced[hashPos'..i + 1] == rest + [hasher.internal(a, b)];
  }

  /** The loop of `VerifyComputeRoot`, with its three cursors. The placeholder entries of `produced` are never
      read: the result depends on no value they hold, and every read stays behind the write cursor. */
  method RunLoop<H(0)>(hasher: Hasher<H>, leaves: seq<H>, proof: Proof<H>, total: nat)
    returns (produced: array<H>, leafPos: nat, hashPos: nat, proofPos: nat)
    requires leaves != [] && Balanced(leaves, proof.hashes, proof.sourceFlags) && total == |proof.sourceFlags| > 0
    ensures produced.Length == 2 * total && hashPos <= total && leafPos <= |leaves| && proofPos == |proof.hashes|
    ensures leafPos < |leaves| ==> hashPos == 0
    ensures leaves[leafPos..] + produced[hashPos..total]
         == [Replay(hasher, leaves, proof.hashes, proof.sourceFlags)]
  {
    hide Replay, Count, Balanced;
    var flags := proof.sourceFlags;
    produced := new H[2 * total];
    for k := 0 to total {
      produced[total + k] := leaves[0];
    }
    leafPos, hashPos, proofPos := 0, 0, 0;
    ghost var queue := leaves;
    assert flags[0..] == flags;
    for i := 0 to total
      invariant leafPos <= |leaves| && hashPos <= i && proofPos <= |proof.hashes|
      invariant leafPos < |leaves| ==> hashPos == 0
      invariant queue == leaves[leafPos..] + produced[hashPos..i]
      invariant Balanced(queue, proof.hashes[proofPos..], flags[i..])
      invariant Replay(hasher, queue, proof.hashes[proofPos..], flags[i..])
             == Replay(hasher, leaves, proof.hashes, flags)
    {
      ReplayStep(hasher, queue, proof.hashes[proofPos..], flags, i);
      leafPos, hashPos, proofPos := CombineNext(hasher, leaves, proof, produced, leafPos, hashPos, proofPos, i, queue);
      queue := leaves[leafPos..] + produced[hashPos..i + 1];
    }
    ReplayEnd(hasher, queue, proof.hashes[proofPos..]);
    assert flags[total..] == [];
  }

  /** `VerifyComputeRoot`. */
  method VerifyComputeRoot<H(0)>(hasher: Hasher<H>, leaves: seq<H>, proof: Proof<H>) returns (r: Outcome<H>)
    ensures r == Verify(hasher, leaves, proof)
  {
    var total := |leaves| + |proof.hashes| - 1;
    if |leaves| == 0 && |proof.hashes| == 0 {
      return Failed(Empty);
    }
    if |leaves| > MAX_NUMBER_TREE_LEAVES + 1 || |proof.hashes| > MAX_NUMBER_TREE_LEAVES + 1 {
      return Failed(TooLong);
    }
    if total > MAX_NUMBER_TREE_LEAVES {
      return Failed(TooManyHashes);
    }
    if total != |proof.sourceFlags| {
      return Failed(WrongFlagCount);
    }
    if total == 0 {
      if |leaves| == 0 {
        return Panicked;
      }
      return Computed(leaves[0]);
    }
    var sourceProofCount := CountSourceFlags(proof.sourceFlags, false);
    if sourceProofCount != |proof.hashes| {
      return Failed(WrongProofFlagCount);
    }
    CountsPartition(proof.sourceFlags);
    var produced, leafPos, hashPos, proofPos := RunLoop(hasher, leaves, proof, total);
    ghost var queue := leaves[leafPos..] + produced[hashPos..total];
    assert |queue| == 1 && queue[0] == Replay(hasher, leaves, proof.hashes, proof.sourceFlags);
    if hashPos != total - 1 || leafPos != |leaves| || proofPos != |proof.hashes| {
      return Failed(NotAllUsed);
    }
    return Computed(produced[total - 1]);
  }

  /** The only input that panics: no leaves, exactly one proof hash and no flags. */
  lemma PanicsExactlyOn<H>(hasher: Hasher<H>, leaves: seq<H>, proof: Proof<H>)
    ensures Verify(hasher, leaves, proof).Panicked?
       <==> leaves == [] && |proof.hashes| == 1 && proof.sourceFlags == []
  {
  }

  /** A root is computed exactly when the flags are balanced against the supplies, within the size limit;
      in particular the verifier never runs out of queue and never leaves a proof hash unused. */
  lemma ComputesExactlyWhenBalanced<H>(hasher: Hasher<H>, leaves: seq<H>, proof: Proof<H>)
    ensures Verify(hasher, leaves, proof).Computed?
       <==> Balanced(leaves, proof.hashes, proof.sourceFlags) && |proof.sourceFlags| <= MAX_NUMBER_TREE_LEAVES
    ensures Verify(hasher, leaves, proof).Computed?
        ==> Verify(hasher, leaves, proof).root == Replay(hasher, leaves, proof.hashes, proof.sourceFlags)
    ensures Verify(hasher, leaves, proof) != Failed(NotAllUsed)
  {
    CountsPartition(proof.sourceFlags);
  }

  /** Each error, exactly: the checks in their order, with 256 the largest number of combinations. */
  lemma FailuresExactly<H>(hasher: Hasher<H>, leaves: seq<H>, proof: Proof<H>)
    ensures var r, l, p, f := Verify(hasher, leaves, proof), |leaves|, |proof.hashes|, |proof.sourceFlags|;
            var fromProof := |set i | 0 <= i < f && !proof.sourceFlags[i]|;
            && (r == Failed(Empty) <==> l + p == 0)
            && (r == Failed(TooLong) <==> l > 257 || p > 257)
            && (r == Failed(TooManyHashes) <==> l <= 257 && p <= 257 && l + p > 257)
            && (r == Failed(WrongFlagCount) <==> 1 <= l + p <= 257 && f + 1 != l + p)
            && (r == Failed(WrongProofFlagCount) <==> 2 <= l + p <= 257 && f + 1 == l + p && fromProof != p)
  {
    CountMeaning(proof.sourceFlags, false);
    assert (set i | 0 <= i < |proof.sourceFlags| && !proof.sourceFlags[i])
        == (set i | 0 <= i < |proof.sourceFlags| && proof.sourceFlags[i] == false);
    CountsPartition(proof.sourceFlags);
  }

  /** The order of the operands: a proof hash comes first; of two queued hashes the older one; leaves are older than
      produced hashes. */
  lemma SmallVerifications<H>(hasher: Hasher<H>, x: H, y: H, z: H, p: H)
    ensures Verify(hasher, [x], Proof([], [])) == Computed(x)
    ensures Verify(hasher, [x], Proof([p], [false])) == Computed(hasher.internal(p, x))
    ensures Verify(hasher, [x, y], Proof([], [true])) == Computed(hasher.internal(x, y))
    ensures Verify(hasher, [x, y, z], Proof([], [true, true])) == Computed(hasher.internal(z, hasher.internal(x, y)))
  {
    ReplaysOne(hasher, x, y, p);
    ReplaysThree(hasher, x, y, z);
    hide Replay, Count, Balanced, Verify;
    ComputesExactlyWhenBalanced(hasher, [x], Proof([], []));
    ComputesExactlyWhenBalanced(hasher, [x], Proof([p], [false]));
    ComputesExactlyWhenBalanced(hasher, [x, y], Proof([], [true]));
    ComputesExactlyWhenBalanced(hasher, [x, y, z], Proof([], [true, true]));
  }

  lemma ReplaysOne<H>(hasher: Hasher<H>, x: H, y: H, p: H)
    ensures Balanced([x], [], []) && Replay(hasher, [x], [], []) == x
    ensures Balanced([x], [p], [false]) && Replay(hasher, [x], [p], [false]) == hasher.internal(p, x)
    ensures Balanced([x, y], [], [true]) && Replay(hasher, [x, y], [], [true]) == hasher.internal(x, y)
  {
    assert [true][1..] == [] && [false][1..] == [];
    assert Balanced([x], [], []) && Balanced([x], [p], [false]) && Balanced([x, y], [], [true]);
    assert [x][1..] + [hasher.internal(p, x)] == [hasher.internal(p, x)] && [p][1..] == [];
    assert [x, y][2..] + [hasher.internal(x, y)] == [hasher.internal(x, y)];
  }

  lemma ReplaysThree<H>(hasher: Hasher<H>, x: H, y: H, z: H)
    ensures Balanced([x, y, z], [], [true, true])
    ensures Replay(hasher, [x, y, z], [], [true, true]) == hasher.internal(z, hasher.internal(x, y))
  {
    assert [true][1..] == [] && [true, true][1..] == [true];
    assert Count([true], true) == 1 && Count([true], false) == 0;
    var xy := hasher.internal(x, y);
    ReplaysOne(hasher, z, xy, z);
    assert [x, y, z][2..] + [xy] == [z, xy];
  }
}
