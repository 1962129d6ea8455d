/** Multiproof generation: one pass over the sorted indices per layer. */
module MerkleProver {
  import opened MerkleTree
  import opened Hashing

  /** true: the operand comes from the verifier's own queue; false: from the proof. */
  datatype Proof<H> = Proof(hashes: seq<H>, sourceFlags: seq<bool>)

  datatype ProofResult<H> = Proved(proof: Proof<H>) | AuthOutOfBounds(index: int)

  datatype LayerResult<H> =
    | LayerProved(nextIndices: seq<int>, subProof: seq<H>, sourceFlags: seq<bool>)
    | LayerOutOfBounds(index: int)

  function Count(flags: seq<bool>, flag: bool): (n: nat)
    ensures n <= |flags|
  {
    if flags == [] then 0 else (if flags[0] == flag then 1 else 0) + Count(flags[1..], flag)
  }

  /** Integer division rounding toward zero. */
  function ParentIndex(idx: int): int {
    if idx >= 0 then idx / 2 else -(-idx / 2)
  }

  /** `idx ^ 1` on two's complement integers. */
  function SiblingIndex(idx: int): int {
    if idx % 2 == 0 then idx + 1 else idx - 1
  }

  /** The first two indices are the two children of one node. */
  predicate HeadIsPair(indices: seq<int>) {
    |indices| >= 2 && indices[1] == SiblingIndex(indices[0])
  }

  function Tail(indices: seq<int>): (tail: seq<int>)
    requires indices != []
    ensures |tail| < |indices|
  {
    if HeadIsPair(indices) then indices[2..] else indices[1..]
  }

  function NextIndices(indices: seq<int>): seq<int> {
    if indices == [] then [] else [ParentIndex(indices[0])] + NextIndices(Tail(indices))
  }

  function SourceFlags(indices: seq<int>): seq<bool> {
    if indices == [] then [] else [HeadIsPair(indices)] + SourceFlags(Tail(indices))
  }

  function AuthIndices(indices: seq<int>): seq<int> {
    if indices == [] then []
    else (if HeadIsPair(indices) then [] else [SiblingIndex(indices[0])]) + AuthIndices(Tail(indices))
  }

  /** Looks the indices up in the layer, reporting the first one that is out of bounds. */
  function Lookup<H>(layer: seq<H>, indices: seq<int>): LayerResult<H> {
    if indices == [] then LayerProved([], [], [])
    else if 0 <= indices[0] < |layer| then
      match Lookup(layer, indices[1..])
      case LayerProved(_, rest, _) => LayerProved([], [layer[indices[0]]] + rest, [])
      case bad => bad
    else LayerOutOfBounds(indices[0])
  }

  function LayerProof<H>(layer: seq<H>, indices: seq<int>): LayerResult<H> {
    match Lookup(layer, AuthIndices(indices))
    case LayerProved(_, subProof, _) => LayerProved(NextIndices(indices), subProof, SourceFlags(indices))
    case bad => bad
  }

  /** The proof collected from the bottom layer up to, but excluding, the root layer. */
  function ProofFrom<H>(layers: seq<seq<H>>, indices: seq<int>): ProofResult<H> {
    if |layers| <= 1 then Proved(Proof([], []))
    else
      match LayerProof(layers[0], indices)
      case LayerOutOfBounds(i) => AuthOutOfBounds(i)
      case LayerProved(next, subProof, flags) =>
        match ProofFrom(layers[1..], next)
        case AuthOutOfBounds(i) => AuthOutOfBounds(i)
        case Proved(rest) => Proved(Proof(subProof + rest.hashes, flags + rest.sourceFlags))
  }

  lemma LookupNothing<H>(layer: seq<H>)
    ensures Lookup(layer, []) == LayerProved([], [], [])
  {
  }

  lemma {:induction false} LookupSnoc<H>(layer: seq<H>, indices: seq<int>, k: nat)
    requires k < |indices|
    requires Lookup(layer, indices[..k]).LayerProved?
    ensures var sub := Lookup(layer, indices[..k]).subProof;
            if 0 <= indices[k] < |layer|
            then Lookup(layer, indices[..k + 1]) == LayerProved([], sub + [layer[indices[k]]], [])
            else Lookup(layer, indices) == LayerOutOfBounds(indices[k])
  {
    if k == 0 {
      assert indices[..1][1..] == [];
    } else {
      assert indices[1..][..k - 1] == indices[..k][1..];
      assert indices[1..][..k] == indices[..k + 1][1..];
      LookupSnoc(layer, indices[1..], k - 1);
    }
  }

  /** The pairing loop at cursor `j`: what it has emitted, followed by what the rest will emit, is the whole answer. */
  ghost predicate PairedUpTo(indices: seq<int>, j: nat, next: seq<int>, flags: seq<bool>, auth: seq<int>) {
    && j <= |indices|
    && NextIndices(indices) == next + NextIndices(indices[j..])
    && SourceFlags(indices) == flags + SourceFlags(indices[j..])
    && AuthIndices(indices) == auth + AuthIndices(indices[j..])
  }

  lemma PairingStarts(indices: seq<int>)
    ensures PairedUpTo(indices, 0, [], [], [])
  {
    assert indices[0..] == indices;
  }

  lemma PairingEnds(indices: seq<int>, next: seq<int>, flags: seq<bool>, auth: seq<int>)
    requires PairedUpTo(indices, |indices|, next, flags, auth)
    ensures next == NextIndices(indices) && flags == SourceFlags(indices) && auth == AuthIndices(indices)
  {
    var rest := indices[|indices|..];
    assert rest == [];
    assert NextIndices(rest) == [] && SourceFlags(rest) == [] && AuthIndices(rest) == [];
  }

  lemma PairingStep(indices: seq<int>, j: nat, next: seq<int>, flags: seq<bool>, auth: seq<int>)
    requires j < |indices| && PairedUpTo(indices, j, next, flags, auth)
    ensures var pair := j + 1 < |indices| && indices[j + 1] == SiblingIndex(indices[j]);
            PairedUpTo(indices, if pair then j + 2 else j + 1, next + [ParentIndex(indices[j])], flags + [pair],
                       if pair then auth else auth + [SiblingIndex(indices[j])])
  {
    hide NextIndices, SourceFlags, AuthIndices;
    var pair := j + 1 < |indices| && indices[j + 1] == SiblingIndex(indices[j]);
    var rest := indices[if pair then j + 2 else j + 1..];
    UnfoldAt(indices, j);
    Reassociate(next, [ParentIndex(indices[j])], NextIndices(rest));
    Reassociate(flags, [pair], SourceFlags(rest));
    Reassociate(auth, if pair then [] else [SiblingIndex(indices[j])], AuthIndices(rest));
  }

  lemma Reassociate<T>(a: seq<T>, b: seq<T>, c: seq<T>)
    ensures a + (b + c) == (a + b) + c
  {
  }

  lemma UnfoldAt(indices: seq<int>, j: nat)
    requires j < |indices|
    ensures var pair := j + 1 < |indices| && indices[j + 1] == SiblingIndex(indices[j]);
            var rest := indices[if pair then j + 2 else j + 1..];
            && NextIndices(indices[j..]) == [ParentIndex(indices[j])] + NextIndices(rest)
            && SourceFlags(indices[j..]) == [pair] + SourceFlags(rest)
            && AuthIndices(indices[j..]) == (if pair then [] else [SiblingIndex(indices[j])]) + AuthIndices(rest)
  {
    assert Tail(indices[j..]) == indices[if HeadIsPair(indices[j..]) then j + 2 else j + 1..];
  }

  method ProveSingleLayer<H>(layer: seq<H>, indices: seq<int>) returns (r: LayerResult<H>)
    ensures r == LayerProof(layer, indices)
  {
    hide PairedUpTo, NextIndices, SourceFlags, AuthIndices, Lookup;
    var authIndices: seq<int>, nextIndices: seq<int>, sourceFlags: seq<bool> := [], [], [];
    var j := 0;
    PairingStarts(indices);
    while j < |indices|
      invariant 0 <= j <= |indices|
      invariant PairedUpTo(indices, j, nextIndices, sourceFlags, authIndices)
    {
      PairingStep(indices, j, nextIndices, sourceFlags, authIndices);
      var x := indices[j];
      nextIndices := nextIndices + [ParentIndex(x)];
      if j + 1 < |indices| && indices[j + 1] == SiblingIndex(x) {
        j := j + 1;
        sourceFlags := sourceFlags + [true];
      } else {
        authIndices := authIndices + [SiblingIndex(x)];
        sourceFlags := sourceFlags + [false];
      }
      j := j + 1;
    }
    PairingEnds(indices, nextIndices, sourceFlags, authIndices);
    var subProof: seq<H> := [];
    LookupNothing(layer);
    for k := 0 to |authIndices|
      invariant Lookup(layer, authIndices[..k]) == LayerProved([], subProof, [])
    {
      var i := authIndices[k];
      LookupSnoc(layer, authIndices, k);
      if i < 0 || i >= |layer| {
        return LayerOutOfBounds(i);
      }
      subProof := subProof + [layer[i]];
    }
    assert authIndices[..|authIndices|] == authIndices;
    return LayerProved(nextIndices, subProof, sourceFlags);
  }

  /** Prefixes a proof with the part collected from the layers below it. */
  function Prefixed<H>(below: Proof<H>, r: ProofResult<H>): ProofResult<H> {
    match r
    case AuthOutOfBounds(_) => r
    case Proved(above) => Proved(Proof(below.hashes + above.hashes, below.sourceFlags + above.sourceFlags))
  }

  lemma ProveStep<H>(layers: seq<seq<H>>, indices: seq<int>, below: Proof<H>)
    requires |layers| > 1
    ensures match LayerProof(layers[0], indices)
            case LayerOutOfBounds(i) => Prefixed(below, ProofFrom(layers, indices)) == AuthOutOfBounds(i)
            case LayerProved(next, subProof, flags) =>
              Prefixed(below, ProofFrom(layers, indices))
              == Prefixed(Proof(below.hashes + subProof, below.sourceFlags + flags), ProofFrom(layers[1..], next))
  {
    hide LayerProof;
    match LayerProof(layers[0], indices)
    case LayerOutOfBounds(_) =>
    case LayerProved(next, subProof, flags) =>
      match ProofFrom(layers[1..], next)
      case AuthOutOfBounds(_) =>
      case Proved(above) =>
        Reassociate(below.hashes, subProof, above.hashes);
        Reassociate(below.sourceFlags, flags, above.sourceFlags);
  }

  /** `Tree.Prove`. */
  method Prove<H>(tree: Tree<H>, indices: seq<int>) returns (r: ProofResult<H>)
    requires |tree.layers| > 0
    ensures r == ProofFrom(tree.layers, indices)
  {
    hide LayerProof;
    var layers := tree.layers;
    var current := indices;
    var proof := Proof([], []);
    assert layers[0..] == layers && Prefixed(proof, ProofFrom(layers, indices)) == ProofFrom(layers, indices);
    for k := 0 to |layers| - 1
      invariant Prefixed(proof, ProofFrom(layers[k..], current)) == ProofFrom(layers, indices)
    {
      assert layers[k..][1..] == layers[k + 1..];
      ProveStep(layers[k..], current, proof);
      var res := ProveSingleLayer(layers[k], current);
      if res.LayerOutOfBounds? {
        return AuthOutOfBounds(res.index);
      }
      current := res.nextIndices;
      proof := Proof(proof.hashes + res.subProof, proof.sourceFlags + res.sourceFlags);
    }
    assert ProofFrom(layers[|layers| - 1..], current) == Proved(Proof([], []));
    return Proved(proof);
  }

  // ---------- indices and proofs spelled out ----------

  lemma {:induction false} CountMeaning(flags: seq<bool>, flag: bool)
    ensures Count(flags, flag) == |set i | 0 <= i < |flags| && flags[i] == flag|
  {
    if flags != [] {
      var n := |flags| - 1;
      CountMeaning(flags[..n], flag);
      CountSnoc(flags[..n], flags[n], flag);
      assert flags == flags[..n] + [flags[n]];
      var before := set i | 0 <= i < n && flags[..n][i] == flag;
      var now := set i | 0 <= i < |flags| && flags[i] == flag;
      assert now == if flags[n] == flag then before + {n} else before;
    }
  }

  lemma {:induction false} CountSnoc(flags: seq<bool>, last: bool, flag: bool)
    ensures Count(flags + [last], flag) == Count(flags, flag) + if last == flag then 1 else 0
  {
    if flags != [] {
      assert (flags + [last])[1..] == flags[1..] + [last];
      CountSnoc(flags[1..], last, flag);
    }
  }

  /** Nodes 2k and 2k + 1 are siblings, for negative indices too; their parent is k, halving toward zero. */
  lemma IndexArithmetic(k: int)
    ensures SiblingIndex(2 * k) == 2 * k + 1 && SiblingIndex(2 * k + 1) == 2 * k
    ensures k >= 0 ==> ParentIndex(2 * k) == ParentIndex(2 * k + 1) == k
    ensures k >= 0 ==> ParentIndex(-(2 * k)) == ParentIndex(-(2 * k + 1)) == -k
  {
  }

  /** A lookup fails exactly when some index is out of bounds, and reports the first such index. */
  lemma {:induction false} LookupRefuses<H>(layer: seq<H>, indices: seq<int>, i: int)
    ensures Lookup(layer, indices) == LayerOutOfBounds(i) <==> exists k :: IsFirstOutside(indices, |layer|, k) && indices[k] == i
    ensures Lookup(layer, indices).LayerProved? <==> forall k :: 0 <= k < |indices| ==> 0 <= indices[k] < |layer|
  {
    if indices != [] {
      LookupRefuses(layer, indices[1..], i);
      if 0 <= indices[0] < |layer| {
        if k :| IsFirstOutside(indices[1..], |layer|, k) && indices[1..][k] == i {
          assert IsFirstOutside(indices, |layer|, k + 1);
        }
        if k :| IsFirstOutside(indices, |layer|, k) && indices[k] == i {
          assert IsFirstOutside(indices[1..], |layer|, k - 1) && indices[1..][k - 1] == i;
        }
        assert forall k :: 0 <= k < |indices| - 1 ==> indices[1..][k] == indices[k + 1];
      } else {
        assert IsFirstOutside(indices, |layer|, 0);
      }
    }
  }

  ghost predicate IsFirstOutside(indices: seq<int>, bound: int, k: int) {
    && 0 <= k < |indices| && !(0 <= indices[k] < bound)
    && forall j :: 0 <= j < k ==> 0 <= indices[j] < bound
  }

  /** A single index whose sibling is not in the layer is refused, and the sibling is reported. */
  lemma MissingSibling<H>(layers: seq<seq<H>>, idx: int)
    requires |layers| > 1
    ensures !(0 <= SiblingIndex(idx) < |layers[0]|) ==> ProofFrom(layers, [idx]) == AuthOutOfBounds(SiblingIndex(idx))
  {
    assert [idx][1..] == [];
    assert AuthIndices([idx]) == [SiblingIndex(idx)] + AuthIndices([]);
    assert AuthIndices([idx]) == [SiblingIndex(idx)];
  }

  /** The proofs of a tree of two leaves: both from the verifier's own queue, or one of them from the proof. */
  lemma TwoLeafProofs<H>(a: H, b: H, root: H)
    ensures ProofFrom([[a, b], [root]], [0, 1]) == Proved(Proof([], [true]))
    ensures ProofFrom([[a, b], [root]], [0]) == Proved(Proof([b], [false]))
    ensures ProofFrom([[a, b], [root]], [1]) == Proved(Proof([a], [false]))
  {
    var layer := [a, b];
    assert [layer, [root]][1..] == [[root]];
    LayerOfTwo(a, b);
    hide LayerProof;
    assert ProofFrom([[root]], [0]) == Proved(Proof([], []));
  }

  lemma LayerOfTwo<H>(a: H, b: H)
    ensures LayerProof([a, b], [0, 1]) == LayerProved([0], [], [true])
    ensures LayerProof([a, b], [0]) == LayerProved([0], [b], [false])
    ensures LayerProof([a, b], [1]) == LayerProved([0], [a], [false])
  {
    assert [0, 1][2..] == [] && [0][1..] == [] && [1][1..] == [];
    assert AuthIndices([0, 1]) == [] && AuthIndices([0]) == [1] && AuthIndices([1]) == [0];
    assert SourceFlags([0, 1]) == [true] && SourceFlags([0]) == [false] && SourceFlags([1]) == [false];
    assert NextIndices([0, 1]) == [0] && NextIndices([0]) == [0] && NextIndices([1]) == [0];
    LookupOne([a, b], 0);
    LookupOne([a, b], 1);
  }

  lemma LookupOne<H>(layer: seq<H>, i: nat)
    requires i < |layer|
    ensures Lookup(layer, [i]) == LayerProved([], [layer[i]], [])
  {
    assert [i][1..] == [];
  }

  /** Two neighbours in the list that are the children of one node, in either order, are one pair and need no proof hash;
      any other index needs its sibling. Nothing is asked of the order of the list. */
  lemma PairsEitherWay(k: int, swapped: bool, other: int, rest: seq<int>)
    requires k >= 0
    ensures var x := if swapped then 2 * k + 1 else 2 * k;
            var y := if swapped then 2 * k else 2 * k + 1;
            && SourceFlags([x, y] + rest) == [true] + SourceFlags(rest)
            && NextIndices([x, y] + rest) == [k] + NextIndices(rest)
            && AuthIndices([x, y] + rest) == AuthIndices(rest)
            && (other != y ==>
                  && SourceFlags([x, other] + rest) == [false] + SourceFlags([other] + rest)
                  && NextIndices([x, other] + rest) == [k] + NextIndices([other] + rest)
                  && AuthIndices([x, other] + rest) == [y] + AuthIndices([other] + rest))
  {
    var x := if swapped then 2 * k + 1 else 2 * k;
    var y := if swapped then 2 * k else 2 * k + 1;
    IndexArithmetic(k);
    assert ([x, y] + rest)[2..] == rest;
    assert ([x, other] + rest)[1..] == [other] + rest;
  }
}
