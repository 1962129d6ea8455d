/** What an accepted multiproof says: the verifier's computation is a top part of the tree itself. */
module MerkleSoundness {
  import opened Hashing
  import opened MerkleTree
  import opened MerkleProver
  import opened MerkleVerifier

  /** How a hash was computed by the verifier: supplied from outside, or combined from two others. */
  datatype Term<H> = Supplied(hash: H) | Combined(left: Term<H>, right: Term<H>)

  function Value<H>(hasher: Hasher<H>, t: Term<H>): H {
    match t
    case Supplied(h) => h
    case Combined(l, r) => hasher.internal(Value(hasher, l), Value(hasher, r))
  }

  function Values<H>(hasher: Hasher<H>, ts: seq<Term<H>>): (vs: seq<H>)
    ensures |vs| == |ts|
  {
    seq(|ts|, i requires 0 <= i < |ts| => Value(hasher, ts[i]))
  }

  /** The supplied hashes of a computation, with multiplicity. */
  ghost function Fringe<H>(t: Term<H>): multiset<H> {
    match t
    case Supplied(h) => multiset{h}
    case Combined(l, r) => Fringe(l) + Fringe(r)
  }

  ghost function FringeOf<H>(ts: seq<Term<H>>): multiset<H> {
    if ts == [] then multiset{} else Fringe(ts[0]) + FringeOf(ts[1..])
  }

  /** The hasher that records the computation instead of hashing. */
  function FreeHasher<H>(hasher: Hasher<H>): Hasher<Term<H>> {
    Hasher((a, b) => Combined(a, b), Supplied(hasher.zero))
  }

  function AllSupplied<H>(hashes: seq<H>): (ts: seq<Term<H>>)
    ensures |ts| == |hashes|
  {
    seq(|hashes|, i requires 0 <= i < |hashes| => Supplied(hashes[i]))
  }

  /** The computation the verifier performs on its input: the very same replay, over the recording hasher. */
  function VerifierTerm<H>(hasher: Hasher<H>, leaves: seq<H>, proof: Proof<H>): Term<H>
    requires Balanced(leaves, proof.hashes, proof.sourceFlags)
  {
    Replay(FreeHasher(hasher), AllSupplied(leaves), AllSupplied(proof.hashes), proof.sourceFlags)
  }

  // ---------- the recorded computation ----------

  lemma {:induction false} ReplayValue<H>(hasher: Hasher<H>, queue: seq<Term<H>>, supply: seq<Term<H>>, flags: seq<bool>)
    requires Balanced(queue, supply, flags)
    ensures Value(hasher, Replay(FreeHasher(hasher), queue, supply, flags))
         == Replay(hasher, Values(hasher, queue), Values(hasher, supply), flags)
    decreases |flags|
  {
    if flags != [] {
      if flags[0] {
        var next := queue[2..] + [Combined(queue[0], queue[1])];
        assert Values(hasher, next) == Values(hasher, queue)[2..] + [Value(hasher, Combined(queue[0], queue[1]))];
        ReplayValue(hasher, next, supply, flags[1..]);
      } else {
        var next := queue[1..] + [Combined(supply[0], queue[0])];
        assert Values(hasher, next) == Values(hasher, queue)[1..] + [Value(hasher, Combined(supply[0], queue[0]))];
        assert Values(hasher, supply[1..]) == Values(hasher, supply)[1..];
        ReplayValue(hasher, next, supply[1..], flags[1..]);
      }
    }
  }

  lemma {:induction false} FringeOfConcat<H>(a: seq<Term<H>>, b: seq<Term<H>>)
    ensures FringeOf(a + b) == FringeOf(a) + FringeOf(b)
  {
    if a == [] {
      assert a + b == b;
    } else {
      assert (a + b)[1..] == a[1..] + b;
      FringeOfConcat(a[1..], b);
    }
  }

  lemma {:induction false} FringeOfSupplied<H>(hashes: seq<H>)
    ensures FringeOf(AllSupplied(hashes)) == multiset(hashes)
  {
    if hashes != [] {
      FringeOfSupplied(hashes[1..]);
      assert AllSupplied(hashes)[1..] == AllSupplied(hashes[1..]);
      assert hashes == [hashes[0]] + hashes[1..];
    }
  }

  lemma FringePop<H>(ts: seq<Term<H>>, n: nat)
    requires 1 <= n <= 2 && n <= |ts|
    ensures n == 1 ==> FringeOf(ts) == Fringe(ts[0]) + FringeOf(ts[1..])
    ensures n == 2 ==> FringeOf(ts) == Fringe(ts[0]) + Fringe(ts[1]) + FringeOf(ts[2..])
  {
    if n == 2 {
      assert ts[1..][1..] == ts[2..];
    }
  }

  lemma FringePush<H>(ts: seq<Term<H>>, left: Term<H>, right: Term<H>)
    ensures FringeOf(ts + [Combined(left, right)]) == FringeOf(ts) + (Fringe(left) + Fringe(right))
  {
    FringeOfConcat(ts, [Combined(left, right)]);
    assert FringeOf([Combined(left, right)]) == Fringe(Combined(left, right));
  }

  lemma Rearranged<H>(a: multiset<H>, b: multiset<H>, c: multiset<H>, d: multiset<H>)
    ensures (c + (a + b)) + d == ((a + b) + c) + d
    ensures (c + (a + b)) + d == (b + c) + (a + d)
  {
  }

  /** One turn of the replay keeps the total of queued and supplied hashes. */
  lemma TurnConserves<H>(queue: seq<Term<H>>, supply: seq<Term<H>>, flag: bool)
    requires if flag then |queue| >= 2 else |queue| >= 1 && |supply| >= 1
    ensures FringeOf(queue) + FringeOf(supply)
         == if flag then FringeOf(queue[2..] + [Combined(queue[0], queue[1])]) + FringeOf(supply)
            else FringeOf(queue[1..] + [Combined(supply[0], queue[0])]) + FringeOf(supply[1..])
  {
    hide FringeOf, Fringe;
    if flag {
      FringePop(queue, 2);
      FringePush(queue[2..], queue[0], queue[1]);
      Rearranged(Fringe(queue[0]), Fringe(queue[1]), FringeOf(queue[2..]), FringeOf(supply));
    } else {
      FringePop(queue, 1);
      FringePop(supply, 1);
      FringePush(queue[1..], supply[0], queue[0]);
      Rearranged(Fringe(supply[0]), Fringe(queue[0]), FringeOf(queue[1..]), FringeOf(supply[1..]));
    }
  }

  lemma FringeOfOne<H>(ts: seq<Term<H>>)
    requires |ts| == 1
    ensures FringeOf(ts) == Fringe(ts[0]) && FringeOf(ts[1..]) == multiset{}
  {
  }

  /** The replay consumes everything queued and everything supplied exactly once. */
  lemma {:induction false} ReplayConserves<H>(hasher: Hasher<H>, queue: seq<Term<H>>, supply: seq<Term<H>>, flags: seq<bool>)
    requires Balanced(queue, supply, flags)
    ensures Fringe(Replay(FreeHasher(hasher), queue, supply, flags)) == FringeOf(queue) + FringeOf(supply)
    decreases |flags|
  {
    hide Fringe;
    if flags == [] {
      FringeOfOne(queue);
      assert supply == [];
    } else {
      hide FringeOf;
      TurnConserves(queue, supply, flags[0]);
      if flags[0] {
        ReplayConserves(hasher, queue[2..] + [Combined(queue[0], queue[1])], supply, flags[1..]);
      } else {
        ReplayConserves(hasher, queue[1..] + [Combined(supply[0], queue[0])], supply[1..], flags[1..]);
      }
    }
  }

  // ---------- matching the tree ----------

  /** The `j`-th pair of siblings of layer `k` exists. */
  ghost predicate IsPair<H>(layers: seq<seq<H>>, k: int, j: int) {
    0 <= k < |layers| - 1 && 0 <= j && 2 * j + 1 < |layers[k]|
  }

  ghost predicate CollidesAt<H>(hasher: Hasher<H>, layers: seq<seq<H>>, k: int, j: int, a: H, b: H) {
    IsPair(layers, k, j) && Collision(hasher, a, b, layers[k][2 * j], layers[k][2 * j + 1])
  }

  /** The computation is the top part of the subtree at node `i` of layer `k`, up to swapping children. */
  ghost predicate Embeds<H>(layers: seq<seq<H>>, k: nat, i: nat, t: Term<H>)
    decreases t
  {
    && k < |layers| && i < |layers[k]|
    && match t
       case Supplied(h) => h == layers[k][i]
       case Combined(l, r) =>
         && k > 0 && 2 * i + 1 < |layers[k - 1]|
         && (|| (Embeds(layers, k - 1, 2 * i, l) && Embeds(layers, k - 1, 2 * i + 1, r))
             || (Embeds(layers, k - 1, 2 * i, r) && Embeds(layers, k - 1, 2 * i + 1, l)))
  }

  /** The pair hashes to a leaf or to the padding value, or collides with a pair of siblings of the tree. */
  ghost predicate PairForged<H>(hasher: Hasher<H>, leaves: seq<H>, layers: seq<seq<H>>, a: H, b: H) {
    || hasher.internal(a, b) == hasher.zero
    || hasher.internal(a, b) in leaves
    || exists k, j :: CollidesAt(hasher, layers, k, j, a, b)
  }

  /** Some pair the verifier hashed on the way is forged. */
  ghost predicate Forged<H>(hasher: Hasher<H>, leaves: seq<H>, layers: seq<seq<H>>, t: Term<H>) {
    t.Combined? &&
    (|| PairForged(hasher, leaves, layers, Value(hasher, t.left), Value(hasher, t.right))
     || Forged(hasher, leaves, layers, t.left)
     || Forged(hasher, leaves, layers, t.right))
  }

  /** A pair that hashes to a node of the tree is that node's pair of children, unless forged. */
  lemma UnforgedPairIsChildren<H>(hasher: Hasher<H>, leaves: seq<H>, layers: seq<seq<H>>, k: nat, i: nat, a: H, b: H)
    requires IsTreeOver(hasher, leaves, layers) && k < |layers| && i < |layers[k]|
    requires hasher.internal(a, b) == layers[k][i] && !PairForged(hasher, leaves, layers, a, b)
    ensures k > 0 && 2 * i + 1 < |layers[k - 1]|
    ensures multiset{a, b} == multiset{layers[k - 1][2 * i], layers[k - 1][2 * i + 1]}
  {
    if k > 0 {
      assert LayerFollows(hasher, layers[k - 1], layers[k]);
      var parents := Parents(hasher, layers[k - 1]);
      if i < |parents| {
        var c, d := layers[k - 1][2 * i], layers[k - 1][2 * i + 1];
        assert layers[k][i] == parents[i] == hasher.internal(c, d);
        assert !CollidesAt(hasher, layers, k - 1, i, a, b);
      }
    }
  }

  lemma {:induction false} UnforgedEmbeds<H>(hasher: Hasher<H>, leaves: seq<H>, layers: seq<seq<H>>, k: nat, i: nat, t: Term<H>)
    requires IsTreeOver(hasher, leaves, layers) && k < |layers| && i < |layers[k]|
    requires Value(hasher, t) == layers[k][i] && !Forged(hasher, leaves, layers, t)
    ensures Embeds(layers, k, i, t)
    decreases t
  {
    hide PairForged, IsTreeOver;
    if t.Combined? {
      var a, b := Value(hasher, t.left), Value(hasher, t.right);
      UnforgedPairIsChildren(hasher, leaves, layers, k, i, a, b);
      var c, d := layers[k - 1][2 * i], layers[k - 1][2 * i + 1];
      SamePair(a, b, c, d);
      if a == c && b == d {
        UnforgedEmbeds(hasher, leaves, layers, k - 1, 2 * i, t.left);
        UnforgedEmbeds(hasher, leaves, layers, k - 1, 2 * i + 1, t.right);
      } else {
        UnforgedEmbeds(hasher, leaves, layers, k - 1, 2 * i + 1, t.left);
        UnforgedEmbeds(hasher, leaves, layers, k - 1, 2 * i, t.right);
      }
    }
  }

  /** Soundness. When the verifier computes a tree's root, its computation used every supplied leaf hash and every
      proof hash exactly once, and is the top part of that tree, or one of the pairs it hashed is forged. */
  lemma Soundness<H>(hasher: Hasher<H>, leaves: seq<H>, supplied: seq<H>, proof: Proof<H>)
    requires leaves != [] && Verify(hasher, supplied, proof) == Computed(RootOf(hasher, leaves))
    ensures Balanced(supplied, proof.hashes, proof.sourceFlags)
    ensures var t := VerifierTerm(hasher, supplied, proof);
            var layers := Layers(hasher, leaves);
            && Value(hasher, t) == RootOf(hasher, leaves)
            && Fringe(t) == multiset(supplied) + multiset(proof.hashes)
            && (Embeds(layers, |layers| - 1, 0, t) || Forged(hasher, leaves, layers, t))
  {
    hide Replay, Layers, Verify, Count;
    ComputesExactlyWhenBalanced(hasher, supplied, proof);
    var queue, supply := AllSupplied(supplied), AllSupplied(proof.hashes);
    assert Values(hasher, queue) == supplied && Values(hasher, supply) == proof.hashes;
    ReplayValue(hasher, queue, supply, proof.sourceFlags);
    ReplayConserves(hasher, queue, supply, proof.sourceFlags);
    FringeOfSupplied(supplied);
    FringeOfSupplied(proof.hashes);
    var layers := Layers(hasher, leaves);
    LayersAreTree(hasher, leaves);
    var t := VerifierTerm(hasher, supplied, proof);
    if !Forged(hasher, leaves, layers, t) {
      UnforgedEmbeds(hasher, leaves, layers, |layers| - 1, 0, t);
    }
  }

  // ---------- consequences ----------

  /** All node values of the subtree at node `i` of layer `k`, padding included, with multiplicity. */
  ghost function Nodes<H>(layers: seq<seq<H>>, k: nat, i: nat): multiset<H>
    requires k < |layers| && i < |layers[k]|
    decreases k
  {
    multiset{layers[k][i]} +
    if k > 0 && 2 * i + 1 < |layers[k - 1]|
    then Nodes(layers, k - 1, 2 * i) + Nodes(layers, k - 1, 2 * i + 1)
    else multiset{}
  }

  lemma MultisetBelow<H>(a: multiset<H>, b: multiset<H>, c: multiset<H>, d: multiset<H>, top: multiset<H>)
    requires a <= c && b <= d
    ensures a + b <= top + (c + d)
    ensures b + a <= top + (c + d)
  {
  }

  lemma {:induction false} FringeWithinNodes<H>(layers: seq<seq<H>>, k: nat, i: nat, t: Term<H>)
    requires Embeds(layers, k, i, t)
    ensures Fringe(t) <= Nodes(layers, k, i)
    decreases t
  {
    if t.Combined? {
      var lower, upper := 2 * i, 2 * i + 1;
      var straight := Embeds(layers, k - 1, lower, t.left) && Embeds(layers, k - 1, upper, t.right);
      var first, second := if straight then t.left else t.right, if straight then t.right else t.left;
      FringeWithinNodes(layers, k - 1, lower, first);
      FringeWithinNodes(layers, k - 1, upper, second);
      MultisetBelow(Fringe(first), Fringe(second), Nodes(layers, k - 1, lower), Nodes(layers, k - 1, upper), multiset{layers[k][i]});
    }
  }

  /** Unless a pair is forged, all supplied hashes together are nodes of the tree, each as often as it is supplied. */
  lemma SuppliedAreNodes<H>(hasher: Hasher<H>, leaves: seq<H>, supplied: seq<H>, proof: Proof<H>)
    requires leaves != [] && Verify(hasher, supplied, proof) == Computed(RootOf(hasher, leaves))
    ensures Balanced(supplied, proof.hashes, proof.sourceFlags)
    ensures var layers := Layers(hasher, leaves);
            || Forged(hasher, leaves, layers, VerifierTerm(hasher, supplied, proof))
            || multiset(supplied) + multiset(proof.hashes) <= Nodes(layers, |layers| - 1, 0)
  {
    hide Replay, Layers, Verify, Count;
    Soundness(hasher, leaves, supplied, proof);
    var layers := Layers(hasher, leaves);
    var t := VerifierTerm(hasher, supplied, proof);
    if Embeds(layers, |layers| - 1, 0, t) {
      FringeWithinNodes(layers, |layers| - 1, 0, t);
    }
  }

  /** `x` is the hash of two siblings of the tree. */
  ghost predicate IsInternal<H>(hasher: Hasher<H>, layers: seq<seq<H>>, x: H) {
    exists k, j :: InternalAt(hasher, layers, k, j, x)
  }

  ghost predicate InternalAt<H>(hasher: Hasher<H>, layers: seq<seq<H>>, k: int, j: int, x: H) {
    IsPair(layers, k, j) && x == hasher.internal(layers[k][2 * j], layers[k][2 * j + 1])
  }

  /** How often `x` occurs among the nodes of the subtrees at the first `n` nodes of layer `k`. */
  ghost function CountBelow<H>(layers: seq<seq<H>>, k: nat, n: nat, x: H): nat
    requires k < |layers| && n <= |layers[k]|
  {
    if n == 0 then 0 else CountBelow(layers, k, n - 1, x) + Nodes(layers, k, n - 1)[x]
  }

  lemma CountTwoMore<H>(layers: seq<seq<H>>, k: nat, n: nat, x: H)
    requires k < |layers| && n + 2 <= |layers[k]|
    ensures CountBelow(layers, k, n + 2, x) == CountBelow(layers, k, n, x) + Nodes(layers, k, n)[x] + Nodes(layers, k, n + 1)[x]
  {
    assert CountBelow(layers, k, n + 1, x) == CountBelow(layers, k, n, x) + Nodes(layers, k, n)[x];
  }

  lemma {:induction false} CountGrows<H>(layers: seq<seq<H>>, k: nat, m: nat, n: nat, x: H)
    requires k < |layers| && m <= n <= |layers[k]|
    ensures CountBelow(layers, k, m, x) <= CountBelow(layers, k, n, x)
    decreases n
  {
    if m < n {
      CountGrows(layers, k, m, n - 1, x);
    }
  }

  function Min(a: nat, b: nat): nat {
    if a < b then a else b
  }

  lemma NodesOfOther<H>(layers: seq<seq<H>>, k: nat, i: nat, x: H)
    requires 0 < k < |layers| && i < |layers[k]| && layers[k][i] != x
    ensures Nodes(layers, k, i)[x]
         == if 2 * i + 1 < |layers[k - 1]| then Nodes(layers, k - 1, 2 * i)[x] + Nodes(layers, k - 1, 2 * i + 1)[x] else 0
  {
  }

  lemma CountOneMore<H>(layers: seq<seq<H>>, k: nat, i: nat, x: H)
    requires 0 < k < |layers| && i < |layers[k]| && layers[k][i] != x
    requires CountBelow(layers, k, i, x) <= CountBelow(layers, k - 1, Min(2 * i, |layers[k - 1]|), x)
    ensures CountBelow(layers, k, i + 1, x) <= CountBelow(layers, k - 1, Min(2 * i + 2, |layers[k - 1]|), x)
  {
    hide Nodes;
    var lower := |layers[k - 1]|;
    NodesOfOther(layers, k, i, x);
    assert CountBelow(layers, k, i + 1, x) == CountBelow(layers, k, i, x) + Nodes(layers, k, i)[x];
    hide CountBelow;
    if 2 * i + 1 < lower {
      CountTwoMore(layers, k - 1, 2 * i, x);
    } else {
      CountGrows(layers, k - 1, Min(2 * i, lower), Min(2 * i + 2, lower), x);
    }
  }

  /** A value that only leaves have occurs below a layer at most as often as below the layer under it. */
  lemma {:induction false} CountDown<H>(hasher: Hasher<H>, leaves: seq<H>, layers: seq<seq<H>>, k: nat, n: nat, x: H)
    requires IsTreeOver(hasher, leaves, layers) && 0 < k < |layers| && n <= |layers[k]|
    requires x != hasher.zero && !IsInternal(hasher, layers, x)
    ensures CountBelow(layers, k, n, x) <= CountBelow(layers, k - 1, Min(2 * n, |layers[k - 1]|), x)
    decreases n
  {
    hide IsInternal, IsTreeOver, Nodes;
    if n > 0 {
      CountDown(hasher, leaves, layers, k, n - 1, x);
      NodeIsNot(hasher, leaves, layers, k, n - 1, x);
      CountOneMore(layers, k, n - 1, x);
    }
  }

  lemma NodeIsNot<H>(hasher: Hasher<H>, leaves: seq<H>, layers: seq<seq<H>>, k: nat, i: nat, x: H)
    requires IsTreeOver(hasher, leaves, layers) && 0 < k < |layers| && i < |layers[k]|
    requires x != hasher.zero && !IsInternal(hasher, layers, x)
    ensures layers[k][i] != x
  {
    assert LayerFollows(hasher, layers[k - 1], layers[k]);
    var parents := Parents(hasher, layers[k - 1]);
    if i < |parents| {
      assert layers[k][i] == parents[i];
      assert InternalAt(hasher, layers, k - 1, i, parents[i]);
    }
  }

  lemma {:induction false} CountBottom<H>(layers: seq<seq<H>>, n: nat, x: H)
    requires |layers| > 0 && n <= |layers[0]|
    ensures CountBelow(layers, 0, n, x) == multiset(layers[0][..n])[x]
  {
    if n > 0 {
      CountBottom(layers, n - 1, x);
      assert layers[0][..n] == layers[0][..n - 1] + [layers[0][n - 1]];
    }
  }

  lemma PrefixOfPadded<H>(hasher: Hasher<H>, leaves: seq<H>, n: nat, x: H)
    requires n <= |Padded(hasher, leaves)| && x != hasher.zero
    ensures multiset(Padded(hasher, leaves)[..n])[x] <= multiset(leaves)[x]
  {
    var p := Padded(hasher, leaves);
    assert p == p[..n] + p[n..];
    assert multiset(p)[x] == multiset(leaves)[x];
  }

  lemma {:induction false} CountToBottom<H>(hasher: Hasher<H>, leaves: seq<H>, layers: seq<seq<H>>, k: nat, n: nat, x: H)
    requires IsTreeOver(hasher, leaves, layers) && k < |layers| && n <= |layers[k]|
    requires x != hasher.zero && !IsInternal(hasher, layers, x)
    ensures CountBelow(layers, k, n, x) <= multiset(leaves)[x]
    decreases k
  {
    hide IsInternal, CountBelow;
    if k == 0 {
      CountBottom(layers, n, x);
      PrefixOfPadded(hasher, leaves, n, x);
    } else {
      CountDown(hasher, leaves, layers, k, n, x);
      CountToBottom(hasher, leaves, layers, k - 1, Min(2 * n, |layers[k - 1]|), x);
    }
  }

  /** A supplied leaf hash that is neither padding nor an internal node of the tree is one of the tree's leaves, and is
      supplied at most as often as it is a leaf. */
  lemma LeafSoundness<H>(hasher: Hasher<H>, leaves: seq<H>, supplied: seq<H>, proof: Proof<H>, x: H)
    requires leaves != [] && Verify(hasher, supplied, proof) == Computed(RootOf(hasher, leaves))
    requires x in supplied && x != hasher.zero && !IsInternal(hasher, Layers(hasher, leaves), x)
    ensures Balanced(supplied, proof.hashes, proof.sourceFlags)
    ensures || (x in leaves && multiset(supplied)[x] <= multiset(leaves)[x])
            || Forged(hasher, leaves, Layers(hasher, leaves), VerifierTerm(hasher, supplied, proof))
  {
    hide Replay, Layers, Verify, Count, IsInternal;
    SuppliedAreNodes(hasher, leaves, supplied, proof);
    var layers := Layers(hasher, leaves);
    LayersAreTree(hasher, leaves);
    if !Forged(hasher, leaves, layers, VerifierTerm(hasher, supplied, proof)) {
      assert x in multiset(supplied);
      CountToBottom(hasher, leaves, layers, |layers| - 1, 1, x);
      OneNodeCount(layers, |layers| - 1, x);
      assert (multiset(supplied) + multiset(proof.hashes))[x] <= Nodes(layers, |layers| - 1, 0)[x];
    }
  }

  lemma OneNodeCount<H>(layers: seq<seq<H>>, k: nat, x: H)
    requires k < |layers| && |layers[k]| > 0
    ensures CountBelow(layers, k, 1, x) == Nodes(layers, k, 0)[x]
  {
    assert CountBelow(layers, k, 0, x) == 0;
  }
}
