/** Trees and multiproofs with the repository's own hasher. Security is stated on the strings that were really hashed:
    collisions of a 32-byte hash exist somewhere, the point is that a wrong answer would show one among these strings. */
module KeccakProofs {
  import opened Hashing
  import opened Keccak
  import opened MerkleTree
  import opened MerkleProver
  import opened MerkleVerifier
  import opened MerkleSoundness
  import opened MerkleBinding
  import opened MerkleCompleteness

  function HashAll(hash: HashFunction, data: seq<seq<byte>>): (hashes: seq<Word>)
    ensures |hashes| == |data|
  {
    seq(|data|, i requires 0 <= i < |data| => hash(data[i]))
  }

  ghost predicate HashedAt(layers: seq<seq<Word>>, k: int, j: int, s: seq<byte>) {
    0 <= k < |layers| && 0 <= j && 2 * j + 1 < |layers[k]| && s == Preimage(layers[k][2 * j], layers[k][2 * j + 1])
  }

  /** `s` is what was hashed for an internal node of the tree. */
  ghost predicate HashedInTree(layers: seq<seq<Word>>, s: seq<byte>) {
    exists k, j :: HashedAt(layers, k, j, s)
  }

  /** `s` is what the verifier hashed for one of its combinations. */
  ghost predicate HashedByVerifier(hash: HashFunction, t: Term<Word>, s: seq<byte>) {
    t.Combined? &&
    (|| s == Preimage(Value(KeccakHasher(hash), t.left), Value(KeccakHasher(hash), t.right))
     || HashedByVerifier(hash, t.left, s)
     || HashedByVerifier(hash, t.right, s))
  }

  ghost function Strings(data: seq<seq<byte>>): iset<seq<byte>> {
    iset s | s in data
  }

  ghost function TreeStrings(layers: seq<seq<Word>>): iset<seq<byte>> {
    iset s | HashedInTree(layers, s)
  }

  ghost function VerifierStrings(hash: HashFunction, t: Term<Word>): iset<seq<byte>> {
    iset s | HashedByVerifier(hash, t, s)
  }

  /** Two of the given strings collide, or one of them hashes to the padding value. */
  ghost predicate Broken(hash: HashFunction, hashed: iset<seq<byte>>) {
    || (exists s, u :: s in hashed && u in hashed && HashCollision(hash, s, u))
    || (exists s :: s in hashed && hash(s) == ZERO_HASH)
  }

  /** Data that cannot be mistaken for the preimage of an internal node. */
  ghost predicate Separated(data: seq<seq<byte>>) {
    forall s :: s in data ==> !(INTERNAL_DOMAIN_SEPARATOR <= s)
  }

  // ---------- hashes of data ----------

  lemma {:induction false} HashCount(hash: HashFunction, list: seq<seq<byte>>, s: seq<byte>, hashed: iset<seq<byte>>)
    requires s in hashed && Strings(list) <= hashed && !Broken(hash, hashed)
    ensures multiset(HashAll(hash, list))[hash(s)] == multiset(list)[s]
  {
    if list != [] {
      var head, rest := list[0], list[1..];
      assert forall u :: u in Strings(rest) ==> u in list;
      HashCount(hash, rest, s, hashed);
      assert list == [head] + rest;
      assert HashAll(hash, list) == [hash(head)] + HashAll(hash, rest);
      assert head in Strings(list);
      assert hash(head) == hash(s) ==> head == s || HashCollision(hash, head, s);
    }
  }

  /** Containment of hashes is containment of the data, unless the hash function is broken on it. */
  lemma HashesContained(hash: HashFunction, items: seq<seq<byte>>, data: seq<seq<byte>>, hashed: iset<seq<byte>>)
    requires Strings(items) <= hashed && Strings(data) <= hashed
    requires forall s :: s in items ==> multiset(HashAll(hash, items))[hash(s)] <= multiset(HashAll(hash, data))[hash(s)]
    ensures multiset(items) <= multiset(data) || Broken(hash, hashed)
  {
    hide Broken, HashAll;
    if !Broken(hash, hashed) {
      forall s | s in items
        ensures multiset(items)[s] <= multiset(data)[s]
      {
        assert s in Strings(items);
        HashCount(hash, items, s, hashed);
        HashCount(hash, data, s, hashed);
      }
      assert forall s :: s !in items ==> multiset(items)[s] == 0;
    }
  }

  lemma DataIsNoNode(hash: HashFunction, s: seq<byte>, a: Word, b: Word, hashed: iset<seq<byte>>)
    requires s in hashed && !(INTERNAL_DOMAIN_SEPARATOR <= s) && Preimage(a, b) in hashed
    requires hash(s) == HashInternal(hash, a, b)
    ensures Broken(hash, hashed)
  {
    DomainSeparation(hash, s, a, b);
  }

  // ---------- root binding ----------

  /** Trees over leaf lists of one length with one root have the same leaves, up to order, or two strings hashed while
      building them collide. */
  lemma KeccakRootBinding(hash: HashFunction, xs: seq<Word>, ys: seq<Word>)
    requires |xs| == |ys| > 0 && RootOf(KeccakHasher(hash), xs) == RootOf(KeccakHasher(hash), ys)
    ensures var ls, ms := Layers(KeccakHasher(hash), xs), Layers(KeccakHasher(hash), ys);
            || multiset(xs) == multiset(ys)
            || exists s, u :: HashedInTree(ls, s) && HashedInTree(ms, u) && HashCollision(hash, s, u)
  {
    hide RootOf, Layers;
    var hasher := KeccakHasher(hash);
    var ls, ms := Layers(hasher, xs), Layers(hasher, ys);
    RootBinding(hasher, xs, ys);
    if multiset(xs) != multiset(ys) {
      var k :| 0 <= k < |ls| && k < |ms| && LayersCollide(hasher, ls[k], ms[k]);
      CollisionOfStrings(hash, ls, ms, k, k);
    }
  }

  lemma CollisionOfStrings(hash: HashFunction, ls: seq<seq<Word>>, ms: seq<seq<Word>>, k: nat, m: nat)
    requires k < |ls| && m < |ms| && LayersCollide(KeccakHasher(hash), ls[k], ms[m])
    ensures exists s, u :: HashedInTree(ls, s) && HashedInTree(ms, u) && HashCollision(hash, s, u)
  {
    hide Preimage, HashCollision;
    var p, q := ls[k], ms[m];
    var i, j :| CollidingPairs(KeccakHasher(hash), p, q, i, j);
    NodeCollisionIsHashCollision(hash, p[2 * i], p[2 * i + 1], q[2 * j], q[2 * j + 1]);
    assert HashedAt(ls, k, i, Preimage(p[2 * i], p[2 * i + 1]));
    assert HashedAt(ms, m, j, Preimage(q[2 * j], q[2 * j + 1]));
  }

  lemma PaddingReached(hash: HashFunction, ls: seq<seq<Word>>, hashed: iset<seq<byte>>)
    requires TreeStrings(ls) <= hashed && ReachesPadding(KeccakHasher(hash), ls)
    ensures Broken(hash, hashed)
  {
    hide Preimage;
    var k, j :| 0 <= k < |ls| && PaddingAt(KeccakHasher(hash), ls[k], j);
    var s := Preimage(ls[k][2 * j], ls[k][2 * j + 1]);
    assert HashedAt(ls, k, j, s);
    assert s in TreeStrings(ls) && hash(s) == ZERO_HASH;
  }

  /** The hash of a piece of data cannot be an inner node. */
  lemma NodeBreaks(hash: HashFunction, s: seq<byte>, ms: seq<seq<Word>>, k: int, j: int, hashed: iset<seq<byte>>)
    requires s in hashed && !(INTERNAL_DOMAIN_SEPARATOR <= s) && TreeStrings(ms) <= hashed
    requires NodeFrom(hash, ms, k, j, hash(s))
    ensures Broken(hash, hashed)
  {
    hide Preimage, Broken;
    var a, b := ms[k][2 * j], ms[k][2 * j + 1];
    assert HashedAt(ms, k, j, Preimage(a, b));
    assert Preimage(a, b) in TreeStrings(ms);
    DataIsNoNode(hash, s, a, b, hashed);
  }

  lemma CutMeetsLeaf(hash: HashFunction, xs: seq<seq<byte>>, ms: seq<seq<Word>>)
    requires xs != [] && CutsThrough(Layers(KeccakHasher(hash), HashAll(hash, xs)), ms)
    ensures var k := |ms| - |Layers(KeccakHasher(hash), HashAll(hash, xs))| - 1;
            0 <= k && k + 1 < |ms| && hash(xs[0]) in ms[k + 1]
  {
    hide HashInternal;
    var ls := Layers(KeccakHasher(hash), HashAll(hash, xs));
    LayersUnfold(KeccakHasher(hash), HashAll(hash, xs));
    hide Layers;
    assert hash(xs[0]) == HashAll(hash, xs)[0] == ls[0][0];
    assert hash(xs[0]) in multiset(ls[0]);
    assert hash(xs[0]) in multiset(ms[|ms| - |ls|]);
  }

  /** The leaves of one tree cannot be an inner layer of another one. */
  lemma CutBreaks(hash: HashFunction, xs: seq<seq<byte>>, leaves: seq<Word>, ms: seq<seq<Word>>, hashed: iset<seq<byte>>)
    requires xs != [] && Separated(xs) && IsTreeOver(KeccakHasher(hash), leaves, ms)
    requires Strings(xs) <= hashed && TreeStrings(ms) <= hashed
    requires CutsThrough(Layers(KeccakHasher(hash), HashAll(hash, xs)), ms)
    ensures Broken(hash, hashed)
  {
    hide Layers, HashInternal, Broken, IsTreeOver, TreeStrings, NodeFrom;
    CutMeetsLeaf(hash, xs, ms);
    var k := |ms| - |Layers(KeccakHasher(hash), HashAll(hash, xs))| - 1;
    hide CutsThrough, HashAll;
    assert xs[0] in Strings(xs);
    InnerNode(hash, leaves, ms, k, hash(xs[0]));
    if hash(xs[0]) == ZERO_HASH {
      ZeroBreaks(hash, xs[0], hashed);
    } else {
      var j :| NodeFrom(hash, ms, k, j, hash(xs[0]));
      NodeBreaks(hash, xs[0], ms, k, j, hashed);
    }
  }

  lemma ZeroBreaks(hash: HashFunction, s: seq<byte>, hashed: iset<seq<byte>>)
    requires s in hashed && hash(s) == ZERO_HASH
    ensures Broken(hash, hashed)
  {
  }

  ghost predicate NodeFrom(hash: HashFunction, layers: seq<seq<Word>>, k: int, j: int, x: Word) {
    0 <= k < |layers| && 0 <= j && 2 * j + 1 < |layers[k]| && x == HashInternal(hash, layers[k][2 * j], layers[k][2 * j + 1])
  }

  lemma InnerNode(hash: HashFunction, leaves: seq<Word>, layers: seq<seq<Word>>, k: nat, x: Word)
    requires IsTreeOver(KeccakHasher(hash), leaves, layers) && k + 1 < |layers| && x in layers[k + 1]
    ensures x == ZERO_HASH || exists j :: NodeFrom(hash, layers, k, j, x)
  {
    hide HashInternal;
    var hasher := KeccakHasher(hash);
    assert LayerFollows(hasher, layers[k], layers[k + 1]);
    var parents := Parents(hasher, layers[k]);
    var i :| 0 <= i < |layers[k + 1]| && layers[k + 1][i] == x;
    if i < |parents| {
      assert layers[k + 1][i] == parents[i];
      assert NodeFrom(hash, layers, k, i, x);
    }
  }

  /** What was hashed for two trees: their data and the preimages of their internal nodes. */
  ghost function TwoTrees(hash: HashFunction, xs: seq<seq<byte>>, ys: seq<seq<byte>>): iset<seq<byte>>
    requires xs != [] && ys != []
  {
    var hasher := KeccakHasher(hash);
    Strings(xs) + Strings(ys) + TreeStrings(Layers(hasher, HashAll(hash, xs))) + TreeStrings(Layers(hasher, HashAll(hash, ys)))
  }

  /** A root commits to the whole data, its length and multiplicities included: trees over any two data lists with one
      root have the same data, up to order, or the hash function is broken on the strings hashed to build them. */
  lemma DataRootBinding(hash: HashFunction, xs: seq<seq<byte>>, ys: seq<seq<byte>>)
    requires xs != [] && ys != [] && Separated(xs) && Separated(ys)
    requires RootOf(KeccakHasher(hash), HashAll(hash, xs)) == RootOf(KeccakHasher(hash), HashAll(hash, ys))
    ensures multiset(xs) == multiset(ys) || Broken(hash, TwoTrees(hash, xs, ys))
  {
    hide RootOf, Layers, Broken, Separated, CutsThrough, ReachesPadding, IsTreeOver, SameUpToPadding, CollideBelowRoot;
    var hasher := KeccakHasher(hash);
    var hx, hy := HashAll(hash, xs), HashAll(hash, ys);
    var ls, ms := Layers(hasher, hx), Layers(hasher, hy);
    var hashed := TwoTrees(hash, xs, ys);
    LayersAreTree(hasher, hx);
    LayersAreTree(hasher, hy);
    RootMeaning(hasher, hx, hy);
    if CutsThrough(ls, ms) {
      CutBreaks(hash, xs, hy, ms, hashed);
    } else if CutsThrough(ms, ls) {
      CutBreaks(hash, ys, hx, ls, hashed);
    } else if ReachesPadding(hasher, ls) {
      PaddingReached(hash, ls, hashed);
    } else if ReachesPadding(hasher, ms) {
      PaddingReached(hash, ms, hashed);
    } else if CollideBelowRoot(hasher, ls, ms) {
      CollisionBreaks(hash, ls, ms, hashed);
    } else {
      SameHashesSameData(hash, xs, ys, hashed);
    }
  }

  lemma CollisionBreaks(hash: HashFunction, ls: seq<seq<Word>>, ms: seq<seq<Word>>, hashed: iset<seq<byte>>)
    requires TreeStrings(ls) <= hashed && TreeStrings(ms) <= hashed && CollideBelowRoot(KeccakHasher(hash), ls, ms)
    ensures Broken(hash, hashed)
  {
    hide HashedInTree, LayersCollide;
    var d :| CollideAtDepth(KeccakHasher(hash), ls, ms, d);
    CollisionOfStrings(hash, ls, ms, |ls| - 1 - d, |ms| - 1 - d);
    var s, u :| HashedInTree(ls, s) && HashedInTree(ms, u) && HashCollision(hash, s, u);
    assert s in TreeStrings(ls) && u in TreeStrings(ms);
  }

  lemma SameHashesSameData(hash: HashFunction, xs: seq<seq<byte>>, ys: seq<seq<byte>>, hashed: iset<seq<byte>>)
    requires Strings(xs) <= hashed && Strings(ys) <= hashed
    requires SameUpToPadding(KeccakHasher(hash), HashAll(hash, xs), HashAll(hash, ys))
    ensures multiset(xs) == multiset(ys) || Broken(hash, hashed)
  {
    var hx, hy := HashAll(hash, xs), HashAll(hash, ys);
    if multiset(hx) == multiset(hy) {
      HashesContained(hash, xs, ys, hashed);
      HashesContained(hash, ys, xs, hashed);
    } else if multiset(hx + [ZERO_HASH]) == multiset(hy) {
      assert ZERO_HASH in multiset(hy);
      ZeroAmong(hash, ys, hashed);
    } else {
      assert ZERO_HASH in multiset(hx) by { assert ZERO_HASH in multiset(hy + [ZERO_HASH]); }
      ZeroAmong(hash, xs, hashed);
    }
  }

  lemma ZeroAmong(hash: HashFunction, xs: seq<seq<byte>>, hashed: iset<seq<byte>>)
    requires Strings(xs) <= hashed && ZERO_HASH in HashAll(hash, xs)
    ensures Broken(hash, hashed)
  {
    var i :| 0 <= i < |xs| && hash(xs[i]) == ZERO_HASH;
    assert xs[i] in Strings(xs);
  }

  // ---------- membership ----------

  lemma PairForgedBreaks(hash: HashFunction, data: seq<seq<byte>>, layers: seq<seq<Word>>, a: Word, b: Word, hashed: iset<seq<byte>>)
    requires Separated(data) && Strings(data) + TreeStrings(layers) <= hashed && Preimage(a, b) in hashed
    requires PairForged(KeccakHasher(hash), HashAll(hash, data), layers, a, b)
    ensures Broken(hash, hashed)
  {
    hide Preimage;
    var hasher := KeccakHasher(hash);
    if HashInternal(hash, a, b) in HashAll(hash, data) {
      var i :| 0 <= i < |data| && hash(data[i]) == HashInternal(hash, a, b);
      assert data[i] in Strings(data);
      DataIsNoNode(hash, data[i], a, b, hashed);
    } else if HashInternal(hash, a, b) != ZERO_HASH {
      var k, j :| CollidesAt(hasher, layers, k, j, a, b);
      var c, d := layers[k][2 * j], layers[k][2 * j + 1];
      NodeCollisionIsHashCollision(hash, a, b, c, d);
      assert HashedAt(layers, k, j, Preimage(c, d));
      assert Preimage(c, d) in TreeStrings(layers);
    }
  }

  lemma {:induction false} ForgedBreaks(hash: HashFunction, data: seq<seq<byte>>, layers: seq<seq<Word>>, t: Term<Word>, hashed: iset<seq<byte>>)
    requires Separated(data) && Strings(data) + TreeStrings(layers) <= hashed && VerifierStrings(hash, t) <= hashed
    requires Forged(KeccakHasher(hash), HashAll(hash, data), layers, t)
    ensures Broken(hash, hashed)
    decreases t
  {
    hide Broken, PairForged, Separated, Strings, TreeStrings;
    var hasher := KeccakHasher(hash);
    var a, b := Value(hasher, t.left), Value(hasher, t.right);
    assert Preimage(a, b) in VerifierStrings(hash, t);
    if PairForged(hasher, HashAll(hash, data), layers, a, b) {
      PairForgedBreaks(hash, data, layers, a, b, hashed);
    } else if Forged(hasher, HashAll(hash, data), layers, t.left) {
      assert forall s :: s in VerifierStrings(hash, t.left) ==> s in VerifierStrings(hash, t);
      ForgedBreaks(hash, data, layers, t.left, hashed);
    } else {
      assert forall s :: s in VerifierStrings(hash, t.right) ==> s in VerifierStrings(hash, t);
      ForgedBreaks(hash, data, layers, t.right, hashed);
    }
  }

  /** What was hashed for a tree over `data` and for verifying a proof about `items`. */
  ghost function TreeAndProof(hash: HashFunction, data: seq<seq<byte>>, items: seq<seq<byte>>, proof: Proof<Word>): iset<seq<byte>>
    requires data != [] && Balanced(HashAll(hash, items), proof.hashes, proof.sourceFlags)
  {
    var hasher := KeccakHasher(hash);
    Strings(data) + Strings(items) + TreeStrings(Layers(hasher, HashAll(hash, data)))
    + VerifierStrings(hash, VerifierTerm(hasher, HashAll(hash, items), proof))
  }

  /** An accepted proof shows that all its items are in the tree's data, each as often as claimed, or the hash function
      is broken on the strings hashed on the way. */
  lemma MembershipSoundness(hash: HashFunction, data: seq<seq<byte>>, items: seq<seq<byte>>, proof: Proof<Word>)
    requires data != [] && Separated(data) && Separated(items)
    requires Verify(KeccakHasher(hash), HashAll(hash, items), proof)
          == Computed(RootOf(KeccakHasher(hash), HashAll(hash, data)))
    ensures Balanced(HashAll(hash, items), proof.hashes, proof.sourceFlags)
    ensures multiset(items) <= multiset(data) || Broken(hash, TreeAndProof(hash, data, items, proof))
  {
    hide Verify, RootOf, Broken, Balanced, Separated, HashAll, TreeStrings, VerifierStrings;
    ComputesExactlyWhenBalanced(KeccakHasher(hash), HashAll(hash, items), proof);
    var hashed := TreeAndProof(hash, data, items, proof);
    if !Broken(hash, hashed) {
      forall s | s in items
        ensures multiset(HashAll(hash, items))[hash(s)] <= multiset(HashAll(hash, data))[hash(s)]
      {
        ItemSoundness(hash, data, items, proof, s);
      }
      HashesContained(hash, items, data, hashed);
    }
  }

  lemma ItemSoundness(hash: HashFunction, data: seq<seq<byte>>, items: seq<seq<byte>>, proof: Proof<Word>, s: seq<byte>)
    requires data != [] && Separated(data) && Separated(items) && s in items
    requires Verify(KeccakHasher(hash), HashAll(hash, items), proof)
          == Computed(RootOf(KeccakHasher(hash), HashAll(hash, data)))
    requires Balanced(HashAll(hash, items), proof.hashes, proof.sourceFlags)
    ensures || multiset(HashAll(hash, items))[hash(s)] <= multiset(HashAll(hash, data))[hash(s)]
            || Broken(hash, TreeAndProof(hash, data, items, proof))
  {
    hide Verify, RootOf, Layers, Forged, Balanced, Value, Preimage, Broken, VerifierStrings;
    var hasher := KeccakHasher(hash);
    var leaves := HashAll(hash, data);
    var layers := Layers(hasher, leaves);
    var hashed := TreeAndProof(hash, data, items, proof);
    var i :| 0 <= i < |items| && items[i] == s;
    var x := HashAll(hash, items)[i];
    assert x == hash(s) && s in Strings(items);
    if IsInternal(hasher, layers, x) {
      var k, j :| InternalAt(hasher, layers, k, j, x);
      var a, b := layers[k][2 * j], layers[k][2 * j + 1];
      assert HashedAt(layers, k, j, Preimage(a, b));
      assert Preimage(a, b) in TreeStrings(layers);
      DataIsNoNode(hash, s, a, b, hashed);
    } else if x == ZERO_HASH {
      ZeroBreaks(hash, s, hashed);
    } else {
      LeafSoundness(hasher, leaves, HashAll(hash, items), proof, x);
      var t := VerifierTerm(hasher, HashAll(hash, items), proof);
      if Forged(hasher, leaves, layers, t) {
        ForgedBreaks(hash, data, layers, t, hashed);
      }
    }
  }

  /** With this hasher every proof of a tree of at most 256 leaves is accepted, whatever the hash function. */
  lemma KeccakCompleteness(hash: HashFunction, leaves: seq<Word>, indices: seq<int>)
    requires 0 < |leaves| <= MAX_NUMBER_TREE_LEAVES && indices != [] && Ascending(indices, |leaves|)
    ensures var hasher := KeccakHasher(hash);
            var r := ProofFrom(Layers(hasher, leaves), indices);
            r.Proved? && Verify(hasher, Select(leaves, indices), r.proof) == Computed(RootOf(hasher, leaves))
  {
    hide Verify, RootOf, Layers, ProofFrom, HashInternal;
    HashInternalCommutes(hash);
    Completeness(KeccakHasher(hash), leaves, indices);
  }
}
