/** The padded Merkle tree: all layers, bottom up, as `NewTree` builds them. */
module MerkleTree {
  import opened Hashing

  datatype Tree<H> = Tree(layers: seq<seq<H>>)

  datatype TreeResult<H> = Built(tree: Tree<H>) | NoLeaves

  /** An odd layer of more than one node gets the zero hash appended. */
  function Padded<H>(hasher: Hasher<H>, layer: seq<H>): (padded: seq<H>) {
    if |layer| == 1 || |layer| % 2 == 0 then layer else layer + [hasher.zero]
  }

  function Parents<H>(hasher: Hasher<H>, layer: seq<H>): (parents: seq<H>)
    requires |layer| % 2 == 0
    ensures |parents| == |layer| / 2
  {
    seq(|layer| / 2, i requires 0 <= i < |layer| / 2 => hasher.internal(layer[2 * i], layer[2 * i + 1]))
  }

  /** Every layer of the tree over `leaves`; all but the last are padded. */
  function Layers<H>(hasher: Hasher<H>, leaves: seq<H>): (layers: seq<seq<H>>)
    requires |leaves| > 0
    ensures |layers| > 0 && |layers[|layers| - 1]| == 1
    decreases |leaves|
  {
    if |leaves| == 1 then [leaves]
    else
      var padded := Padded(hasher, leaves);
      [padded] + Layers(hasher, Parents(hasher, padded))
  }

  function Root<H>(tree: Tree<H>): H
    requires |tree.layers| > 0 && |tree.layers[|tree.layers| - 1]| > 0
  {
    tree.layers[|tree.layers| - 1][0]
  }

  function RootOf<H>(hasher: Hasher<H>, leaves: seq<H>): H
    requires |leaves| > 0
  {
    Root(Tree(Layers(hasher, leaves)))
  }

  /** `computeNextLayer`: pads the layer, then hashes neighbours pairwise. */
  method ComputeNextLayer<H>(hasher: Hasher<H>, layer: seq<H>) returns (padded: seq<H>, next: seq<H>)
    ensures padded == Padded(hasher, layer)
    ensures |layer| == 1 ==> next == layer
    ensures |layer| != 1 ==> |padded| % 2 == 0 && next == Parents(hasher, padded)
  {
    if |layer| == 1 {
      return layer, layer;
    }
    padded := layer;
    if |padded| % 2 != 0 {
      padded := padded + [hasher.zero];
    }
    next := [];
    var i := 0;
    while i < |padded|
      invariant 0 <= i <= |padded| && i % 2 == 0 && |next| == i / 2
      invariant forall k :: 0 <= k < |next| ==> next[k] == hasher.internal(padded[2 * k], padded[2 * k + 1])
    {
      next := next + [hasher.internal(padded[i], padded[i + 1])];
      i := i + 2;
    }
  }

  /** `NewTree`: the in-place loop builds exactly `Layers`, and rejects only the empty list. */
  method NewTree<H>(hasher: Hasher<H>, leaves: seq<H>) returns (r: TreeResult<H>)
    ensures r == if leaves == [] then NoLeaves else Built(Tree(Layers(hasher, leaves)))
  {
    if |leaves| == 0 {
      return NoLeaves;
    }
    var layer := leaves;
    var layers := [layer];
    var curr := 0;
    while |layer| > 1
      invariant |layer| > 0 && |layers| == curr + 1 && layers[curr] == layer
      invariant Layers(hasher, leaves) == layers[..curr] + Layers(hasher, layer)
      decreases |layer|
    {
      var padded, next := ComputeNextLayer(hasher, layer);
      ghost var below := layers[..curr];
      layers := layers[curr := padded];
      curr := curr + 1;
      layers := layers + [next];
      assert layers[..curr] == below + [padded];
      layer := next;
    }
    assert layers[..curr] + [layer] == layers;
    return Built(Tree(layers));
  }

  /** The declarative shape of a tree over `leaves`: what every node of every layer is. */
  ghost predicate IsTreeOver<H>(hasher: Hasher<H>, leaves: seq<H>, layers: seq<seq<H>>) {
    && 0 < |leaves|
    && 0 < |layers|
    && |layers[|layers| - 1]| == 1
    && layers[0] == Padded(hasher, leaves)
    && forall k :: 0 < k < |layers| ==> LayerFollows(hasher, layers[k - 1], layers[k])
  }

  /** `upper` consists of the parents of `lower`, plus a padding node when their number is odd and not 1. */
  ghost predicate LayerFollows<H>(hasher: Hasher<H>, lower: seq<H>, upper: seq<H>) {
    && |lower| % 2 == 0
    && 0 < |lower|
    && upper == Padded(hasher, Parents(hasher, lower))
  }

  lemma {:induction false} LayersAreTree<H>(hasher: Hasher<H>, leaves: seq<H>)
    requires |leaves| > 0
    ensures IsTreeOver(hasher, leaves, Layers(hasher, leaves))
    decreases |leaves|
  {
    if |leaves| > 1 {
      var padded := Padded(hasher, leaves);
      var layers := Layers(hasher, leaves);
      var above := Layers(hasher, Parents(hasher, padded));
      LayersAreTree(hasher, Parents(hasher, padded));
      forall k | 0 < k < |layers|
        ensures LayerFollows(hasher, layers[k - 1], layers[k])
      {
        assert layers[k] == above[k - 1];
        if k > 1 {
          assert layers[k - 1] == above[k - 2];
        }
      }
    }
  }

  /** The shape determines the layers: nothing else is a tree over these leaves. */
  lemma {:induction false} TreeIsLayers<H>(hasher: Hasher<H>, leaves: seq<H>, layers: seq<seq<H>>)
    requires IsTreeOver(hasher, leaves, layers)
    requires forall k :: 0 <= k < |layers| - 1 ==> |layers[k]| > 1
    ensures layers == Layers(hasher, leaves)
    decreases |leaves|
  {
    if |leaves| == 1 {
      assert |layers[0]| == 1;
      assert layers == [leaves];
    } else {
      var above := layers[1..];
      var parents := Parents(hasher, layers[0]);
      assert |layers| > 1;
      assert LayerFollows(hasher, layers[0], layers[1]);
      assert layers[1] == Padded(hasher, parents);
      assert |layers[0]| > 1;
      forall k | 0 < k < |above|
        ensures LayerFollows(hasher, above[k - 1], above[k])
      {
        assert LayerFollows(hasher, layers[k], layers[k + 1]);
      }
      TreeIsLayers(hasher, parents, above);
      assert layers == [layers[0]] + above;
    }
  }

  // ---------- roots spelled out ----------

  predicate IsPowerOfTwo(n: nat) {
    n == 1 || (n > 0 && n % 2 == 0 && IsPowerOfTwo(n / 2))
  }

  lemma ParentsConcat<H>(hasher: Hasher<H>, xs: seq<H>, ys: seq<H>)
    requires |xs| % 2 == 0 && |ys| % 2 == 0
    ensures Parents(hasher, xs + ys) == Parents(hasher, xs) + Parents(hasher, ys)
  {
  }

  /** The root over two halves of a power of two is the hash of their roots, the left one first. */
  lemma {:induction false} HalvesMeet<H>(hasher: Hasher<H>, xs: seq<H>, ys: seq<H>)
    requires |xs| == |ys| && IsPowerOfTwo(|xs|)
    ensures RootOf(hasher, xs + ys) == hasher.internal(RootOf(hasher, xs), RootOf(hasher, ys))
    decreases |xs|
  {
    if |xs| == 1 {
      assert xs == [xs[0]] && ys == [ys[0]] && xs + ys == [xs[0], ys[0]];
      PairRoot(hasher, xs[0], ys[0]);
      SingleRoot(hasher, xs[0]);
      SingleRoot(hasher, ys[0]);
    } else {
      ParentsConcat(hasher, xs, ys);
      HalvesMeet(hasher, Parents(hasher, xs), Parents(hasher, ys));
      OneLayerUp(hasher, xs);
      OneLayerUp(hasher, ys);
      OneLayerUp(hasher, xs + ys);
    }
  }

  lemma OneLayerUp<H>(hasher: Hasher<H>, leaves: seq<H>)
    requires |leaves| > 1 && |leaves| % 2 == 0
    ensures RootOf(hasher, leaves) == RootOf(hasher, Parents(hasher, leaves))
  {
  }

  lemma OnePaddedUp<H>(hasher: Hasher<H>, leaves: seq<H>)
    requires |leaves| > 1 && |leaves| % 2 == 1
    ensures RootOf(hasher, leaves) == RootOf(hasher, Parents(hasher, leaves + [hasher.zero]))
  {
  }

  /** Padding is added on every layer that needs it, on the right. */
  lemma OddTrees<H>(hasher: Hasher<H>, a: H, b: H, c: H, d: H, e: H)
    ensures RootOf(hasher, [a]) == a
    ensures RootOf(hasher, [a, b, c]) == hasher.internal(hasher.internal(a, b), hasher.internal(c, hasher.zero))
    ensures RootOf(hasher, [a, b, c, d, e])
         == hasher.internal(hasher.internal(hasher.internal(a, b), hasher.internal(c, d)),
                            hasher.internal(hasher.internal(e, hasher.zero), hasher.zero))
  {
    hide RootOf, Parents;
    var h, z := hasher.internal, hasher.zero;
    SingleRoot(hasher, a);
    OnePaddedUp(hasher, [a, b, c]);
    assert [a, b, c] + [z] == [a, b, c, z];
    ParentsOfFour(hasher, a, b, c, z);
    PairRoot(hasher, h(a, b), h(c, z));
    OnePaddedUp(hasher, [a, b, c, d, e]);
    assert [a, b, c, d, e] + [z] == [a, b, c, d] + [e, z];
    ParentsConcat(hasher, [a, b, c, d], [e, z]);
    ParentsOfFour(hasher, a, b, c, d);
    ParentsOfTwo(hasher, e, z);
    var next := [h(a, b), h(c, d), h(e, z)];
    assert [h(a, b), h(c, d)] + [h(e, z)] == next;
    OnePaddedUp(hasher, next);
    assert next + [z] == [h(a, b), h(c, d), h(e, z), z];
    ParentsOfFour(hasher, h(a, b), h(c, d), h(e, z), z);
    PairRoot(hasher, h(h(a, b), h(c, d)), h(h(e, z), z));
  }

  lemma SingleRoot<H>(hasher: Hasher<H>, a: H)
    ensures RootOf(hasher, [a]) == a
  {
  }

  lemma ParentsOfTwo<H>(hasher: Hasher<H>, a: H, b: H)
    ensures Parents(hasher, [a, b]) == [hasher.internal(a, b)]
  {
  }

  lemma ParentsOfFour<H>(hasher: Hasher<H>, a: H, b: H, c: H, d: H)
    ensures Parents(hasher, [a, b, c, d]) == [hasher.internal(a, b), hasher.internal(c, d)]
  {
  }

  lemma PairRoot<H>(hasher: Hasher<H>, a: H, b: H)
    ensures RootOf(hasher, [a, b]) == hasher.internal(a, b)
  {
    OneLayerUp(hasher, [a, b]);
    ParentsOfTwo(hasher, a, b);
    SingleRoot(hasher, hasher.internal(a, b));
  }
}
