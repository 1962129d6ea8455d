/** A root commits to its leaves: equal roots mean equal leaves, up to order, or an explicit collision. */
module MerkleBinding {
  import opened Hashing
  import opened MerkleTree

  /** The `i`-th pair of `p` and the `j`-th pair of `q` are different pairs with one hash. */
  ghost predicate CollidingPairs<H>(hasher: Hasher<H>, p: seq<H>, q: seq<H>, i: int, j: int) {
    && 0 <= i && 2 * i + 1 < |p|
    && 0 <= j && 2 * j + 1 < |q|
    && Collision(hasher, p[2 * i], p[2 * i + 1], q[2 * j], q[2 * j + 1])
  }

  ghost predicate LayersCollide<H>(hasher: Hasher<H>, p: seq<H>, q: seq<H>) {
    exists i, j :: CollidingPairs(hasher, p, q, i, j)
  }

  /** Two trees contain different sibling pairs, on the same layer, with one hash. */
  ghost predicate TreesCollide<H>(hasher: Hasher<H>, ls: seq<seq<H>>, ms: seq<seq<H>>) {
    exists k :: 0 <= k < |ls| && k < |ms| && LayersCollide(hasher, ls[k], ms[k])
  }

  /** Layer by layer, the same hashes with the same multiplicities. */
  ghost predicate SameLayers<H>(ls: seq<seq<H>>, ms: seq<seq<H>>) {
    |ls| == |ms| && forall k :: 0 <= k < |ls| ==> multiset(ls[k]) == multiset(ms[k])
  }

  function WithoutPair<H>(p: seq<H>, j: nat): seq<H>
    requires 2 * j + 1 < |p|
  {
    p[..2 * j] + p[2 * j + 2..]
  }

  lemma WithoutPairMultiset<H>(p: seq<H>, j: nat)
    requires 2 * j + 1 < |p|
    ensures multiset(p) == multiset(WithoutPair(p, j)) + multiset{p[2 * j], p[2 * j + 1]}
  {
    assert p == p[..2 * j] + ([p[2 * j], p[2 * j + 1]] + p[2 * j + 2..]);
  }

  lemma ParentsWithoutPair<H>(hasher: Hasher<H>, p: seq<H>, j: nat)
    requires |p| % 2 == 0 && 2 * j + 1 < |p|
    ensures |WithoutPair(p, j)| % 2 == 0
    ensures Parents(hasher, WithoutPair(p, j)) == Parents(hasher, p)[..j] + Parents(hasher, p)[j + 1..]
  {
    var up, rest := Parents(hasher, p), Parents(hasher, WithoutPair(p, j));
    var spliced := up[..j] + up[j + 1..];
    assert |rest| == |spliced|;
    forall i | 0 <= i < |rest|
      ensures rest[i] == spliced[i]
    {
      var i' := if i < j then i else i + 1;
      assert WithoutPair(p, j)[2 * i] == p[2 * i'] && WithoutPair(p, j)[2 * i + 1] == p[2 * i' + 1];
      assert spliced[i] == up[i'];
    }
  }

  lemma SplicedMultiset<H>(s: seq<H>, j: nat)
    requires j < |s|
    ensures multiset(s) == multiset(s[..j] + s[j + 1..]) + multiset{s[j]}
  {
    assert s == s[..j] + ([s[j]] + s[j + 1..]);
  }

  lemma WithoutPairParents<H>(hasher: Hasher<H>, p: seq<H>, j: nat)
    requires |p| % 2 == 0 && 2 * j + 1 < |p|
    ensures |WithoutPair(p, j)| % 2 == 0
    ensures multiset(Parents(hasher, p))
         == multiset(Parents(hasher, WithoutPair(p, j))) + multiset{hasher.internal(p[2 * j], p[2 * j + 1])}
  {
    var up := Parents(hasher, p);
    assert up[j] == hasher.internal(p[2 * j], p[2 * j + 1]);
    hide Parents, WithoutPair;
    ParentsWithoutPair(hasher, p, j);
    SplicedMultiset(up, j);
  }

  lemma WithoutPairCollides<H>(hasher: Hasher<H>, p: seq<H>, q: seq<H>, i: nat, j: nat)
    requires |p| % 2 == 0 && |q| % 2 == 0 && 2 * i + 1 < |p| && 2 * j + 1 < |q|
    requires LayersCollide(hasher, WithoutPair(p, i), WithoutPair(q, j))
    ensures LayersCollide(hasher, p, q)
  {
    var i', j' :| CollidingPairs(hasher, WithoutPair(p, i), WithoutPair(q, j), i', j');
    assert CollidingPairs(hasher, p, q, if i' < i then i' else i' + 1, if j' < j then j' else j' + 1);
  }

  /** Equal parents, as multisets, come from equal children, unless two pairs collide. */
  lemma {:induction false} ParentsBindChildren<H>(hasher: Hasher<H>, p: seq<H>, q: seq<H>)
    requires |p| == |q| && |p| % 2 == 0
    requires multiset(Parents(hasher, p)) == multiset(Parents(hasher, q))
    ensures multiset(p) == multiset(q) || LayersCollide(hasher, p, q)
    decreases |p|
  {
    if |p| == 0 {
      assert p == q;
    } else {
      var v := hasher.internal(p[0], p[1]);
      assert v == Parents(hasher, p)[0] && v in multiset(Parents(hasher, p));
      var j :| 0 <= j < |Parents(hasher, q)| && Parents(hasher, q)[j] == v;
      RemovedPairBinds(hasher, p, q, j);
      ParentsBindChildren(hasher, WithoutPair(p, 0), WithoutPair(q, j));
    }
  }

  lemma RemovedPairBinds<H>(hasher: Hasher<H>, p: seq<H>, q: seq<H>, j: nat)
    requires |p| == |q| > 0 && |p| % 2 == 0 && 2 * j + 1 < |q|
    requires hasher.internal(p[0], p[1]) == hasher.internal(q[2 * j], q[2 * j + 1])
    requires multiset(Parents(hasher, p)) == multiset(Parents(hasher, q))
    ensures var p', q' := WithoutPair(p, 0), WithoutPair(q, j);
            && |p'| == |q'| < |p| && |p'| % 2 == 0
            && multiset(Parents(hasher, p')) == multiset(Parents(hasher, q'))
            && (multiset(p') == multiset(q') || LayersCollide(hasher, p', q') ==>
                multiset(p) == multiset(q) || LayersCollide(hasher, p, q))
  {
    hide Parents, LayersCollide;
    var p', q' := WithoutPair(p, 0), WithoutPair(q, j);
    var v := hasher.internal(p[0], p[1]);
    WithoutPairParents(hasher, p, 0);
    WithoutPairParents(hasher, q, j);
    RemoveOne(multiset(Parents(hasher, p')), multiset(Parents(hasher, q')), multiset{v});
    WithoutPairMultiset(p, 0);
    WithoutPairMultiset(q, j);
    if LayersCollide(hasher, p', q') {
      WithoutPairCollides(hasher, p, q, 0, j);
    } else if multiset{p[0], p[1]} != multiset{q[2 * j], q[2 * j + 1]} {
      CollideHere(hasher, p, q, 0, j);
    }
  }

  lemma CollideHere<H>(hasher: Hasher<H>, p: seq<H>, q: seq<H>, i: nat, j: nat)
    requires 2 * i + 1 < |p| && 2 * j + 1 < |q|
    requires Collision(hasher, p[2 * i], p[2 * i + 1], q[2 * j], q[2 * j + 1])
    ensures LayersCollide(hasher, p, q)
  {
    assert CollidingPairs(hasher, p, q, i, j);
  }

  lemma RemoveOne<H>(a: multiset<H>, b: multiset<H>, c: multiset<H>)
    requires a + c == b + c
    ensures a == b
  {
    assert a == (a + c) - c;
    assert b == (b + c) - c;
  }

  /** Root binding. Trees over leaf lists of one length with equal roots have the same multiset of hashes in every
      layer, and the same multiset of leaves, or two sibling pairs of theirs collide. */
  lemma {:induction false} RootBinding<H>(hasher: Hasher<H>, xs: seq<H>, ys: seq<H>)
    requires |xs| == |ys| > 0 && RootOf(hasher, xs) == RootOf(hasher, ys)
    ensures || (SameLayers(Layers(hasher, xs), Layers(hasher, ys)) && multiset(xs) == multiset(ys))
            || TreesCollide(hasher, Layers(hasher, xs), Layers(hasher, ys))
    decreases |xs|
  {
    if |xs| == 1 {
      assert xs == ys;
    } else {
      var p, q := Padded(hasher, xs), Padded(hasher, ys);
      var ls, ms := Layers(hasher, Parents(hasher, p)), Layers(hasher, Parents(hasher, q));
      RootBinding(hasher, Parents(hasher, p), Parents(hasher, q));
      LiftLayers(hasher, p, q, ls, ms);
      if !TreesCollide(hasher, [p] + ls, [q] + ms) {
        ParentsBindChildren(hasher, p, q);
        if |xs| % 2 != 0 {
          RemoveOne(multiset(xs), multiset(ys), multiset{hasher.zero});
        }
      }
    }
  }

  lemma LiftLayers<H>(hasher: Hasher<H>, p: seq<H>, q: seq<H>, ls: seq<seq<H>>, ms: seq<seq<H>>)
    ensures LayersCollide(hasher, p, q) || TreesCollide(hasher, ls, ms) ==> TreesCollide(hasher, [p] + ls, [q] + ms)
    ensures multiset(p) == multiset(q) && SameLayers(ls, ms) ==> SameLayers([p] + ls, [q] + ms)
  {
    hide LayersCollide;
    var ls', ms' := [p] + ls, [q] + ms;
    assert ls'[0] == p && ms'[0] == q;
    if TreesCollide(hasher, ls, ms) {
      var k :| 0 <= k < |ls| && k < |ms| && LayersCollide(hasher, ls[k], ms[k]);
      assert ls'[k + 1] == ls[k] && ms'[k + 1] == ms[k];
    }
  }

  /** Equal lengths are needed: appending the padding value to an odd list of several leaves keeps the root. */
  lemma PaddingIsInvisible<H>(hasher: Hasher<H>, xs: seq<H>)
    requires |xs| > 1 && |xs| % 2 == 1
    ensures RootOf(hasher, xs + [hasher.zero]) == RootOf(hasher, xs)
    ensures multiset(xs + [hasher.zero]) != multiset(xs)
  {
    assert Padded(hasher, xs + [hasher.zero]) == Padded(hasher, xs);
    assert |multiset(xs + [hasher.zero])| == |multiset(xs)| + 1;
  }

  // ---------- lists of any lengths ----------

  /** The same leaves in some order, except that one list may have the padding value appended. */
  ghost predicate SameUpToPadding<H>(hasher: Hasher<H>, xs: seq<H>, ys: seq<H>) {
    || multiset(xs) == multiset(ys)
    || multiset(xs + [hasher.zero]) == multiset(ys)
    || multiset(xs) == multiset(ys + [hasher.zero])
  }

  /** Two trees contain different sibling pairs, at the same distance from the root, with one hash. */
  ghost predicate CollideBelowRoot<H>(hasher: Hasher<H>, ls: seq<seq<H>>, ms: seq<seq<H>>) {
    exists d :: CollideAtDepth(hasher, ls, ms, d)
  }

  ghost predicate CollideAtDepth<H>(hasher: Hasher<H>, ls: seq<seq<H>>, ms: seq<seq<H>>, d: int) {
    0 <= d < |ls| && d < |ms| && LayersCollide(hasher, ls[|ls| - 1 - d], ms[|ms| - 1 - d])
  }

  ghost predicate PaddingAt<H>(hasher: Hasher<H>, layer: seq<H>, j: int) {
    0 <= j && 2 * j + 1 < |layer| && hasher.internal(layer[2 * j], layer[2 * j + 1]) == hasher.zero
  }

  /** Some pair of siblings hashes to the padding value. */
  ghost predicate ReachesPadding<H>(hasher: Hasher<H>, ls: seq<seq<H>>) {
    exists k, j :: 0 <= k < |ls| && PaddingAt(hasher, ls[k], j)
  }

  /** The padded leaves of the lower tree are, up to order, an inner layer of the higher one. */
  ghost predicate CutsThrough<H>(ls: seq<seq<H>>, ms: seq<seq<H>>) {
    0 < |ls| < |ms| && multiset(ls[0]) == multiset(ms[|ms| - |ls|])
  }

  /** What can be behind equal roots of any two trees. */
  ghost predicate RootsExplained<H>(hasher: Hasher<H>, xs: seq<H>, ys: seq<H>, ls: seq<seq<H>>, ms: seq<seq<H>>) {
    || (|ls| == |ms| && |ls| > 0 && multiset(ls[0]) == multiset(ms[0]) && SameUpToPadding(hasher, xs, ys))
    || CutsThrough(ls, ms) || CutsThrough(ms, ls)
    || CollideBelowRoot(hasher, ls, ms)
    || ReachesPadding(hasher, ls) || ReachesPadding(hasher, ms)
  }

  lemma LiftCollision<H>(hasher: Hasher<H>, p: seq<H>, q: seq<H>, ls: seq<seq<H>>, ms: seq<seq<H>>)
    ensures CollideBelowRoot(hasher, ls, ms) ==> CollideBelowRoot(hasher, [p] + ls, [q] + ms)
    ensures CollideBelowRoot(hasher, ls, ms) ==> CollideBelowRoot(hasher, ls, [q] + ms)
    ensures |ls| == |ms| && LayersCollide(hasher, p, q) ==> CollideBelowRoot(hasher, [p] + ls, [q] + ms)
  {
    hide LayersCollide;
    var ls', ms' := [p] + ls, [q] + ms;
    if d :| CollideAtDepth(hasher, ls, ms, d) {
      assert ls'[|ls'| - 1 - d] == ls[|ls| - 1 - d] && ms'[|ms'| - 1 - d] == ms[|ms| - 1 - d];
      assert CollideAtDepth(hasher, ls', ms', d) && CollideAtDepth(hasher, ls, ms', d);
    }
    if |ls| == |ms| && LayersCollide(hasher, p, q) {
      assert ls'[|ls'| - 1 - |ls|] == p && ms'[|ms'| - 1 - |ls|] == q;
      assert CollideAtDepth(hasher, ls', ms', |ls|);
    }
  }

  lemma LiftPadding<H>(hasher: Hasher<H>, p: seq<H>, ls: seq<seq<H>>)
    ensures ReachesPadding(hasher, ls) ==> ReachesPadding(hasher, [p] + ls)
    ensures |p| % 2 == 0 && hasher.zero in Parents(hasher, p) ==> ReachesPadding(hasher, [p] + ls)
  {
    var ls' := [p] + ls;
    if k, j :| 0 <= k < |ls| && PaddingAt(hasher, ls[k], j) {
      assert ls'[k + 1] == ls[k];
    }
    if |p| % 2 == 0 && hasher.zero in Parents(hasher, p) {
      var j :| 0 <= j < |Parents(hasher, p)| && Parents(hasher, p)[j] == hasher.zero;
      assert ls'[0] == p && PaddingAt(hasher, p, j);
    }
  }

  /** Equal padded lists have equal lengths, or the shorter one was padded and the longer one holds the padding value. */
  lemma PaddedEqual<H>(hasher: Hasher<H>, xs: seq<H>, ys: seq<H>)
    requires multiset(Padded(hasher, xs)) == multiset(Padded(hasher, ys))
    ensures |Padded(hasher, xs)| == |Padded(hasher, ys)| && SameUpToPadding(hasher, xs, ys)
    ensures |xs| == |ys| ==> multiset(xs) == multiset(ys)
    ensures |xs| < |ys| ==> hasher.zero in ys
    ensures |ys| < |xs| ==> hasher.zero in xs
  {
    var p, q := Padded(hasher, xs), Padded(hasher, ys);
    assert |multiset(p)| == |p| && |multiset(q)| == |q|;
    if |xs| == |ys| && p != xs {
      RemoveOne(multiset(xs), multiset(ys), multiset{hasher.zero});
    }
    if |xs| < |ys| {
      assert hasher.zero in multiset(ys);
    }
    if |ys| < |xs| {
      assert hasher.zero in multiset(xs);
    }
  }

  /** One layer down, in trees of one height: equal unpadded parents come from equal padded children. */
  lemma DownOneLayer<H>(hasher: Hasher<H>, xs: seq<H>, ys: seq<H>, ls: seq<seq<H>>, ms: seq<seq<H>>)
    requires |xs| > 1 && |ys| > 1 && |ls| == |ms|
    requires var a, b := Parents(hasher, Padded(hasher, xs)), Parents(hasher, Padded(hasher, ys));
             multiset(Padded(hasher, a)) == multiset(Padded(hasher, b))
    ensures RootsExplained(hasher, xs, ys, [Padded(hasher, xs)] + ls, [Padded(hasher, ys)] + ms)
  {
    hide Parents, ReachesPadding, CollideBelowRoot, LayersCollide, Padded, SameUpToPadding;
    var p, q := Padded(hasher, xs), Padded(hasher, ys);
    PaddedEven(hasher, xs);
    PaddedEven(hasher, ys);
    var a, b := Parents(hasher, p), Parents(hasher, q);
    PaddedEqual(hasher, a, b);
    LiftPadding(hasher, p, ls);
    LiftPadding(hasher, q, ms);
    if |a| == |b| {
      ParentsBindChildren(hasher, p, q);
      LiftCollision(hasher, p, q, ls, ms);
      if multiset(p) == multiset(q) {
        PaddedEqual(hasher, xs, ys);
      }
    }
  }

  lemma PaddedEven<H>(hasher: Hasher<H>, xs: seq<H>)
    requires |xs| > 1
    ensures |Padded(hasher, xs)| % 2 == 0
  {
  }

  lemma LayersUnfold<H>(hasher: Hasher<H>, xs: seq<H>)
    requires xs != []
    ensures |xs| == 1 ==> Layers(hasher, xs) == [xs] && Padded(hasher, xs) == xs
    ensures |xs| > 1 ==>
              && |Padded(hasher, xs)| % 2 == 0
              && var a := Parents(hasher, Padded(hasher, xs));
                 && 0 < |a| < |xs| && RootOf(hasher, xs) == RootOf(hasher, a)
                 && Layers(hasher, xs) == [Padded(hasher, xs)] + Layers(hasher, a)
    ensures Layers(hasher, xs)[0] == Padded(hasher, xs) && (|Layers(hasher, xs)| == 1 ==> |xs| == 1)
  {
  }

  /** Root binding over lists of any lengths. Equal roots of trees of one height mean the same padded leaves; of
      different heights, that the leaves of the lower tree are an inner layer of the higher one. Anything else shows
      two colliding sibling pairs, or a pair that hashes to the padding value. */
  lemma {:induction false} RootMeaning<H>(hasher: Hasher<H>, xs: seq<H>, ys: seq<H>)
    requires xs != [] && ys != [] && RootOf(hasher, xs) == RootOf(hasher, ys)
    ensures RootsExplained(hasher, xs, ys, Layers(hasher, xs), Layers(hasher, ys))
    decreases |xs| + |ys|
  {
    hide RootOf, Layers, Parents, Padded, ReachesPadding, CollideBelowRoot, SameUpToPadding, RootsExplained, CutsThrough;
    LayersUnfold(hasher, xs);
    LayersUnfold(hasher, ys);
    var ls, ms := Layers(hasher, xs), Layers(hasher, ys);
    if |ls| < |ms| {
      RootMeaning(hasher, xs, Parents(hasher, Padded(hasher, ys)));
      LowerLeft(hasher, xs, ys);
    } else if |ms| < |ls| {
      RootMeaning(hasher, Parents(hasher, Padded(hasher, xs)), ys);
      ExplainedSymmetric(hasher, Parents(hasher, Padded(hasher, xs)), ys, ls[1..], ms);
      LowerLeft(hasher, ys, xs);
      ExplainedSymmetric(hasher, ys, xs, ms, ls);
    } else if |ls| == 1 {
      SingleLeaves(hasher, xs, ys);
    } else {
      RootMeaning(hasher, Parents(hasher, Padded(hasher, xs)), Parents(hasher, Padded(hasher, ys)));
      SameHeight(hasher, xs, ys);
    }
  }

  lemma SingleLeaves<H>(hasher: Hasher<H>, xs: seq<H>, ys: seq<H>)
    requires |xs| == |ys| == 1 && RootOf(hasher, xs) == RootOf(hasher, ys)
    ensures RootsExplained(hasher, xs, ys, Layers(hasher, xs), Layers(hasher, ys))
  {
    assert xs == ys;
  }

  lemma ExplainedSymmetric<H>(hasher: Hasher<H>, xs: seq<H>, ys: seq<H>, ls: seq<seq<H>>, ms: seq<seq<H>>)
    requires RootsExplained(hasher, xs, ys, ls, ms)
    ensures RootsExplained(hasher, ys, xs, ms, ls)
  {
    if CollideBelowRoot(hasher, ls, ms) {
      var d :| CollideAtDepth(hasher, ls, ms, d);
      CollideSymmetric(hasher, ls[|ls| - 1 - d], ms[|ms| - 1 - d]);
      assert CollideAtDepth(hasher, ms, ls, d);
    }
  }

  lemma CollideSymmetric<H>(hasher: Hasher<H>, p: seq<H>, q: seq<H>)
    requires LayersCollide(hasher, p, q)
    ensures LayersCollide(hasher, q, p)
  {
    var i, j :| CollidingPairs(hasher, p, q, i, j);
    assert CollidingPairs(hasher, q, p, j, i);
  }

  /** The higher tree gets its lowest layer back. */
  lemma LowerLeft<H>(hasher: Hasher<H>, xs: seq<H>, ys: seq<H>)
    requires xs != [] && |ys| > 1 && |Layers(hasher, xs)| < |Layers(hasher, ys)| && |Padded(hasher, ys)| % 2 == 0
    requires var b := Parents(hasher, Padded(hasher, ys));
             b != [] && RootsExplained(hasher, xs, b, Layers(hasher, xs), Layers(hasher, b))
    ensures RootsExplained(hasher, xs, ys, Layers(hasher, xs), Layers(hasher, ys))
  {
    hide Parents, Padded, ReachesPadding, CollideBelowRoot, SameUpToPadding, Layers, RootOf;
    LayersUnfold(hasher, xs);
    LayersUnfold(hasher, ys);
    var ls, ms := Layers(hasher, xs), Layers(hasher, Parents(hasher, Padded(hasher, ys)));
    LiftCollision(hasher, [], Padded(hasher, ys), ls, ms);
    LiftPadding(hasher, Padded(hasher, ys), ms);
  }

  lemma SameHeight<H>(hasher: Hasher<H>, xs: seq<H>, ys: seq<H>)
    requires |xs| > 1 && |ys| > 1 && |Layers(hasher, xs)| == |Layers(hasher, ys)|
    requires |Padded(hasher, xs)| % 2 == 0 && |Padded(hasher, ys)| % 2 == 0
    requires var a, b := Parents(hasher, Padded(hasher, xs)), Parents(hasher, Padded(hasher, ys));
             a != [] && b != [] && RootsExplained(hasher, a, b, Layers(hasher, a), Layers(hasher, b))
    ensures RootsExplained(hasher, xs, ys, Layers(hasher, xs), Layers(hasher, ys))
  {
    hide Parents, Padded, ReachesPadding, CollideBelowRoot, SameUpToPadding, Layers, RootOf;
    LayersUnfold(hasher, xs);
    LayersUnfold(hasher, ys);
    var p, q := Padded(hasher, xs), Padded(hasher, ys);
    var a, b := Parents(hasher, p), Parents(hasher, q);
    LayersUnfold(hasher, a);
    LayersUnfold(hasher, b);
    var ls, ms := Layers(hasher, a), Layers(hasher, b);
    LiftCollision(hasher, p, q, ls, ms);
    LiftPadding(hasher, p, ls);
    LiftPadding(hasher, q, ms);
    if multiset(ls[0]) == multiset(ms[0]) {
      DownOneLayer(hasher, xs, ys, ls, ms);
    }
  }

  /** Such cuts exist: the parents of a list, taken as leaves, have the root of the list. */
  lemma InnerLayerHasSameRoot<H>(hasher: Hasher<H>, ys: seq<H>)
    requires |ys| > 1
    ensures var parents := Parents(hasher, Padded(hasher, ys));
            && RootOf(hasher, parents) == RootOf(hasher, ys)
            && CutsThrough(Layers(hasher, parents), Layers(hasher, ys))
  {
    LayersUnfold(hasher, ys);
  }
}
