/** The hasher the Merkle code is generic over: an internal-node hash and the padding value. */
module Hashing {

  datatype Hasher<!H> = Hasher(internal: (H, H) -> H, zero: H)

  /** Swapping the two children of a node never changes its hash. */
  ghost predicate Commutative<H(!new)>(hasher: Hasher<H>) {
    forall a, b :: hasher.internal(a, b) == hasher.internal(b, a)
  }

  /** Two different unordered pairs with the same internal hash. */
  ghost predicate Collision<H>(hasher: Hasher<H>, a: H, b: H, c: H, d: H) {
    hasher.internal(a, b) == hasher.internal(c, d) && multiset{a, b} != multiset{c, d}
  }

  /** Equal unordered pairs are equal in one of the two orders. */
  lemma SamePair<H>(a: H, b: H, c: H, d: H)
    requires multiset{a, b} == multiset{c, d}
    ensures (a == c && b == d) || (a == d && b == c)
  {
    assert a in multiset{c, d} && b in multiset{c, d};
    if a == c {
      assert multiset{b} == multiset{a, b} - multiset{a} == multiset{d};
      assert b in multiset{d};
    } else {
      assert multiset{b} == multiset{a, b} - multiset{a} == multiset{c};
      assert b in multiset{c};
    }
  }
}
