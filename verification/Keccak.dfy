/** The concrete internal-node hash of the repository, over an arbitrary 32-byte hash function. */
module Keccak {
  import opened Hashing

  newtype byte = x: int | 0 <= x < 256

  type Word = w: seq<byte> | |w| == 32 witness
    [0, 0, 0, 0, 0, 0, 0, 0, 0, 0, 0, 0, 0, 0, 0, 0,
     0, 0, 0, 0, 0, 0, 0, 0, 0, 0, 0, 0, 0, 0, 0, 0]

  type HashFunction = seq<byte> -> Word

  const INTERNAL_DOMAIN_SEPARATOR: Word :=
    [0, 0, 0, 0, 0, 0, 0, 0, 0, 0, 0, 0, 0, 0, 0, 0,
     0, 0, 0, 0, 0, 0, 0, 0, 0, 0, 0, 0, 0, 0, 0, 1]

  const ZERO_HASH: Word :=
    [0xFF, 0xFF, 0xFF, 0xFF, 0xFF, 0xFF, 0xFF, 0xFF, 0xFF, 0xFF, 0xFF, 0xFF, 0xFF, 0xFF, 0xFF, 0xFF,
     0xFF, 0xFF, 0xFF, 0xFF, 0xFF, 0xFF, 0xFF, 0xFF, 0xFF, 0xFF, 0xFF, 0xFF, 0xFF, 0xFF, 0xFF, 0xFF]

  /** `bytes.Compare(a, b) < 0`: the lexicographic order of byte strings. */
  predicate Less(a: seq<byte>, b: seq<byte>) {
    b != [] && (a == [] || a[0] < b[0] || (a[0] == b[0] && Less(a[1..], b[1..])))
  }

  /** The byte string hashed for an internal node: separator, then the two children in ascending order. */
  function Preimage(a: Word, b: Word): seq<byte> {
    if Less(a, b) then INTERNAL_DOMAIN_SEPARATOR + (a + b) else INTERNAL_DOMAIN_SEPARATOR + (b + a)
  }

  function HashInternal(hash: HashFunction, a: Word, b: Word): Word {
    hash(Preimage(a, b))
  }

  function KeccakHasher(hash: HashFunction): Hasher<Word> {
    Hasher((a, b) => HashInternal(hash, a, b), ZERO_HASH)
  }

  method ZeroHash() returns (zeroes: array<byte>)
    ensures zeroes[..] == ZERO_HASH
    ensures zeroes.Length == 32 && forall k :: 0 <= k < 32 ==> zeroes[k] == 0xFF
  {
    zeroes := new byte[32];
    for i := 0 to 32
      invariant forall k :: 0 <= k < i ==> zeroes[k] == 0xFF
    {
      zeroes[i] := 0xFF;
    }
  }

  lemma {:induction false} LessIsTotal(a: seq<byte>, b: seq<byte>)
    requires |a| == |b|
    ensures Less(a, b) || Less(b, a) <==> a != b
    ensures !(Less(a, b) && Less(b, a))
  {
    if a != [] {
      LessIsTotal(a[1..], b[1..]);
      assert a == [a[0]] + a[1..] && b == [b[0]] + b[1..];
    }
  }

  lemma {:induction false} LessAtFirstDifference(a: seq<byte>, b: seq<byte>, i: nat)
    requires i < |a| && i < |b| && a[..i] == b[..i] && a[i] < b[i]
    ensures Less(a, b) && !Less(b, a)
    decreases i
  {
    if i > 0 {
      assert a[0] == a[..i][0] == b[..i][0] == b[0];
      assert a[1..][..i - 1] == a[..i][1..] && b[1..][..i - 1] == b[..i][1..];
      LessAtFirstDifference(a[1..], b[1..], i - 1);
    }
  }

  /** The bytes of a node: 31 zero bytes and a one, then the word that is smaller at the first difference, then the
      other one, in whatever order they are given. */
  lemma NodeBytes(hash: HashFunction, separator: seq<byte>, a: Word, b: Word, i: nat)
    requires |separator| == 32 && (forall k :: 0 <= k < 31 ==> separator[k] == 0) && separator[31] == 1
    requires i < 32 && a[..i] == b[..i] && a[i] < b[i]
    ensures HashInternal(hash, a, b) == HashInternal(hash, b, a) == hash(separator + a + b)
  {
    LessAtFirstDifference(a, b, i);
    assert separator == INTERNAL_DOMAIN_SEPARATOR;
    assert separator + a + b == separator + (a + b);
  }

  lemma NodeBytesOfEqual(hash: HashFunction, separator: seq<byte>, a: Word)
    requires |separator| == 32 && (forall k :: 0 <= k < 31 ==> separator[k] == 0) && separator[31] == 1
    ensures HashInternal(hash, a, a) == hash(separator + a + a)
  {
    assert separator == INTERNAL_DOMAIN_SEPARATOR;
    assert separator + a + a == separator + (a + a);
  }

  /** Sorting the children makes the node hash independent of their order. */
  lemma HashInternalCommutes(hash: HashFunction)
    ensures Commutative(KeccakHasher(hash))
  {
    forall a: Word, b: Word
      ensures HashInternal(hash, a, b) == HashInternal(hash, b, a)
    {
      LessIsTotal(a, b);
    }
  }

  /** Two preimages agree exactly when they were made from the same unordered pair. */
  lemma PreimageInjective(a: Word, b: Word, c: Word, d: Word)
    ensures Preimage(a, b) == Preimage(c, d) <==> multiset{a, b} == multiset{c, d}
  {
    LessIsTotal(a, b);
    LessIsTotal(c, d);
    var p, q := Preimage(a, b)[32..], Preimage(c, d)[32..];
    assert p == (if Less(a, b) then a + b else b + a);
    assert q == (if Less(c, d) then c + d else d + c);
    if Preimage(a, b) == Preimage(c, d) {
      assert multiset{p[..32], p[32..]} == multiset{q[..32], q[32..]};
      assert multiset{p[..32], p[32..]} == multiset{a, b};
      assert multiset{q[..32], q[32..]} == multiset{c, d};
    } else if multiset{a, b} == multiset{c, d} {
      SamePair(a, b, c, d);
    }
  }

  /** Two different byte strings with one hash. */
  ghost predicate HashCollision(hash: HashFunction, s: seq<byte>, t: seq<byte>) {
    s != t && hash(s) == hash(t)
  }

  /** A collision of the node hash is a collision of the underlying hash function, on the two preimages. */
  lemma NodeCollisionIsHashCollision(hash: HashFunction, a: Word, b: Word, c: Word, d: Word)
    ensures Collision(KeccakHasher(hash), a, b, c, d) <==> HashCollision(hash, Preimage(a, b), Preimage(c, d))
  {
    PreimageInjective(a, b, c, d);
  }

  /** Byte strings that do not start with the internal separator never share a preimage with an internal node. */
  lemma DomainSeparation(hash: HashFunction, leafData: seq<byte>, a: Word, b: Word)
    requires !(INTERNAL_DOMAIN_SEPARATOR <= leafData)
    ensures hash(leafData) == HashInternal(hash, a, b) ==> HashCollision(hash, leafData, Preimage(a, b))
  {
    assert INTERNAL_DOMAIN_SEPARATOR <= Preimage(a, b);
  }
}
