/** `EncodeBytesOfBytes`: a list of byte strings as one byte string, every length in eight big-endian bytes. */
module ByteEncoding {
  import opened Keccak

  /** The `width` low-order bytes of `n`, most significant first. */
  function BigEndian(n: nat, width: nat): (bytes: seq<byte>)
    ensures |bytes| == width
  {
    if width == 0 then [] else BigEndian(n / 256, width - 1) + [(n % 256) as byte]
  }

  function FromBigEndian(bytes: seq<byte>): nat {
    if bytes == [] then 0 else FromBigEndian(bytes[..|bytes| - 1]) * 256 + bytes[|bytes| - 1] as nat
  }

  function Pow256(k: nat): (p: nat)
    ensures p > 0
  {
    if k == 0 then 1 else 256 * Pow256(k - 1)
  }

  lemma {:induction false} BigEndianInverse(n: nat, width: nat)
    requires n < Pow256(width)
    ensures FromBigEndian(BigEndian(n, width)) == n
    decreases width
  {
    if width > 0 {
      BigEndianInverse(n / 256, width - 1);
      assert BigEndian(n, width)[..width - 1] == BigEndian(n / 256, width - 1);
    }
  }

  const LENGTH_BYTES := 8

  /** Contents preceded by their length, truncated to 64 bits as the unsigned conversion does. */
  function EncodeItem(item: seq<byte>): seq<byte> {
    BigEndian(|item|, LENGTH_BYTES) + item
  }

  function EncodeItems(items: seq<seq<byte>>): seq<byte> {
    if items == [] then [] else EncodeItem(items[0]) + EncodeItems(items[1..])
  }

  function Encode(items: seq<seq<byte>>): seq<byte> {
    BigEndian(|items|, LENGTH_BYTES) + EncodeItems(items)
  }

  /** The count and every length survive the conversion to 64 bits. */
  ghost predicate Fits(items: seq<seq<byte>>) {
    |items| < Pow256(LENGTH_BYTES) && forall i :: 0 <= i < |items| ==> |items[i]| < Pow256(LENGTH_BYTES)
  }

  method EncodeBytesOfBytes(items: seq<seq<byte>>) returns (buffer: seq<byte>)
    ensures buffer == Encode(items)
  {
    buffer := BigEndian(|items|, LENGTH_BYTES);
    for k := 0 to |items|
      invariant Encode(items) == buffer + EncodeItems(items[k..])
    {
      assert items[k..][1..] == items[k + 1..];
      assert EncodeItems(items[k..]) == EncodeItem(items[k]) + EncodeItems(items[k + 1..]);
      var written := BigEndian(|items[k]|, LENGTH_BYTES);
      assert buffer + (written + items[k] + EncodeItems(items[k + 1..]))
          == (buffer + written + items[k]) + EncodeItems(items[k + 1..]);
      buffer := buffer + written;
      buffer := buffer + items[k];
    }
  }

  datatype Decoded = Items(items: seq<seq<byte>>, rest: seq<byte>) | Truncated

  /** Reads `count` length-prefixed items off the front of a byte string. */
  function DecodeItems(count: nat, s: seq<byte>): Decoded {
    if count == 0 then Items([], s)
    else if |s| < LENGTH_BYTES then Truncated
    else
      var length := FromBigEndian(s[..LENGTH_BYTES]);
      var body := s[LENGTH_BYTES..];
      if |body| < length then Truncated
      else
        match DecodeItems(count - 1, body[length..])
        case Items(items, rest) => Items([body[..length]] + items, rest)
        case Truncated => Truncated
  }

  function Decode(s: seq<byte>): Decoded {
    if |s| < LENGTH_BYTES then Truncated
    else DecodeItems(FromBigEndian(s[..LENGTH_BYTES]), s[LENGTH_BYTES..])
  }

  /** A length-prefixed string, split where the decoder splits it. */
  lemma PrefixSplits(n: nat, s: seq<byte>)
    requires n < Pow256(LENGTH_BYTES)
    ensures var t := BigEndian(n, LENGTH_BYTES) + s;
            |t| >= LENGTH_BYTES && FromBigEndian(t[..LENGTH_BYTES]) == n && t[LENGTH_BYTES..] == s
  {
    BigEndianInverse(n, LENGTH_BYTES);
    assert (BigEndian(n, LENGTH_BYTES) + s)[..LENGTH_BYTES] == BigEndian(n, LENGTH_BYTES);
  }

  lemma ItemSplits(prefix: seq<byte>, item: seq<byte>, more: seq<byte>, rest: seq<byte>)
    ensures ((prefix + item) + more) + rest == prefix + (item + (more + rest))
    ensures (item + (more + rest))[..|item|] == item && (item + (more + rest))[|item|..] == more + rest
  {
  }

  lemma {:induction false} DecodeItemsInverts(items: seq<seq<byte>>, rest: seq<byte>)
    requires Fits(items)
    ensures DecodeItems(|items|, EncodeItems(items) + rest) == Items(items, rest)
    decreases |items|
  {
    hide BigEndian, FromBigEndian, Pow256;
    if items == [] {
      assert EncodeItems(items) + rest == rest;
    } else {
      var item, tail := items[0], EncodeItems(items[1..]) + rest;
      DecodeItemsInverts(items[1..], rest);
      PrefixSplits(|item|, item + tail);
      ItemSplits(BigEndian(|item|, LENGTH_BYTES), item, EncodeItems(items[1..]), rest);
      assert [item] + items[1..] == items;
    }
  }

  /** The decoder recovers the list, and whatever follows it, from any encoding of a list that fits 64 bits. */
  lemma DecodeInverts(items: seq<seq<byte>>, rest: seq<byte>)
    requires Fits(items)
    ensures Decode(Encode(items) + rest) == Items(items, rest)
  {
    hide BigEndian, FromBigEndian, Pow256;
    PrefixSplits(|items|, EncodeItems(items) + rest);
    DecodeItemsInverts(items, rest);
    assert Encode(items) + rest == BigEndian(|items|, LENGTH_BYTES) + (EncodeItems(items) + rest);
  }

  /** No encoding is a prefix of another one; in particular the encoding is injective. */
  lemma EncodePrefixFree(xs: seq<seq<byte>>, ys: seq<seq<byte>>)
    requires Fits(xs) && Fits(ys) && Encode(xs) <= Encode(ys)
    ensures xs == ys
  {
    var rest := Encode(ys)[|Encode(xs)|..];
    assert Encode(xs) + rest == Encode(ys) == Encode(ys) + [];
    DecodeInverts(xs, rest);
    DecodeInverts(ys, []);
  }

  // ---------- the format in bytes ----------

  lemma PowersOf256()
    ensures Pow256(1) == 256 && Pow256(8) == 0x1_0000_0000_0000_0000
  {
    assert Pow256(2) == 0x1_0000;
    assert Pow256(4) == 256 * Pow256(3) && Pow256(3) == 256 * Pow256(2);
    assert Pow256(6) == 256 * Pow256(5) && Pow256(5) == 256 * Pow256(4);
    assert Pow256(8) == 256 * Pow256(7) && Pow256(7) == 256 * Pow256(6);
  }

  /** Most significant byte first. */
  lemma MostSignificantFirst(high: byte, low: byte)
    ensures FromBigEndian([high, low]) == high as nat * 256 + low as nat
    ensures BigEndian(high as nat * 256 + low as nat, 2) == [high, low]
  {
    var n := high as nat * 256 + low as nat;
    assert [high, low][..1] == [high] && [high][..0] == [];
    assert FromBigEndian([high]) == high as nat;
    assert n / 256 == high as nat && n % 256 == low as nat;
    assert BigEndian(high as nat, 1) == BigEndian(high as nat / 256, 0) + [high];
  }

  /** An encoding starts with the count in eight bytes; a single item follows with its length in eight bytes and then
      its contents. */
  lemma EncodingInBytes(items: seq<seq<byte>>, item: seq<byte>)
    requires |items| < 0x1_0000_0000_0000_0000 && |item| < 0x1_0000_0000_0000_0000
    ensures |Encode(items)| >= 8 && FromBigEndian(Encode(items)[..8]) == |items|
    ensures Encode([]) == BigEndian(0, 8)
    ensures var e := Encode([item]);
            |e| == 16 + |item| && FromBigEndian(e[8..16]) == |item| && e[16..] == item
  {
    PowersOf256();
    hide BigEndian, FromBigEndian, Pow256;
    PrefixSplits(|items|, EncodeItems(items));
    PrefixSplits(|item|, item);
    assert Encode([]) == BigEndian(0, 8) + [] == BigEndian(0, 8);
    assert EncodeItems([item]) == EncodeItem(item) + [] == EncodeItem(item);
    var e := Encode([item]);
    assert e[8..] == EncodeItem(item) && e[8..16] == EncodeItem(item)[..8] && e[16..] == EncodeItem(item)[8..];
  }
}
