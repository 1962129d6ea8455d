/** Dynamic values and their protobuf messages, as mathematical trees. */
module Values {
  import opened Keccak
  import opened ByteEncoding

  /** The mathematical value. */
  datatype Data =
    | DNil
    | DString(s: string)
    | DBool(b: bool)
    | DInt64(i: int)
    | DDecimal(coefficient: int, exponent: int)
    | DBytes(bytes: seq<byte>)
    | DBigInt(n: int)
    | DList(items: seq<Data>)
    | DMap(entries: map<string, Data>)

  /** The protobuf message; `PNothing` has no field of its one-of set. */
  datatype Message =
    | PNothing
    | PString(s: string)
    | PBool(b: bool)
    | PInt64(i: int)
    | PDecimal(coefficientAbs: seq<byte>, coefficientSign: int, exponent: int)
    | PBytes(bytes: seq<byte>)
    | PBigInt(absVal: seq<byte>, sign: int)
    | PList(items: seq<Message>)
    | PMap(entries: map<string, Message>)

  // ---------- encoding ----------

  /** The big-endian magnitude without leading zeros; zero has no bytes. */
  function Magnitude(n: nat): seq<byte> {
    if n == 0 then [] else Magnitude(n / 256) + [(n % 256) as byte]
  }

  function Abs(n: int): nat {
    if n < 0 then -n else n
  }

  function Sign(n: int): int {
    if n < 0 then -1 else if n == 0 then 0 else 1
  }

  function SignedMagnitude(absVal: seq<byte>, sign: int): int {
    if sign < 0 then -(FromBigEndian(absVal) as int) else FromBigEndian(absVal)
  }

  function Encode(d: Data): Message {
    match d
    case DNil => PNothing
    case DString(s) => PString(s)
    case DBool(b) => PBool(b)
    case DInt64(i) => PInt64(i)
    case DDecimal(c, e) => PDecimal(Magnitude(Abs(c)), Sign(c), e)
    case DBytes(bytes) => PBytes(bytes)
    case DBigInt(n) => PBigInt(Magnitude(Abs(n)), Sign(n))
    case DList(items) => PList(seq(|items|, k requires 0 <= k < |items| => Encode(items[k])))
    case DMap(entries) => PMap(map key | key in entries :: Encode(entries[key]))
  }

  function Decode(p: Message): Data {
    match p
    case PNothing => DNil
    case PString(s) => DString(s)
    case PBool(b) => DBool(b)
    case PInt64(i) => DInt64(i)
    case PDecimal(a, sign, e) => DDecimal(SignedMagnitude(a, sign), e)
    case PBytes(bytes) => DBytes(bytes)
    case PBigInt(a, sign) => DBigInt(SignedMagnitude(a, sign))
    case PList(items) => DList(seq(|items|, k requires 0 <= k < |items| => Decode(items[k])))
    case PMap(entries) => DMap(map key | key in entries :: Decode(entries[key]))
  }

  lemma {:induction false} MagnitudeInverse(n: nat)
    ensures FromBigEndian(Magnitude(n)) == n
  {
    if n > 0 {
      MagnitudeInverse(n / 256);
      assert Magnitude(n)[..|Magnitude(n)| - 1] == Magnitude(n / 256);
    }
  }

  lemma SignedInverse(n: int)
    ensures SignedMagnitude(Magnitude(Abs(n)), Sign(n)) == n
  {
    MagnitudeInverse(Abs(n));
  }

  /** Decoding an encoded value gives it back, at every depth of lists and maps. */
  lemma {:induction false} DecodeInverts(d: Data)
    ensures Decode(Encode(d)) == d
  {
    match d
    case DDecimal(c, _) => SignedInverse(c);
    case DBigInt(n) => SignedInverse(n);
    case DList(items) =>
      forall k | 0 <= k < |items|
        ensures Decode(Encode(items[k])) == items[k]
      {
        DecodeInverts(items[k]);
      }
    case DMap(entries) =>
      forall key | key in entries
        ensures Decode(Encode(entries[key])) == entries[key]
      {
        DecodeInverts(entries[key]);
      }
    case _ =>
  }

  /** The signed magnitudes that the encoder produces: no leading zero byte, and the sign of the number. */
  predicate CanonicalNumber(absVal: seq<byte>, sign: int) {
    (absVal != [] ==> absVal[0] != 0) && sign == Sign(SignedMagnitude(absVal, sign))
  }

  lemma {:induction false} MagnitudeOfBytes(bytes: seq<byte>)
    ensures Magnitude(FromBigEndian(bytes)) == bytes <==> (bytes != [] ==> bytes[0] != 0)
    ensures bytes != [] && bytes[0] != 0 ==> FromBigEndian(bytes) > 0
    decreases |bytes|
  {
    if bytes != [] {
      var front, last := bytes[..|bytes| - 1], bytes[|bytes| - 1];
      MagnitudeOfBytes(front);
      var n := FromBigEndian(bytes);
      assert n / 256 == FromBigEndian(front) && n % 256 == last as nat;
      if n > 0 {
        assert Magnitude(n) == Magnitude(FromBigEndian(front)) + [last];
        assert bytes == front + [last];
        if |bytes| > 1 {
          assert front[0] == bytes[0];
        }
      }
    }
  }

  /** A received number is re-encoded to the very bytes received exactly when it was canonical. */
  lemma ReencodesExactly(absVal: seq<byte>, sign: int)
    ensures Encode(Decode(PBigInt(absVal, sign))) == PBigInt(absVal, sign) <==> CanonicalNumber(absVal, sign)
  {
    MagnitudeOfBytes(absVal);
  }

  /** The wire form of a number: 1, 0 or -1 for its sign, and its magnitude, most significant byte first, no byte for
      zero. */
  lemma WireNumbers(n: int, high: byte, low: byte)
    ensures var p := Encode(DBigInt(n)); p.PBigInt? && p.sign == (if n > 0 then 1 else if n == 0 then 0 else -1)
    ensures Encode(DBigInt(0)) == PBigInt([], 0)
    ensures high != 0 ==>
              var n := high as int * 256 + low as int;
              Encode(DBigInt(n)) == PBigInt([high, low], 1) && Encode(DBigInt(-n)) == PBigInt([high, low], -1)
  {
    if high != 0 {
      var n := high as nat * 256 + low as nat;
      assert n / 256 == high as nat && n % 256 == low as nat;
      assert Magnitude(high as nat) == Magnitude(0) + [high] == [high];
      assert Magnitude(n) == Magnitude(high as nat) + [low] == [high, low];
    }
  }

  /** A decimal travels as its coefficient, in the same form, and its exponent. */
  lemma WireDecimals(c: int, e: int)
    ensures var p, q := Encode(DDecimal(c, e)), Encode(DBigInt(c));
            p == PDecimal(q.absVal, q.sign, e)
  {
  }
}
