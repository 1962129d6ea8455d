/** Unpadded standard base64 (sections 3.2 and 4 of RFC 4648) over strings of 8-bit characters. */
module Base64 {
  import opened Options
  import opened Decimals

  predicate IsByteString(s: string) {
    forall i :: 0 <= i < |s| ==> s[i] as int < 256
  }

  function CharOf(d: nat): (c: char)
    requires d < 64
    ensures IndexOf(c) == Some(d)
  {
    if d < 26 then 'A' + d as char
    else if d < 52 then 'a' + (d - 26) as char
    else if d < 62 then '0' + (d - 52) as char
    else if d == 62 then '+' else '/'
  }

  function IndexOf(c: char): (d: Option<nat>)
    ensures d.Some? ==> d.value < 64
  {
    if 'A' <= c <= 'Z' then Some((c - 'A') as nat)
    else if 'a' <= c <= 'z' then Some((c - 'a') as nat + 26)
    else if '0' <= c <= '9' then Some((c - '0') as nat + 52)
    else if c == '+' then Some(62)
    else if c == '/' then Some(63)
    else None
  }

  function Encode(s: string): string
    requires IsByteString(s)
  {
    if s == "" then ""
    else
      var a := s[0] as nat;
      if |s| == 1 then [CharOf(a / 4), CharOf(a % 4 * 16)]
      else
        var b := s[1] as nat;
        if |s| == 2 then [CharOf(a / 4), CharOf(a % 4 * 16 + b / 16), CharOf(b % 16 * 4)]
        else
          var c := s[2] as nat;
          [CharOf(a / 4), CharOf(a % 4 * 16 + b / 16), CharOf(b % 16 * 4 + c / 64), CharOf(c % 64)] + Encode(s[3..])
  }

  /** Decoding skips line breaks, as the decoder of the standard library does. */
  function WithoutBreaks(t: string): string {
    if t == "" then ""
    else if t[0] == '\n' || t[0] == '\r' then WithoutBreaks(t[1..])
    else [t[0]] + WithoutBreaks(t[1..])
  }

  /** Groups of four digits; a shorter last group of two or three is allowed, its spare bits are ignored. */
  function DecodeGroups(t: string): Option<string> {
    if t == "" then Some("")
    else if |t| == 1 || IndexOf(t[0]) == None || IndexOf(t[1]) == None then None
    else
      var p, q := IndexOf(t[0]).value, IndexOf(t[1]).value;
      var a := (p * 4 + q / 16) as char;
      if |t| == 2 then Some([a])
      else if IndexOf(t[2]) == None then None
      else
        var r := IndexOf(t[2]).value;
        var b := (q % 16 * 16 + r / 4) as char;
        if |t| == 3 then Some([a, b])
        else if IndexOf(t[3]) == None then None
        else
          var c := (r % 4 * 64 + IndexOf(t[3]).value) as char;
          match DecodeGroups(t[4..])
          case None => None
          case Some(rest) => Some([a, b, c] + rest)
  }

  function Decode(t: string): Option<string> {
    DecodeGroups(WithoutBreaks(t))
  }

  predicate AllInAlphabet(t: string) {
    forall i :: 0 <= i < |t| ==> IndexOf(t[i]).Some?
  }

  lemma {:induction false} EncodeInAlphabet(s: string)
    requires IsByteString(s)
    ensures AllInAlphabet(Encode(s))
    ensures Encode(s) == "" <==> s == ""
  {
    if |s| >= 3 {
      EncodeInAlphabet(s[3..]);
    }
  }

  lemma {:induction false} NoBreaks(t: string)
    requires AllInAlphabet(t)
    ensures WithoutBreaks(t) == t
  {
    if t != "" {
      assert IndexOf(t[0]).Some?;
      NoBreaks(t[1..]);
    }
  }

  /** Splitting three bytes into four digits and joining them again; a shorter group is padded with zero bytes. */
  lemma GroupInverts(a: nat, b: nat, c: nat)
    requires a < 256 && b < 256 && c < 256
    ensures a / 4 * 4 + (a % 4 * 16 + b / 16) / 16 == a
    ensures (a % 4 * 16 + b / 16) % 16 * 16 + (b % 16 * 4 + c / 64) / 4 == b
    ensures (b % 16 * 4 + c / 64) % 4 * 64 + c % 64 == c
  {
    DivMod(a, 4);
    DivMod(b, 16);
    DivMod(c, 64);
    QuotientUnique(16, a % 4, b / 16, (a % 4 * 16 + b / 16) / 16, (a % 4 * 16 + b / 16) % 16);
    QuotientUnique(4, b % 16, c / 64, (b % 16 * 4 + c / 64) / 4, (b % 16 * 4 + c / 64) % 4);
  }

  lemma DecodeFullGroup(p: nat, q: nat, r: nat, v: nat, rest: string, later: string)
    requires p < 64 && q < 64 && r < 64 && v < 64
    requires DecodeGroups(rest) == Some(later)
    ensures DecodeGroups([CharOf(p), CharOf(q), CharOf(r), CharOf(v)] + rest)
            == Some([(p * 4 + q / 16) as char, (q % 16 * 16 + r / 4) as char, (r % 4 * 64 + v) as char] + later)
  {
    hide CharOf, IndexOf;
    var t := [CharOf(p), CharOf(q), CharOf(r), CharOf(v)] + rest;
    assert t[4..] == rest;
  }

  lemma DecodeShortGroup(p: nat, q: nat, r: nat)
    requires p < 64 && q < 64 && r < 64
    ensures DecodeGroups([CharOf(p), CharOf(q)]) == Some([(p * 4 + q / 16) as char])
    ensures DecodeGroups([CharOf(p), CharOf(q), CharOf(r)])
            == Some([(p * 4 + q / 16) as char, (q % 16 * 16 + r / 4) as char])
  {
    hide CharOf, IndexOf;
  }

  lemma {:induction false} DecodeGroupsInverts(s: string)
    requires IsByteString(s)
    ensures DecodeGroups(Encode(s)) == Some(s)
  {
    hide CharOf, IndexOf, DecodeGroups;
    if s == "" {
      EmptyDecodes();
    } else {
      var a := s[0] as nat;
      var b := if |s| > 1 then s[1] as nat else 0;
      var c := if |s| > 2 then s[2] as nat else 0;
      var p, q, r, v := a / 4, a % 4 * 16 + b / 16, b % 16 * 4 + c / 64, c % 64;
      GroupInverts(a, b, c);
      if |s| > 2 {
        DecodeGroupsInverts(s[3..]);
        DecodeFullGroup(p, q, r, v, Encode(s[3..]), s[3..]);
        assert s == [s[0], s[1], s[2]] + s[3..];
      } else {
        DecodeShortGroup(p, q, r);
        assert s == if |s| == 1 then [s[0]] else [s[0], s[1]];
      }
    }
  }

  lemma EmptyDecodes()
    ensures DecodeGroups("") == Some("")
  {
  }

  lemma DecodeInverts(s: string)
    requires IsByteString(s)
    ensures Decode(Encode(s)) == Some(s)
  {
    EncodeInAlphabet(s);
    NoBreaks(Encode(s));
    DecodeGroupsInverts(s);
  }

  /** The alphabet of section 4 of RFC 4648, by character codes: capital letters, small letters, digits, plus, slash. */
  lemma Alphabet(d: nat)
    requires d < 64
    ensures CharOf(d) as int == if d < 26 then 65 + d else if d < 52 then 71 + d else if d < 62 then d - 4 else if d == 62 then 43 else 47
    ensures CharOf(0) == 'A' && CharOf(25) == 'Z' && CharOf(26) == 'a' && CharOf(51) == 'z' && CharOf(52) == '0' && CharOf(61) == '9'
  {
  }

  /** Test vectors of section 10 of RFC 4648, without the padding. */
  lemma TestVectors()
    ensures Encode("f") == "Zg" && Encode("fo") == "Zm8" && Encode("foo") == "Zm9v" && Encode("foob") == "Zm9vYg"
  {
    assert "foo"[3..] == "" && "foob"[3..] == "b";
    assert Encode("") == "" && Encode("b") == "Yg";
  }

  /** A character outside the alphabet, other than a line break, and a lone last digit are refused. */
  lemma {:induction false} Refused(t: string, k: nat)
    requires k < |t| && IndexOf(t[k]) == None
    ensures DecodeGroups(t) == None
    decreases |t|
  {
    hide IndexOf;
    if k >= 4 {
      Refused(t[4..], k - 4);
    }
  }

  /** Line breaks are ignored wherever they stand. */
  lemma {:induction false} LineBreaksIgnored(t: string, u: string)
    ensures WithoutBreaks(t + "\r\n" + u) == WithoutBreaks(t + u)
    ensures Decode(t + "\r\n" + u) == Decode(t + u)
  {
    var broken := t + "\r\n" + u;
    if t == "" {
      assert broken[1..][1..] == u && t + u == u && broken[1..][0] == '\n';
    } else {
      LineBreaksIgnored(t[1..], u);
      assert broken[1..] == t[1..] + "\r\n" + u && (t + u)[1..] == t[1..] + u;
    }
  }
}
