/** The text form of LINK amounts: whole juels below the threshold, decimal LINK from the threshold on. */
module LinkText {
  import opened Options
  import opened Decimals

  const PRECISION := 18

  /** 10^12 juels, the smallest amount written in LINK. */
  const LINK_FMT_THRESHOLD := 1_000_000_000_000

  datatype Parsed = Juels(amount: int) | BadDecimal | TooPrecise | BadInteger | ExponentNotation

  predicate HasSuffix(s: string, suffix: string) {
    |s| >= |suffix| && s[|s| - |suffix|..] == suffix
  }

  function TrimSuffix(s: string, suffix: string): string {
    if HasSuffix(s, suffix) then s[..|s| - |suffix|] else s
  }

  // ---------- printing ----------

  function TrimZeros(s: string): string {
    if s != "" && s[|s| - 1] == '0' then TrimZeros(s[..|s| - 1]) else s
  }

  /** The digits of `n`, left-padded so that at least one stands before the last eighteen. */
  function Padded(n: nat): (s: string)
    ensures |s| > PRECISION && AllDigits(s)
  {
    var digits := Digits(n);
    if |digits| > PRECISION then digits else Zeros(PRECISION + 1 - |digits|) + digits
  }

  /** `n` juels in LINK: trailing zeros of the fraction are dropped, and the point with them. */
  function DecimalText(n: nat): string {
    var s := Padded(n);
    var fraction := TrimZeros(s[|s| - PRECISION..]);
    s[..|s| - PRECISION] + if fraction == "" then "" else "." + fraction
  }

  function TextOf(juels: int): string {
    if juels >= LINK_FMT_THRESHOLD then DecimalText(juels) + " link" else IntText(juels)
  }

  // ---------- parsing ----------

  function IndexOf(s: string, c: char): nat {
    if s == "" || s[0] == c then 0 else 1 + IndexOf(s[1..], c)
  }

  /** The decimal `digits * 10^-scale` in juels, when that is a whole number. */
  function InJuels(digits: int, scale: nat): Parsed {
    if scale <= PRECISION then Juels(digits * Pow10(PRECISION - scale))
    else if digits % Pow10(scale - PRECISION) == 0 then Juels(digits / Pow10(scale - PRECISION))
    else TooPrecise
  }

  /** A decimal amount of LINK: optional sign, digits, at most one point. */
  function ParseDecimal(s: string): Parsed {
    if 'e' in s || 'E' in s then ExponentNotation
    else
      var point := IndexOf(s, '.');
      var whole, fraction := s[..Min(point, |s|)], s[Min(point + 1, |s|)..];
      if '.' in fraction then BadDecimal
      else
        match ParseInt(whole + fraction)
        case None => BadDecimal
        case Some(digits) => InJuels(digits, |fraction|)
  }

  function Min(a: nat, b: nat): nat {
    if a < b then a else b
  }

  function ParseText(text: string): Parsed {
    if HasSuffix(text, "link") then ParseDecimal(TrimSuffix(TrimSuffix(text, "link"), " "))
    else
      var s := if HasSuffix(text, "juels") then TrimSuffix(TrimSuffix(text, "juels"), " ") else text;
      match ParseInt(s)
      case None => BadInteger
      case Some(i) => Juels(i)
  }

  /** An amount of LINK, in juels. */
  class Link {
    var juels: int

    constructor (amount: int)
      ensures juels == amount
    {
      juels := amount;
    }

    /** The text of the amount, and one that is read back as this amount. */
    method MarshalText() returns (text: string)
      ensures text == TextOf(juels) && ParseText(text) == Juels(juels)
    {
      TextRoundTrip(juels);
      if juels >= LINK_FMT_THRESHOLD {
        return DecimalText(juels) + " link";
      }
      return IntText(juels);
    }

    /** On success the receiver holds the parsed amount. A failed parse of LINK leaves the receiver alone; after a
        failed parse of juels its value is unspecified. */
    method UnmarshalText(text: string) returns (result: Parsed)
      modifies this
      ensures result == ParseText(text)
      ensures result.Juels? ==> juels == result.amount
      ensures result.BadDecimal? || result.TooPrecise? || result.ExponentNotation? ==> juels == old(juels)
    {
      if HasSuffix(text, "link") {
        var s := TrimSuffix(TrimSuffix(text, "link"), " ");
        result := ParseDecimal(s);
        if result.Juels? {
          juels := result.amount;
        }
        return;
      }
      var s := text;
      if HasSuffix(s, "juels") {
        s := TrimSuffix(TrimSuffix(s, "juels"), " ");
      }
      match ParseInt(s) {
        case None =>
          juels := *;
          return BadInteger;
        case Some(i) =>
          juels := i;
          return Juels(i);
      }
    }
  }

  // ---------- what the two do together ----------

  lemma {:induction false} TrimZerosSplits(s: string)
    ensures |TrimZeros(s)| <= |s| && s == TrimZeros(s) + Zeros(|s| - |TrimZeros(s)|)
  {
    if s != "" && s[|s| - 1] == '0' {
      TrimZerosSplits(s[..|s| - 1]);
      var k := |s| - 1 - |TrimZeros(s)|;
      assert s == s[..|s| - 1] + "0";
      assert Zeros(k) + "0" == Zeros(k + 1);
    } else {
      assert s == s + Zeros(0);
    }
  }

  lemma PaddedValue(n: nat)
    ensures Value(Padded(n)) == n
  {
    hide Value, Digits;
    var digits := Digits(n);
    ValueOfDigits(n);
    if |digits| <= PRECISION {
      ValueConcat(Zeros(PRECISION + 1 - |digits|), digits);
      ValueZeros(PRECISION + 1 - |digits|);
    }
  }

  lemma {:induction false} IndexOfFirst(a: string, b: string, c: char)
    requires c !in a && (b == "" || b[0] == c)
    ensures IndexOf(a + b, c) == |a|
  {
    if a == "" {
      assert a + b == b;
    } else {
      assert (a + b)[1..] == a[1..] + b;
      IndexOfFirst(a[1..], b, c);
    }
  }

  lemma DigitsOnly(s: string, c: char)
    requires AllDigits(s) && !IsDigit(c)
    ensures c !in s
  {
  }

  predicate IsSign(sign: string) {
    sign == "" || sign == "+" || sign == "-"
  }

  function Signed(sign: string, n: nat): int {
    if sign == "-" then 0 - n else n
  }

  /** A decimal numeral: sign, digits, and possibly a point with more digits. */
  function Numeral(sign: string, whole: string, point: bool, fraction: string): string {
    (sign + whole) + if point then "." + fraction else ""
  }

  lemma ParseSigned(sign: string, digits: string)
    requires IsSign(sign) && digits != "" && AllDigits(digits)
    ensures ParseInt(sign + digits) == Some(Signed(sign, Value(digits)))
  {
    hide Value;
    var s := sign + digits;
    if sign == "" {
      assert s == digits && IsDigit(s[0]);
    } else {
      assert s[0] == sign[0] && s[1..] == digits;
    }
  }

  /** Parsing a decimal numeral. */
  lemma ParseDecimalOf(sign: string, whole: string, point: bool, fraction: string)
    requires IsSign(sign) && AllDigits(whole) && AllDigits(fraction) && whole + fraction != "" && (point || fraction == "")
    ensures AllDigits(whole + fraction)
    ensures ParseDecimal(Numeral(sign, whole, point, fraction)) == InJuels(Signed(sign, Value(whole + fraction)), |fraction|)
  {
    hide *;
    assert AllDigits(whole + fraction) by { DigitsConcat(whole, fraction); }
    var s := Numeral(sign, whole, point, fraction);
    NumeralSplits(sign, whole, point, fraction);
    assert (sign + whole) + fraction == sign + (whole + fraction);
    ParseSigned(sign, whole + fraction);
    ParseDecimalSplit(s, sign + whole, fraction);
  }

  lemma DigitsConcat(a: string, b: string)
    requires AllDigits(a) && AllDigits(b)
    ensures AllDigits(a + b)
  {
  }

  lemma NumeralSplits(sign: string, whole: string, point: bool, fraction: string)
    requires IsSign(sign) && AllDigits(whole) && AllDigits(fraction) && (point || fraction == "")
    ensures var s := Numeral(sign, whole, point, fraction);
            && 'e' !in s && 'E' !in s && '.' !in fraction
            && s[..Min(IndexOf(s, '.'), |s|)] == sign + whole && s[Min(IndexOf(s, '.') + 1, |s|)..] == fraction
  {
    var front, rest := sign + whole, if point then "." + fraction else "";
    forall c | c in {'e', 'E', '.'}
      ensures c !in front && c !in fraction
    {
      DigitsOnly(whole, c);
      DigitsOnly(fraction, c);
    }
    IndexOfFirst(front, rest, '.');
    hide AllDigits, IndexOf;
    var s := front + rest;
    assert s[..|front|] == front;
    assert s[Min(|front| + 1, |s|)..] == fraction;
  }

  lemma ParseDecimalSplit(s: string, front: string, fraction: string)
    requires 'e' !in s && 'E' !in s && '.' !in fraction
    requires s[..Min(IndexOf(s, '.'), |s|)] == front && s[Min(IndexOf(s, '.') + 1, |s|)..] == fraction
    requires ParseInt(front + fraction).Some?
    ensures ParseDecimal(s) == InJuels(ParseInt(front + fraction).value, |fraction|)
  {
    hide IndexOf, ParseInt, InJuels;
  }

  lemma PaddedStart(n: nat)
    ensures |Padded(n)| == PRECISION + 1 || Padded(n)[0] != '0'
  {
    hide Digits;
    NoLeadingZero(n);
  }

  lemma {:induction false} TrimZerosEnd(s: string)
    ensures TrimZeros(s) != "" ==> TrimZeros(s)[|TrimZeros(s)| - 1] != '0'
  {
    if s != "" && s[|s| - 1] == '0' {
      TrimZerosEnd(s[..|s| - 1]);
    }
  }

  /** The decimal text of `n`, taken apart: the kept digits and the dropped zeros still denote `n`, the fraction does not
      end in a zero, and the whole part does not start with one unless it is just that. */
  lemma DecimalParts(n: nat) returns (whole: string, fraction: string)
    ensures AllDigits(whole) && AllDigits(fraction) && whole != "" && |fraction| <= PRECISION
    ensures AllDigits(whole + fraction) && Value(whole + fraction) * Pow10(PRECISION - |fraction|) == n
    ensures DecimalText(n) == whole + if fraction == "" then "" else "." + fraction
    ensures fraction != "" ==> fraction[|fraction| - 1] != '0'
    ensures |whole| == 1 || whole[0] != '0'
  {
    hide Value, Pow10, TrimZeros, Digits;
    NoLeadingZero(n);
    hide Padded;
    PaddedStart(n);
    var s := Padded(n);
    whole := s[..|s| - PRECISION];
    var full := s[|s| - PRECISION..];
    fraction := TrimZeros(full);
    var k := PRECISION - |fraction|;
    TrimZerosSplits(full);
    TrimZerosEnd(full);
    assert forall i :: 0 <= i < |fraction| ==> fraction[i] == full[i];
    assert s == (whole + fraction) + Zeros(k);
    ValueConcat(whole + fraction, Zeros(k));
    ValueZeros(k);
    PaddedValue(n);
  }

  /** The decimal text of an amount parses to that amount. */
  lemma DecimalRoundTrip(n: nat)
    ensures ParseDecimal(DecimalText(n)) == Juels(n)
  {
    hide Value, Pow10, DecimalText, ParseDecimal;
    var whole, fraction := DecimalParts(n);
    ParseDecimalOf("", whole, fraction != "", fraction);
    assert Numeral("", whole, fraction != "", fraction) == DecimalText(n) by { assert "" + whole == whole; }
  }

  lemma SuffixSplits(body: string, suffix: string)
    ensures HasSuffix(body + suffix, suffix) && TrimSuffix(body + suffix, suffix) == body
  {
  }

  lemma LinkSuffix(body: string)
    ensures ParseText(body + " link") == ParseDecimal(body)
  {
    hide ParseDecimal, HasSuffix, TrimSuffix;
    assert body + " link" == (body + " ") + "link";
    SuffixSplits(body + " ", "link");
    SuffixSplits(body, " ");
  }

  lemma NoUnitSuffix(text: string)
    requires text != "" && IsDigit(text[|text| - 1])
    ensures !HasSuffix(text, "link") && !HasSuffix(text, "juels")
  {
    LastOfSuffix(text, "link");
    LastOfSuffix(text, "juels");
  }

  lemma LastOfSuffix(text: string, suffix: string)
    requires suffix != ""
    ensures HasSuffix(text, suffix) ==> text != "" && text[|text| - 1] == suffix[|suffix| - 1]
  {
    if HasSuffix(text, suffix) {
      assert text[|text| - |suffix|..][|suffix| - 1] == suffix[|suffix| - 1];
    }
  }

  /** Round trip: every amount, negative, small or large, is recovered from its text. */
  lemma TextRoundTrip(juels: int)
    ensures ParseText(TextOf(juels)) == Juels(juels)
  {
    hide ParseDecimal, DecimalText, HasSuffix, TrimSuffix, ParseInt, IntText;
    if juels >= LINK_FMT_THRESHOLD {
      LinkSuffix(DecimalText(juels));
      DecimalRoundTrip(juels);
    } else {
      ParseIntInverts(juels);
      LastIsDigit(juels);
      NoUnitSuffix(IntText(juels));
    }
  }

  lemma LastIsDigit(i: int)
    ensures var s := IntText(i); s != "" && IsDigit(s[|s| - 1])
  {
    var digits := Digits(if i < 0 then -i else i);
    assert IsDigit(digits[|digits| - 1]);
  }

  /** Different amounts never share a text. */
  lemma TextInjective(a: int, b: int)
    requires TextOf(a) == TextOf(b)
    ensures a == b
  {
    TextRoundTrip(a);
    TextRoundTrip(b);
  }

  /** The meaning of a LINK text, signed or not, with or without a point: exactly the whole number of juels equal to
      that decimal, and an error when there is none. */
  lemma LinkTextMeaning(sign: string, whole: string, point: bool, fraction: string, juels: int)
    requires IsSign(sign) && AllDigits(whole) && AllDigits(fraction) && whole + fraction != "" && (point || fraction == "")
    ensures AllDigits(whole + fraction)
    ensures var r := ParseText(Numeral(sign, whole, point, fraction) + " link");
            && (r == Juels(juels) <==> juels * Pow10(|fraction|) == Signed(sign, Value(whole + fraction)) * Pow10(PRECISION))
            && (r.Juels? || r == TooPrecise)
  {
    hide ParseText, ParseDecimal, InJuels, Value, Numeral;
    LinkSuffix(Numeral(sign, whole, point, fraction));
    ParseDecimalOf(sign, whole, point, fraction);
    InJuelsMeaning(Signed(sign, Value(whole + fraction)), |fraction|, juels);
  }

  lemma InJuelsMeaning(digits: int, scale: nat, juels: int)
    ensures InJuels(digits, scale) == Juels(juels) <==> juels * Pow10(scale) == digits * Pow10(PRECISION)
    ensures InJuels(digits, scale).Juels? || InJuels(digits, scale) == TooPrecise
  {
    hide Pow10;
    if digits >= 0 {
      InJuelsOfNat(digits, scale, juels);
    } else {
      InJuelsNegated(-digits, scale);
      InJuelsOfNat(-digits, scale, -juels);
      Negated(juels, Pow10(scale));
      Negated(digits, Pow10(PRECISION));
    }
  }

  lemma Negated(a: int, p: nat)
    ensures (-a) * p == -(a * p)
  {
  }

  lemma NegatedQuotient(d: nat, p: nat)
    requires p > 0
    ensures (0 - d) % p == 0 <==> d % p == 0
    ensures d % p == 0 ==> (0 - d) / p == 0 - d / p
  {
    DivMod(d, p);
    var q, r := (0 - d) / p, (0 - d) % p;
    assert 0 - d == p * q + r;
    Negated(q, p);
    if r == 0 {
      ExactQuotient(d, p, -q);
    } else if d % p == 0 {
      assert d == p * (d / p);
      QuotientUnique(p, -q - 1, p - r, d / p, 0);
    }
  }

  lemma InJuelsNegated(digits: nat, scale: nat)
    ensures InJuels(0 - digits, scale) == match InJuels(digits, scale) case Juels(a) => Juels(0 - a) case other => other
  {
    hide Pow10;
    if scale <= PRECISION {
      Negated(digits, Pow10(PRECISION - scale));
    } else {
      NegatedQuotient(digits, Pow10(scale - PRECISION));
    }
  }

  lemma InJuelsOfNat(digits: nat, scale: nat, juels: int)
    ensures InJuels(digits, scale) == Juels(juels) <==> juels * Pow10(scale) == digits * Pow10(PRECISION)
    ensures InJuels(digits, scale).Juels? || InJuels(digits, scale) == TooPrecise
  {
    hide Pow10;
    if juels < 0 {
      assert juels * Pow10(scale) < 0 <= digits * Pow10(PRECISION);
      InJuelsNotNegative(digits, scale);
    } else if scale <= PRECISION {
      Pow10Add(PRECISION - scale, scale);
      Scaled(digits, juels, Pow10(PRECISION - scale), Pow10(scale), Pow10(PRECISION));
    } else {
      var q := Pow10(scale - PRECISION);
      Pow10Add(scale - PRECISION, PRECISION);
      Scaled(juels, digits, q, Pow10(PRECISION), Pow10(scale));
      ExactQuotient(digits, q, juels);
      assert q * juels == juels * q;
    }
  }

  lemma InJuelsNotNegative(digits: nat, scale: nat)
    ensures InJuels(digits, scale).Juels? ==> InJuels(digits, scale).amount >= 0
  {
  }

  // ---------- how many juels a LINK is ----------

  /** One LINK is 10^18 juels: whole amounts read. */
  lemma WholeLinkReads(w: string)
    requires w != "" && AllDigits(w)
    ensures ParseText(w + " link") == Juels(Value(w) * 1_000_000_000_000_000_000)
  {
    hide ParseText, ParseDecimal, Value, Pow10;
    LinkSuffix(w);
    assert Numeral("", w, false, "") == w && w + "" == w;
    ParseDecimalOf("", w, false, "");
    PowersWritten();
  }

  lemma {:induction false} TrimAllZeros(k: nat)
    ensures TrimZeros(Zeros(k)) == ""
  {
    if k > 0 {
      TrimAllZeros(k - 1);
      assert Zeros(k)[..k - 1] == Zeros(k - 1);
    }
  }

  /** One LINK is 10^18 juels: whole amounts written. */
  lemma WholeLinkWrites(n: nat)
    requires n > 0
    ensures TextOf(n * 1_000_000_000_000_000_000) == Digits(n) + " link"
  {
    hide Pow10, TrimZeros;
    PowersWritten();
    DigitsScaled(n, 18);
    TrimAllZeros(18);
    var s := Digits(n) + Zeros(18);
    assert s[|s| - 18..] == Zeros(18) && s[..|s| - 18] == Digits(n);
    assert Digits(n) + "" == Digits(n);
  }

  /** From 10^12 juels on an amount is written in LINK, below in juels without a unit. */
  lemma FormByThreshold(juels: int)
    ensures juels < 1_000_000_000_000 ==> TextOf(juels) == IntText(juels)
    ensures juels >= 1_000_000_000_000 ==> HasSuffix(TextOf(juels), " link")
  {
    hide DecimalText, IntText;
    if juels >= 1_000_000_000_000 {
      SuffixSplits(DecimalText(juels), " link");
    }
  }

  /** The units as they may be spelled: `juels` or nothing for juels, a space before the unit or none. */
  lemma UnitSpellings(i: int, w: string)
    requires w != "" && AllDigits(w)
    ensures ParseText(IntText(i)) == ParseText(IntText(i) + "juels") == ParseText(IntText(i) + " juels") == Juels(i)
    ensures ParseText(w + "link") == ParseText(w + " link")
  {
    hide ParseInt, ParseDecimal, IntText, HasSuffix, TrimSuffix, AllDigits;
    ParseIntInverts(i);
    LastIsDigit(i);
    var t := IntText(i);
    NoUnitSuffix(t);
    JuelsSuffix(t);
    LinkSuffix(w);
    DigitLast(w);
    SuffixSplits(w, "link");
    NoSpaceSuffix(w);
  }

  lemma DigitLast(w: string)
    requires w != "" && AllDigits(w)
    ensures IsDigit(w[|w| - 1])
  {
  }

  lemma NoSpaceSuffix(t: string)
    requires t != "" && IsDigit(t[|t| - 1])
    ensures TrimSuffix(t, " ") == t
  {
    LastOfSuffix(t, " ");
  }

  lemma JuelsSuffix(t: string)
    requires t != "" && IsDigit(t[|t| - 1])
    ensures ParseText(t + "juels") == ParseText(t + " juels")
         == match ParseInt(t) case None => BadInteger case Some(i) => Juels(i)
  {
    hide ParseInt, ParseDecimal, HasSuffix, TrimSuffix;
    var bare, spaced := t + "juels", (t + " ") + "juels";
    assert spaced == t + " juels";
    SuffixSplits(t, "juels");
    SuffixSplits(t + " ", "juels");
    SuffixSplits(t, " ");
    NoSpaceSuffix(t);
    LastOfSuffix(bare, "link");
    LastOfSuffix(spaced, "link");
  }
}
