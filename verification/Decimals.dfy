/** Decimal numerals: printing integers and reading them back. */
module Decimals {
  import opened Options

  predicate IsDigit(c: char) {
    '0' <= c <= '9'
  }

  predicate AllDigits(s: string) {
    forall i :: 0 <= i < |s| ==> IsDigit(s[i])
  }

  function DigitChar(d: nat): (c: char)
    requires d < 10
    ensures IsDigit(c) && DigitValue(c) == d
  {
    '0' + d as char
  }

  function DigitValue(c: char): nat
    requires IsDigit(c)
  {
    (c - '0') as nat
  }

  /** The number a digit string denotes; the empty string denotes 0. */
  function Value(s: string): nat
    requires AllDigits(s)
  {
    if s == "" then 0 else 10 * Value(s[..|s| - 1]) + DigitValue(s[|s| - 1])
  }

  /** The numeral of `n` without leading zeros. */
  function Digits(n: nat): (s: string)
    ensures s != "" && AllDigits(s)
  {
    if n < 10 then [DigitChar(n)] else Digits(n / 10) + [DigitChar(n % 10)]
  }

  function IntText(i: int): string {
    if i < 0 then "-" + Digits(-i) else Digits(i)
  }

  /** An optional sign and at least one digit, and nothing else. */
  function ParseInt(s: string): Option<int> {
    if s == "" then None
    else if s[0] == '-' then (if |s| > 1 && AllDigits(s[1..]) then Some(0 - Value(s[1..])) else None)
    else if s[0] == '+' then (if |s| > 1 && AllDigits(s[1..]) then Some(Value(s[1..])) else None)
    else if AllDigits(s) then Some(Value(s))
    else None
  }

  function Pow10(k: nat): (p: nat)
    ensures p > 0
  {
    if k == 0 then 1 else 10 * Pow10(k - 1)
  }

  function Zeros(k: nat): (s: string)
    ensures |s| == k && AllDigits(s) && forall i :: 0 <= i < k ==> s[i] == '0'
  {
    seq(k, _ => '0')
  }

  lemma {:induction false} ValueOfDigits(n: nat)
    ensures Value(Digits(n)) == n
  {
    if n < 10 {
      assert Digits(n)[..0] == "";
    } else {
      ValueOfDigits(n / 10);
      assert Digits(n)[..|Digits(n)| - 1] == Digits(n / 10);
    }
  }

  /** Reading a printed integer gives it back. */
  lemma ParseIntInverts(i: int)
    ensures ParseInt(IntText(i)) == Some(i)
  {
    var digits := Digits(if i < 0 then -i else i);
    ValueOfDigits(if i < 0 then -i else i);
    if i < 0 {
      assert IntText(i)[1..] == digits;
    } else {
      assert IsDigit(digits[0]);
    }
  }

  lemma {:induction false} ValueConcat(a: string, b: string)
    requires AllDigits(a) && AllDigits(b)
    ensures AllDigits(a + b) && Value(a + b) == Value(a) * Pow10(|b|) + Value(b)
    decreases |b|
  {
    if b == "" {
      assert a + b == a;
    } else {
      var front := b[..|b| - 1];
      ValueConcat(a, front);
      assert (a + b)[..|a + b| - 1] == a + front;
      Distribute(Value(a), Pow10(|front|), Value(front));
    }
  }

  lemma Distribute(a: nat, p: nat, b: nat)
    ensures 10 * (a * p + b) == a * (10 * p) + 10 * b
  {
  }

  lemma {:induction false} ValueZeros(k: nat)
    ensures Value(Zeros(k)) == 0
  {
    if k > 0 {
      ValueZeros(k - 1);
      assert Zeros(k)[..k - 1] == Zeros(k - 1);
    }
  }

  lemma {:induction false} Pow10Add(a: nat, b: nat)
    ensures Pow10(a + b) == Pow10(a) * Pow10(b)
    decreases b
  {
    if b > 0 {
      Pow10Add(a, b - 1);
      Distribute(Pow10(a), Pow10(b - 1), 0);
    }
  }

  /** What reads as an integer, exactly: a sign or none, then one digit or more. */
  lemma ParseIntExactly(s: string, i: int)
    ensures ParseInt(s) == Some(i) <==>
              exists digits :: digits != "" && AllDigits(digits)
                               && (((s == digits || s == "+" + digits) && i == Value(digits)) || (s == "-" + digits && i == 0 - Value(digits)))
  {
    hide Value;
    if ParseInt(s) == Some(i) {
      if s[0] == '-' || s[0] == '+' {
        assert s == [s[0]] + s[1..];
      }
    }
    if digits :| digits != "" && AllDigits(digits) && (s == digits || s == "+" + digits || s == "-" + digits) {
      assert s != digits ==> s[1..] == digits;
      assert s == digits ==> IsDigit(s[0]);
    }
  }

  /** Numerals as they are written: most significant digit first, no leading zeros, a minus sign in front. */
  lemma WrittenNumerals()
    ensures Digits(0) == "0" && Digits(120) == "120" && IntText(-120) == "-120"
  {
    assert Digits(1) == "1" && Digits(12) == "12";
  }

  /** Numerals as they are read: leading zeros are allowed. */
  lemma ReadNumerals()
    ensures Value("0120") == 120 && Value("") == 0
  {
    assert "0120"[..3] == "012" && "012"[..2] == "01" && "01"[..1] == "0" && "0"[..0] == "";
    assert Value("0") == 0 && Value("01") == 1 && Value("012") == 12;
  }

  lemma {:induction false} NoLeadingZero(n: nat)
    ensures |Digits(n)| == 1 || Digits(n)[0] != '0'
  {
    if n >= 10 {
      NoLeadingZero(n / 10);
      assert Digits(n)[0] == Digits(n / 10)[0];
      assert n < 100 ==> Digits(n / 10) == [DigitChar(n / 10)];
    }
  }

  lemma {:induction false} DigitsScaled(n: nat, k: nat)
    requires n > 0
    ensures Digits(n * Pow10(k)) == Digits(n) + Zeros(k)
  {
    if k == 0 {
      assert n * 1 == n && Digits(n) + Zeros(0) == Digits(n);
    } else {
      DigitsScaled(n, k - 1);
      var m := n * Pow10(k - 1);
      assert n * Pow10(k) == 10 * m by { Distribute(n, Pow10(k - 1), 0); }
      assert m > 0;
      assert Digits(10 * m) == Digits(m) + "0";
      assert Zeros(k) == Zeros(k - 1) + "0";
    }
  }

  lemma PowersWritten()
    ensures Pow10(12) == 1_000_000_000_000 && Pow10(18) == 1_000_000_000_000_000_000
  {
    assert Pow10(3) == 1000;
    Pow10Add(3, 3);
    Pow10Add(6, 6);
    Pow10Add(12, 6);
  }

  // ---------- exact division ----------

  lemma DivMod(n: nat, d: nat)
    requires d > 0
    ensures n == d * (n / d) + n % d && 0 <= n % d < d
  {
  }

  lemma MulStep(d: nat, q: nat, q': nat)
    requires q < q'
    ensures d * q + d <= d * q'
  {
    var k := q' - q - 1;
    assert d * q' == d * q + d + d * k by { assert d * (q + 1 + k) == d * q + d * 1 + d * k; }
    assert d * k >= 0;
  }

  lemma QuotientUnique(d: nat, q: nat, r: nat, q': nat, r': nat)
    requires r < d && r' < d && d * q + r == d * q' + r'
    ensures q == q' && r == r'
  {
    if q < q' {
      MulStep(d, q, q');
    } else if q' < q {
      MulStep(d, q', q);
    }
  }

  lemma ExactQuotient(n: nat, d: nat, q: nat)
    requires d > 0
    ensures n % d == 0 && n / d == q <==> d * q == n
  {
    DivMod(n, d);
    if d * q == n {
      QuotientUnique(d, q, 0, n / d, n % d);
    }
  }

  lemma Cancel(p: nat, a: nat, b: nat)
    requires p > 0
    ensures p * a == p * b <==> a == b
  {
    if a < b {
      MulStep(p, a, b);
    } else if b < a {
      MulStep(p, b, a);
    }
  }

  /** Scaling both sides of `a * q == b` by `p`. */
  lemma Scaled(a: nat, b: nat, q: nat, p: nat, t: nat)
    requires p > 0 && t == q * p
    ensures a * q == b <==> b * p == a * t
  {
    assert a * t == p * (a * q) by {
      assert a * (q * p) == (a * q) * p;
    }
    Cancel(p, a * q, b);
  }
}
