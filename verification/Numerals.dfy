/** Decimal digit strings: their value, how a number is printed, and the few laws both need. */
module Numerals {
  predicate IsDigit(c: char) {
    '0' <= c <= '9'
  }

  predicate AllDigits(s: string) {
    forall k :: 0 <= k < |s| ==> IsDigit(s[k])
  }

  function DigitValue(c: char): nat
    requires IsDigit(c)
  {
    c as int - '0' as int
  }

  function DigitChar(d: nat): (c: char)
    requires d < 10
    ensures IsDigit(c) && DigitValue(c) == d
  {
    (d + '0' as int) as char
  }

  function ValueOf(s: string): nat
    requires AllDigits(s)
  {
    if s == "" then 0 else 10 * ValueOf(s[..|s| - 1]) + DigitValue(s[|s| - 1])
  }

  lemma ValueOfSnoc(s: string, c: char)
    requires AllDigits(s) && IsDigit(c)
    ensures AllDigits(s + [c]) && ValueOf(s + [c]) == 10 * ValueOf(s) + DigitValue(c)
  {
    assert (s + [c])[..|s|] == s;
  }

  function Zeros(n: nat): (s: string)
    ensures |s| == n && AllDigits(s)
  {
    if n == 0 then "" else Zeros(n - 1) + "0"
  }

  lemma {:induction false} LeadingZeros(n: nat, s: string)
    requires AllDigits(s)
    ensures AllDigits(Zeros(n) + s) && ValueOf(Zeros(n) + s) == ValueOf(s)
    decreases |s|, n
  {
    if s == "" {
      assert Zeros(n) + s == Zeros(n);
      if n > 0 {
        LeadingZeros(n - 1, "");
        assert Zeros(n - 1) + "" == Zeros(n - 1);
        ValueOfSnoc(Zeros(n - 1), '0');
      }
    } else {
      var front, last := s[..|s| - 1], s[|s| - 1];
      LeadingZeros(n, front);
      ValueOfSnoc(Zeros(n) + front, last);
      assert Zeros(n) + front + [last] == Zeros(n) + s;
    }
  }

  /** The usual decimal form: no leading zero except for zero itself. */
  function Decimal(n: nat): (s: string)
    ensures s != "" && AllDigits(s)
  {
    if n < 10 then [DigitChar(n)] else Decimal(n / 10) + [DigitChar(n % 10)]
  }

  lemma {:induction false} DecimalValue(n: nat)
    ensures ValueOf(Decimal(n)) == n
    ensures Decimal(n)[0] == '0' <==> n == 0
  {
    if n < 10 {
      assert [DigitChar(n)][..0] == "";
    } else {
      DecimalValue(n / 10);
      ValueOfSnoc(Decimal(n / 10), DigitChar(n % 10));
    }
  }

  // ---------- powers of ten ----------

  function Pow10(n: nat): nat
  {
    if n == 0 then 1 else 10 * Pow10(n - 1)
  }

  lemma MulTen(a: nat, b: nat)
    ensures 10 * (a * b) == 10 * a * b
  {
  }

  lemma {:induction false} Pow10Split(a: nat, b: nat)
    ensures Pow10(a + b) == Pow10(a) * Pow10(b)
  {
    if a > 0 {
      Pow10Split(a - 1, b);
      Pow10Next(a - 1);
      Pow10Next(a - 1 + b);
      hide Pow10;
      MulTen(Pow10(a - 1), Pow10(b));
    } else {
      Pow10Zero();
    }
  }

  lemma {:induction false} Pow10Positive(n: nat)
    ensures Pow10(n) >= 1
  {
    if n > 0 {
      Pow10Positive(n - 1);
    }
  }

  lemma Pow10Zero()
    ensures Pow10(0) == 1
  {
  }

  lemma Pow10Next(n: nat)
    ensures Pow10(n + 1) == 10 * Pow10(n)
  {
  }

  /** The `count` low digits of `n`, most significant first. */
  function FixedDigits(n: nat, count: nat): (s: string)
    ensures |s| == count && AllDigits(s)
  {
    if count == 0 then "" else FixedDigits(n / 10, count - 1) + [DigitChar(n % 10)]
  }

  lemma {:induction false} FixedDigitsValue(n: nat, count: nat)
    requires n < Pow10(count)
    ensures ValueOf(FixedDigits(n, count)) == n
    decreases count
  {
    if count > 0 {
      FixedDigitsValue(n / 10, count - 1);
      ValueOfSnoc(FixedDigits(n / 10, count - 1), DigitChar(n % 10));
    }
  }

  // ---------- division facts ----------

  lemma MulAtLeast(a: int, d: nat)
    requires a >= 1
    ensures a * d >= d
  {
  }

  lemma DivModUnique(n: nat, d: nat, q: int, r: int)
    requires d > 0 && n == q * d + r && 0 <= r < d
    ensures n / d == q && n % d == r
  {
    var q', r' := n / d, n % d;
    assert q' * d + r' == q * d + r;
    assert (q' - q) * d == r - r';
    if q' > q {
      MulAtLeast(q' - q, d);
    } else if q' < q {
      MulAtLeast(q - q', d);
    }
  }

  /** Cutting off one more digit: the quotient gains exactly that digit. */
  lemma NextDigit(n: nat, p: nat)
    requires p > 0
    ensures n % (10 * p) / p < 10
    ensures n % (10 * p) == n % (10 * p) / p * p + n % p
    ensures n / p == 10 * (n / (10 * p)) + n % (10 * p) / p
  {
    var q, r := n / (10 * p), n % (10 * p);
    var i, rest := r / p, r % p;
    assert r == i * p + rest;
    assert n == q * (10 * p) + r;
    assert q * (10 * p) == (10 * q) * p;
    assert (10 * q) * p + i * p == (10 * q + i) * p;
    DivModUnique(n, p, 10 * q + i, rest);
    DigitBound(r, p);
  }

  lemma DigitBound(r: nat, p: nat)
    requires p > 0 && r < 10 * p
    ensures r / p < 10
  {
    assert r == r / p * p + r % p;
  }

  /** Division of naturals; its result is never negative. */
  function Quotient(n: nat, d: nat): nat
    requires d > 0
  {
    n / d
  }

  lemma FixedDigitsNone(n: nat)
    ensures FixedDigits(n, 0) == ""
  {
  }

  lemma FixedDigitsSnoc(q: nat, i: nat, m: nat)
    requires i < 10
    ensures FixedDigits(10 * q + i, m + 1) == FixedDigits(q, m) + [DigitChar(i)]
  {
  }
}
