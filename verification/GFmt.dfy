/**
 Printing a float from its digits and decimal point, in three layouts, into a caller's buffer.
 The text is proved to read back, as a decimal literal, to exactly the number the digits stand for.
 */
module GFmt {
  import opened Basics
  import opened Numerals

  /** The decimal point value that marks Infinity and NaN, whose `digits` are then the word itself. */
  const SPECIAL := 9999

  // ---------- the text ----------

  /** How many digits the exponent takes: at least two, and enough for its value. */
  function ExponentWidth(e: nat, width: nat): (w: nat)
    requires width >= 2
    ensures w >= width && e < Pow10(w)
    decreases e - width
  {
    if e < Pow10(width) then width
    else
      Pow10Grows(width);
      ExponentWidth(e, width + 1)
  }

  lemma {:induction false} Pow10Grows(n: nat)
    ensures Pow10(n) > n
  {
    if n > 0 {
      Pow10Grows(n - 1);
    }
  }

  function ExponentText(e: nat): string {
    FixedDigits(e, ExponentWidth(e, 2))
  }

  function Point(dotted: bool): string {
    if dotted then "." else ""
  }

  function ExponentPart(exponent: int): string {
    "e" + (if exponent < 0 then "-" + ExponentText(-exponent) else "+" + ExponentText(exponent))
  }

  /** One digit, the rest after a point if there are any, and the exponent. */
  function Scientific(digits: string, exponent: int): string
    requires digits != ""
  {
    digits[..1] + Point(|digits| > 1) + digits[1..] + ExponentPart(exponent)
  }

  function Unsigned(digits: string, decpt: int): string
    requires digits != ""
  {
    if decpt == SPECIAL then digits
    else if decpt <= -4 || decpt > |digits| + 5 then Scientific(digits, decpt - 1)
    else if decpt <= 0 then "." + Zeros(-decpt) + digits
    else if decpt < |digits| then digits[..decpt] + "." + digits[decpt..]
    else digits + Zeros(decpt - |digits|)
  }

  function Text(negative: bool, digits: string, decpt: int): string
    requires digits != ""
  {
    (if negative then "-" else "") + Unsigned(digits, decpt)
  }

  // ---------- reading a decimal literal ----------

  /** A sign, and a value of `mantissa` times ten to the `exponent`. */
  datatype Literal = Literal(negative: bool, mantissa: nat, exponent: int)

  function RealPow10(e: int): real
    decreases if e < 0 then -e else e
  {
    if e == 0 then 1.0
    else if e > 0 then 10.0 * RealPow10(e - 1)
    else RealPow10(e + 1) / 10.0
  }

  function Value(l: Literal): real {
    l.mantissa as real * RealPow10(l.exponent)
  }

  /** The number meant by a digit string with the point after `decpt` digits: 0.digits times ten to the decpt. */
  function DigitsValue(digits: string, decpt: int): real
    requires AllDigits(digits)
  {
    ValueOf(digits) as real * RealPow10(decpt - |digits|)
  }

  /** Where the run of digits starting at `from` ends. */
  function RunEnd(s: string, from: nat): (r: nat)
    requires from <= |s|
    ensures from <= r <= |s| && AllDigits(s[from..r])
    decreases |s| - from
  {
    if from < |s| && IsDigit(s[from]) then
      var r := RunEnd(s, from + 1);
      assert s[from..r] == [s[from]] + s[from + 1..r];
      r
    else from
  }

  function ReadExponent(s: string): Option<int> {
    if s == "" then Some(0)
    else if |s| < 3 || s[0] != 'e' || (s[1] != '+' && s[1] != '-') || RunEnd(s, 2) != |s| then None
    else
      var e: int := ValueOf(s[2..RunEnd(s, 2)]);
      Some(if s[1] == '-' then -e else e)
  }

  /** Digits, an optional point with more digits, an optional signed exponent; nothing else. */
  function ReadUnsigned(negative: bool, s: string): Option<Literal> {
    var whole := RunEnd(s, 0);
    var dotted := whole < |s| && s[whole] == '.';
    var end := if dotted then RunEnd(s, whole + 1) else whole;
    var fraction := if dotted then s[whole + 1..end] else "";
    var exponent := ReadExponent(s[end..]);
    if exponent.None? || whole + |fraction| == 0 then None
    else
      assert AllDigits(s[0..whole]) && AllDigits(fraction);
      Some(Literal(negative, ValueOf(s[0..whole] + fraction), exponent.value - |fraction|))
  }

  function Read(s: string): Option<Literal> {
    if s != "" && s[0] == '-' then ReadUnsigned(true, s[1..]) else ReadUnsigned(false, s)
  }

  // ---------- the text reads back exactly ----------

  lemma {:induction false} RunEndIs(s: string, lo: nat, hi: nat)
    requires lo <= hi <= |s| && AllDigits(s[lo..hi])
    requires hi < |s| ==> !IsDigit(s[hi])
    ensures RunEnd(s, lo) == hi
    decreases hi - lo
  {
    if lo < hi {
      assert s[lo] == s[lo..hi][0];
      assert s[lo + 1..hi] == s[lo..hi][1..];
      RunEndIs(s, lo + 1, hi);
    }
  }

  /** Anything of the shape whole-point-fraction-exponent reads as its parts say. */
  lemma ReadShape(negative: bool, whole: string, dotted: bool, fraction: string, tail: string)
    requires AllDigits(whole) && AllDigits(fraction) && whole + fraction != "" && (!dotted ==> fraction == "")
    requires tail != "" ==> tail[0] == 'e'
    requires ReadExponent(tail).Some?
    ensures ReadUnsigned(negative, whole + Point(dotted) + fraction + tail) ==
            Some(Literal(negative, ValueOf(whole + fraction), ReadExponent(tail).value - |fraction|))
  {
    hide ValueOf, ReadExponent, ReadUnsigned;
    if dotted {
      ReadDotted(negative, whole, fraction, tail);
      assert whole + "." + fraction + tail == whole + Point(dotted) + fraction + tail;
    } else {
      ReadUndotted(negative, whole, tail);
      assert whole + tail == whole + Point(dotted) + fraction + tail;
      assert whole + fraction == whole;
    }
  }

  lemma DottedParts(whole: string, fraction: string, tail: string)
    requires AllDigits(whole) && AllDigits(fraction)
    requires tail != "" ==> tail[0] == 'e'
    ensures var s := whole + "." + fraction + tail;
            var end := |whole| + 1 + |fraction|;
            && |s| == end + |tail|
            && s[0..|whole|] == whole && s[|whole|] == '.' && s[|whole| + 1..end] == fraction && s[end..] == tail
            && RunEnd(s, 0) == |whole| && RunEnd(s, |whole| + 1) == end
  {
    hide RunEnd;
    var s := whole + "." + fraction + tail;
    var end := |whole| + 1 + |fraction|;
    assert s[0..|whole|] == whole;
    assert s[|whole| + 1..end] == fraction;
    assert s[end..] == tail;
    RunEndIs(s, 0, |whole|);
    RunEndIs(s, |whole| + 1, end);
  }

  lemma ReadParts(negative: bool, s: string, whole: string, fraction: string, end: nat, tail: string)
    requires end == |whole| + 1 + |fraction| <= |s|
    requires s[0..|whole|] == whole && s[|whole|] == '.' && s[|whole| + 1..end] == fraction && s[end..] == tail
    requires RunEnd(s, 0) == |whole| && RunEnd(s, |whole| + 1) == end
    requires end > 1 && ReadExponent(tail).Some? && AllDigits(whole + fraction)
    ensures ReadUnsigned(negative, s) ==
            Some(Literal(negative, ValueOf(whole + fraction), ReadExponent(tail).value - |fraction|))
  {
    hide ValueOf, ReadExponent, AllDigits, RunEnd;
  }

  lemma JoinDigits(a: string, b: string)
    requires AllDigits(a) && AllDigits(b)
    ensures AllDigits(a + b)
  {
  }

  lemma ReadDotted(negative: bool, whole: string, fraction: string, tail: string)
    requires AllDigits(whole) && AllDigits(fraction) && whole + fraction != ""
    requires (tail != "" ==> tail[0] == 'e') && ReadExponent(tail).Some?
    ensures ReadUnsigned(negative, whole + "." + fraction + tail) ==
            Some(Literal(negative, ValueOf(whole + fraction), ReadExponent(tail).value - |fraction|))
  {
    hide ValueOf, ReadExponent, RunEnd, ReadUnsigned, AllDigits;
    JoinDigits(whole, fraction);
    DottedParts(whole, fraction, tail);
    ReadParts(negative, whole + "." + fraction + tail, whole, fraction, |whole| + 1 + |fraction|, tail);
  }

  lemma ReadUndotted(negative: bool, whole: string, tail: string)
    requires AllDigits(whole) && whole != ""
    requires (tail != "" ==> tail[0] == 'e') && ReadExponent(tail).Some?
    ensures ReadUnsigned(negative, whole + tail) ==
            Some(Literal(negative, ValueOf(whole), ReadExponent(tail).value))
  {
    hide ValueOf, ReadExponent, RunEnd;
    var s := whole + tail;
    assert s[0..|whole|] == whole;
    assert s[|whole|..] == tail;
    RunEndIs(s, 0, |whole|);
    assert whole + "" == whole;
  }

  lemma ReadExponentText(exponent: int)
    ensures ExponentPart(exponent) != "" && ExponentPart(exponent)[0] == 'e'
    ensures ReadExponent(ExponentPart(exponent)) == Some(exponent)
  {
    hide ValueOf, FixedDigits;
    var e := if exponent < 0 then -exponent else exponent;
    var text, tail := ExponentText(e), ExponentPart(exponent);
    FixedDigitsValue(e, ExponentWidth(e, 2));
    assert tail[2..] == text;
    assert tail[2..|tail|] == text;
    RunEndIs(tail, 2, |tail|);
  }

  lemma {:induction false} TrailingZeros(digits: string, n: nat)
    requires AllDigits(digits)
    ensures AllDigits(digits + Zeros(n))
    ensures ValueOf(digits + Zeros(n)) as real == ValueOf(digits) as real * RealPow10(n)
  {
    hide ValueOf;
    if n == 0 {
      assert digits + Zeros(n) == digits;
    } else {
      var before := digits + Zeros(n - 1);
      TrailingZeros(digits, n - 1);
      ValueOfSnoc(before, '0');
      assert before + ['0'] == digits + Zeros(n);
      TenTimes(ValueOf(before), ValueOf(digits + Zeros(n)), ValueOf(digits) as real, RealPow10(n - 1));
    }
  }

  lemma TenTimes(before: nat, after: nat, a: real, b: real)
    requires after == 10 * before && before as real == a * b
    ensures after as real == a * (10.0 * b)
  {
    assert after as real == 10.0 * before as real;
    assert a * (10.0 * b) == 10.0 * (a * b);
  }

  /** `text` reads as `digits` scaled so that the point sits after `decpt` of them. */
  ghost predicate ReadsAs(negative: bool, text: string, digits: string, decpt: int)
    requires AllDigits(digits)
  {
    var l := ReadUnsigned(negative, text);
    && text != "" && text[0] != '-'
    && l.Some? && l.value.negative == negative
    && Value(l.value) == DigitsValue(digits, decpt)
  }

  lemma ScientificExact(negative: bool, digits: string, decpt: int)
    requires digits != "" && AllDigits(digits)
    ensures ReadsAs(negative, Scientific(digits, decpt - 1), digits, decpt)
  {
    hide ReadUnsigned, ReadExponent, ExponentPart, ValueOf, RealPow10;
    ReadExponentText(decpt - 1);
    ReadShape(negative, digits[..1], |digits| > 1, digits[1..], ExponentPart(decpt - 1));
    assert digits[..1] + digits[1..] == digits;
    assert Scientific(digits, decpt - 1)[0] == digits[0];
  }

  lemma FractionExact(negative: bool, digits: string, decpt: int)
    requires digits != "" && AllDigits(digits) && decpt <= 0
    ensures ReadsAs(negative, "." + Zeros(-decpt) + digits, digits, decpt)
  {
    hide ReadUnsigned, ValueOf, RealPow10, Zeros;
    var fraction := Zeros(-decpt) + digits;
    LeadingZeros(-decpt, digits);
    ReadShape(negative, "", true, fraction, "");
    assert "" + fraction == fraction;
    assert "." + Zeros(-decpt) + digits == "" + Point(true) + fraction + "";
  }

  lemma PointInsideExact(negative: bool, digits: string, decpt: int)
    requires digits != "" && AllDigits(digits) && 0 < decpt < |digits|
    ensures ReadsAs(negative, digits[..decpt] + "." + digits[decpt..], digits, decpt)
  {
    hide ReadUnsigned, ValueOf, RealPow10;
    ReadShape(negative, digits[..decpt], true, digits[decpt..], "");
    assert digits[..decpt] + digits[decpt..] == digits;
    assert digits[..decpt] + "." + digits[decpt..] == digits[..decpt] + Point(true) + digits[decpt..] + "";
  }

  lemma WholeExact(negative: bool, digits: string, decpt: int)
    requires digits != "" && AllDigits(digits) && decpt >= |digits|
    ensures ReadsAs(negative, digits + Zeros(decpt - |digits|), digits, decpt)
  {
    hide ReadUnsigned, ValueOf, Zeros;
    var text := digits + Zeros(decpt - |digits|);
    TrailingZeros(digits, decpt - |digits|);
    ReadShape(negative, text, false, "", "");
    assert text + "" == text;
    assert text == text + Point(false) + "" + "";
    assert text[0] == digits[0];
  }

  lemma UnsignedExact(negative: bool, digits: string, decpt: int)
    requires digits != "" && AllDigits(digits) && decpt != SPECIAL
    ensures ReadsAs(negative, Unsigned(digits, decpt), digits, decpt)
  {
    hide ReadsAs, Scientific, Zeros;
    if decpt <= -4 || decpt > |digits| + 5 {
      ScientificExact(negative, digits, decpt);
    } else if decpt <= 0 {
      FractionExact(negative, digits, decpt);
    } else if decpt < |digits| {
      PointInsideExact(negative, digits, decpt);
    } else {
      WholeExact(negative, digits, decpt);
    }
  }

  /** In every layout the text is a literal with the right sign and exactly the value 0.digits times ten to the decpt. */
  lemma TextExact(negative: bool, digits: string, decpt: int)
    requires digits != "" && AllDigits(digits) && decpt != SPECIAL
    ensures var l := Read(Text(negative, digits, decpt));
            && l.Some? && l.value.negative == negative
            && Value(l.value) == DigitsValue(digits, decpt)
  {
    hide Unsigned, ReadUnsigned, ValueOf, RealPow10;
    UnsignedExact(negative, digits, decpt);
    var body := Unsigned(digits, decpt);
    if negative {
      assert (['-'] + body)[1..] == body;
    } else {
      assert "" + body == body;
    }
  }

  /** With exponents of at most three digits the text and its terminator take at most eight bytes more than the digits. */
  lemma TextSize(negative: bool, digits: string, decpt: int)
    requires digits != "" && decpt != SPECIAL ==> -999 < decpt <= 1000
    requires digits != ""
    ensures |Text(negative, digits, decpt)| + 1 <= |digits| + 8
  {
    if decpt != SPECIAL {
      var e := if decpt - 1 < 0 then -(decpt - 1) else decpt - 1;
      assert Pow10(3) == 1000 by {
        assert Pow10(1) == 10 && Pow10(2) == 100;
      }
      assert ExponentWidth(e, 2) <= 3;
    }
  }

  // ---------- which layout ----------

  lemma {:induction false} ZerosAre(n: nat)
    ensures forall k :: 0 <= k < n ==> Zeros(n)[k] == '0'
  {
    if n > 0 {
      ZerosAre(n - 1);
    }
  }

  lemma {:induction false} WidthIsLeast(e: nat, width: nat)
    requires width >= 2 && (width > 2 ==> e >= Pow10(width - 1))
    ensures var w := ExponentWidth(e, width); w > 2 ==> e >= Pow10(w - 1)
    decreases e - width
  {
    if e >= Pow10(width) {
      Pow10Grows(width);
      WidthIsLeast(e, width + 1);
    }
  }

  /**
   `u` is scientific: one digit, a point if there are more, the rest, and behind the e a sign and as few
   digits as hold the exponent, but two at least.
   */
  ghost predicate IsScientific(u: string, digits: string, decpt: int)
    requires digits != ""
  {
    var at := |digits| + (if |digits| > 1 then 1 else 0);
    var e := if decpt <= 0 then 1 - decpt else decpt - 1;
    var w := |u| - (at + 2);
    && w >= 2 && e < Pow10(w) && (w > 2 ==> e >= Pow10(w - 1))
    && u[0] == digits[0]
    && (|digits| > 1 ==> u[1] == '.' && u[2..at] == digits[1..])
    && u[at] == 'e' && u[at + 1] == (if decpt <= 0 then '-' else '+')
  }

  lemma ScientificIs(digits: string, decpt: int)
    requires digits != ""
    ensures IsScientific(Scientific(digits, decpt - 1), digits, decpt)
  {
    var e := if decpt <= 0 then 1 - decpt else decpt - 1;
    var u, mantissa := Scientific(digits, decpt - 1), digits[..1] + Point(|digits| > 1) + digits[1..];
    WidthIsLeast(e, 2);
    ExponentTextIs(e);
    assert u == mantissa + ExponentPart(decpt - 1);
    assert ExponentPart(decpt - 1) == ['e', if decpt <= 0 then '-' else '+'] + ExponentText(e);
    hide ExponentText, ExponentWidth, Pow10, Scientific, ExponentPart;
    assert u[..|mantissa|] == mantissa;
    assert |digits| > 1 ==> mantissa[2..] == digits[1..];
    assert |digits| > 1 ==> u[2..|mantissa|] == mantissa[2..];
  }

  /**
   With the point four or more places before the digits, or more than five behind them, the number is
   written with an exponent.
   */
  lemma ScientificShape(negative: bool, digits: string, decpt: int)
    requires digits != "" && decpt != SPECIAL && (decpt <= -4 || decpt > |digits| + 5)
    ensures var t := Text(negative, digits, decpt);
            if negative then t != "" && t[0] == '-' && IsScientific(t[1..], digits, decpt) else IsScientific(t, digits, decpt)
  {
    ScientificIs(digits, decpt);
    hide IsScientific;
    var u := Scientific(digits, decpt - 1);
    hide Scientific;
    assert Text(negative, digits, decpt) == (if negative then "-" else "") + u;
    assert ("-" + u)[1..] == u && "" + u == u;
  }

  lemma ExponentTextIs(e: nat)
    ensures |ExponentText(e)| == ExponentWidth(e, 2)
  {
  }

  /** All others are written out: a fraction behind zeros, a point among the digits, or the digits and zeros. */
  lemma PlainShape(negative: bool, digits: string, decpt: int)
    requires digits != "" && decpt != SPECIAL && -4 < decpt <= |digits| + 5
    ensures var t := Text(negative, digits, decpt);
            var from := if negative then 1 else 0;
            && (negative ==> |t| > 0 && t[0] == '-')
            && (decpt <= 0 ==>
                  && |t| == from + 1 - decpt + |digits| && t[from] == '.' && t[from + 1 - decpt..] == digits
                  && forall k :: from < k < from + 1 - decpt ==> t[k] == '0')
            && (0 < decpt < |digits| ==>
                  |t| == from + 1 + |digits| && t[from..from + decpt] == digits[..decpt] && t[from + decpt] == '.'
                  && t[from + decpt + 1..] == digits[decpt..])
            && (decpt >= |digits| ==>
                  && |t| == from + decpt && t[from..from + |digits|] == digits
                  && forall k :: from + |digits| <= k < |t| ==> t[k] == '0')
  {
    hide Zeros;
    if decpt <= 0 {
      ZerosAre(-decpt);
    } else if decpt >= |digits| {
      ZerosAre(decpt - |digits|);
    }
  }

  // ---------- the printer ----------

  method Put(b: array<char>, at: nat, c: char) returns (next: nat)
    requires at < b.Length
    modifies b
    ensures next == at + 1 && b[..next] == old(b[..at]) + [c]
  {
    b[at] := c;
    next := at + 1;
  }

  method PutAll(b: array<char>, start: nat, s: string, skip: nat) returns (at: nat)
    requires skip <= |s| && start + |s| - skip <= b.Length
    modifies b
    ensures at == start + |s| - skip && b[..at] == old(b[..start]) + s[skip..]
  {
    at := start;
    var k := skip;
    while k < |s|
      invariant skip <= k <= |s| && at == start + (k - skip)
      invariant b[..at] == old(b[..start]) + s[skip..k]
    {
      at := Put(b, at, s[k]);
      k := k + 1;
    }
  }

  method PutZeros(b: array<char>, start: nat, count: nat) returns (at: nat)
    requires start + count <= b.Length
    modifies b
    ensures at == start + count && b[..at] == old(b[..start]) + Zeros(count)
  {
    at := start;
    var k := 0;
    while k < count
      invariant 0 <= k <= count && at == start + k
      invariant b[..at] == old(b[..start]) + Zeros(k)
    {
      at := Put(b, at, '0');
      k := k + 1;
    }
  }

  /** One digit of the exponent, when `v` is what is left of it scaled by ten per digit already out. */
  lemma ExponentDigit(e: nat, p: nat, scale: nat, v: nat, k: nat)
    requires p > 0 && scale > 0 && k == p * scale && k > 0
    requires v == e % (10 * p) * scale
    ensures v / k < 10 && e / p == 10 * (e / (10 * p)) + v / k
    ensures (v - v / k * k) * 10 == e % p * (10 * scale)
  {
    NextDigit(e, p);
    var i, rest := e % (10 * p) / p, e % p;
    assert (i * p + rest) * scale == i * (p * scale) + rest * scale;
    MulAtLeast(p - rest, scale);
    assert p * scale == rest * scale + (p - rest) * scale;
    DivModUnique(v, k, i, rest * scale);
    assert rest * (10 * scale) == 10 * (rest * scale);
  }

  /** The exponent loop: one power of ten is found, then every digit is a division by it. */
  method PutExponent(b: array<char>, start: nat, e: nat) returns (at: nat)
    requires start + |ExponentText(e)| <= b.Length
    modifies b
    ensures at == start + |ExponentText(e)| && b[..at] == old(b[..start]) + ExponentText(e)
  {
    hide FixedDigits;
    at := start;
    var j: nat, k: nat := 2, 10;
    assert Pow10(1) == 10;
    while 10 * k <= e
      invariant j >= 2 && k == Pow10(j - 1) > 0
      invariant ExponentWidth(e, j) == ExponentWidth(e, 2)
      decreases e - k
    {
      j, k := j + 1, k * 10;
    }
    assert ExponentWidth(e, j) == j;
    assert e < Pow10(j);
    at := PutDigits(b, start, e, j, k);
  }

  /** The exponent without its `j` low digits. */
  ghost function Front(e: nat, j: nat): nat {
    Pow10Positive(j);
    Quotient(e, Pow10(j))
  }

  /** The `j` low digits of the exponent, scaled by ten for each of the `m` digits already out. */
  ghost function Back(e: nat, j: nat, m: nat): nat {
    Pow10Positive(j);
    e % Pow10(j) * Pow10(m)
  }

  lemma BackStep(e: nat, j: nat, m: nat, k: nat)
    requires j >= 1 && k == Pow10(j - 1 + m)
    ensures k > 0 && Back(e, j, m) / k < 10
    ensures Front(e, j - 1) == 10 * Front(e, j) + Back(e, j, m) / k
    ensures (Back(e, j, m) - Back(e, j, m) / k * k) * 10 == Back(e, j - 1, m + 1)
  {
    Pow10Next(j - 1);
    Pow10Next(m);
    Pow10Split(j - 1, m);
    Pow10Positive(j - 1);
    Pow10Positive(m);
    Pow10Positive(j - 1 + m);
    ExponentDigit(e, Pow10(j - 1), Pow10(m), Back(e, j, m), k);
  }

  lemma BackEnds(e: nat, width: nat)
    requires e < Pow10(width)
    ensures Front(e, width) == 0 && Back(e, width, 0) == e && Front(e, 0) == e
  {
    hide Pow10;
    Pow10Zero();
    DivModUnique(e, Pow10(width), 0, e);
    assert Back(e, width, 0) == e * Pow10(0);
  }

  method PutDigits(b: array<char>, start: nat, e: nat, width: nat, k: nat) returns (at: nat)
    requires width >= 1 && e < Pow10(width) && k == Pow10(width - 1)
    requires start + width <= b.Length
    modifies b
    ensures at == start + width && b[..at] == old(b[..start]) + FixedDigits(e, width)
  {
    hide FixedDigits, Pow10, Front, Back;
    at := start;
    var decpt, j := e, width;
    BackEnds(e, width);
    FixedDigitsNone(0);
    ghost var before, m := b[..start], 0;
    while true
      invariant 1 <= j <= width && m == width - j && at == start + m
      invariant decpt == Back(e, j, m)
      invariant b[..at] == before + FixedDigits(Front(e, j), m)
      decreases j
    {
      BackStep(e, j, m, k);
      var i := decpt / k;
      FixedDigitsSnoc(Front(e, j), i, m);
      at := Put(b, at, DigitChar(i));
      j, m := j - 1, m + 1;
      if j <= 0 {
        break;
      }
      decpt := decpt - i * k;
      decpt := decpt * 10;
    }
  }

  /** The digits with a point after the first. */
  method PutMantissa(b: array<char>, start: nat, digits: string) returns (at: nat)
    requires digits != "" && start + |digits| + |Point(|digits| > 1)| <= b.Length
    modifies b
    ensures at == start + |digits| + |Point(|digits| > 1)|
    ensures b[..at] == old(b[..start]) + (digits[..1] + Point(|digits| > 1) + digits[1..])
  {
    at := Put(b, start, digits[0]);
    if 1 < |digits| {
      at := Put(b, at, '.');
      at := PutAll(b, at, digits, 1);
    }
  }

  method PutExponentPart(b: array<char>, start: nat, exponent: int) returns (at: nat)
    requires start + |ExponentPart(exponent)| <= b.Length
    modifies b
    ensures at == start + |ExponentPart(exponent)| && b[..at] == old(b[..start]) + ExponentPart(exponent)
  {
    hide ExponentText;
    at := Put(b, start, 'e');
    var decpt := exponent;
    if decpt < 0 {
      at := Put(b, at, '-');
      decpt := -decpt;
    } else {
      at := Put(b, at, '+');
    }
    at := PutExponent(b, at, decpt);
  }

  method PutScientific(b: array<char>, start: nat, digits: string, point: int) returns (at: nat)
    requires digits != "" && start + |Scientific(digits, point - 1)| <= b.Length
    modifies b
    ensures at == start + |Scientific(digits, point - 1)|
    ensures b[..at] == old(b[..start]) + Scientific(digits, point - 1)
  {
    hide ExponentPart;
    at := PutMantissa(b, start, digits);
    at := PutExponentPart(b, at, point - 1);
  }

  method PutFraction(b: array<char>, start: nat, digits: string, zeros: nat) returns (at: nat)
    requires start + 1 + zeros + |digits| <= b.Length
    modifies b
    ensures at == start + 1 + zeros + |digits|
    ensures b[..at] == old(b[..start]) + ("." + Zeros(zeros) + digits)
  {
    at := Put(b, start, '.');
    at := PutZeros(b, at, zeros);
    at := PutAll(b, at, digits, 0);
  }

  /** The first `k` digits, with a point after `point` of them when more follow in the whole. */
  function Pointed(digits: string, point: nat, k: nat): (s: string)
    requires k <= |digits|
    ensures |s| == if k < point || point >= |digits| then k else k + 1
  {
    if k < point || point >= |digits| then digits[..k] else digits[..point] + "." + digits[point..k]
  }

  lemma PointedNext(digits: string, point: nat, k: nat)
    requires k < |digits| && point > 0
    ensures Pointed(digits, point, k + 1) ==
            Pointed(digits, point, k) + [digits[k]] + Point(k + 1 == point < |digits|)
  {
    assert digits[..k + 1] == digits[..k] + [digits[k]];
    if point < k {
      assert digits[point..k + 1] == digits[point..k] + [digits[k]];
    }
  }

  lemma PointedEnds(digits: string, point: nat)
    requires digits != "" && 0 < point <= |digits| + 5 && point != SPECIAL
    ensures Pointed(digits, point, 0) == ""
    ensures Unsigned(digits, point) == Pointed(digits, point, |digits|) + Zeros(Max(0, point - |digits|))
  {
    assert digits[..|digits|] == digits;
  }

  /** The digits with a point after `point` of them, if more follow, and zeros up to the point. */
  method PutPlain(b: array<char>, start: nat, digits: string, point: nat) returns (at: nat)
    requires digits != "" && 0 < point <= |digits| + 5 && point != SPECIAL
    requires start + |Unsigned(digits, point)| <= b.Length
    modifies b
    ensures at == start + |Unsigned(digits, point)|
    ensures b[..at] == old(b[..start]) + Unsigned(digits, point)
  {
    hide Pointed, Unsigned;
    at := start;
    PointedEnds(digits, point);
    var k, decpt: int := 0, point;
    ghost var before := b[..start];
    while k < |digits|
      invariant 0 <= k <= |digits| && decpt == point - k
      invariant at == start + |Pointed(digits, point, k)|
      invariant b[..at] == before + Pointed(digits, point, k)
    {
      PointedNext(digits, point, k);
      at := Put(b, at, digits[k]);
      k, decpt := k + 1, decpt - 1;
      if decpt == 0 && k < |digits| {
        at := Put(b, at, '.');
      }
    }
    if decpt > 0 {
      at := PutZeros(b, at, decpt);
    }
  }

  /** Everything after the sign, in the layout the decimal point calls for. */
  method PutUnsigned(b: array<char>, start: nat, digits: string, point: int) returns (at: nat)
    requires digits != "" && start + |Unsigned(digits, point)| <= b.Length
    modifies b
    ensures at == start + |Unsigned(digits, point)|
    ensures b[..at] == old(b[..start]) + Unsigned(digits, point)
  {
    hide Scientific;
    if point == SPECIAL {
      at := PutAll(b, start, digits, 0);
    } else if point <= -4 || point > |digits| + 5 {
      at := PutScientific(b, start, digits, point);
    } else if point <= 0 {
      at := PutFraction(b, start, digits, -point);
    } else {
      at := PutPlain(b, start, digits, point);
    }
  }

  /** Writes the text and its terminator; `digits` and `point` are what the digit generator returned. */
  method Format(b: array<char>, negative: bool, digits: string, point: int) returns (n: nat)
    requires digits != "" && b.Length > |Text(negative, digits, point)|
    modifies b
    ensures n == |Text(negative, digits, point)|
    ensures b[..n] == Text(negative, digits, point) && b[n] == '\0'
  {
    hide Unsigned;
    n := 0;
    if negative {
      n := Put(b, n, '-');
    }
    n := PutUnsigned(b, n, digits, point);
    b[n] := '\0';
  }
}
