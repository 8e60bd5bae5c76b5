/** The C library's strtol and strtoull, as far as the extension uses them. */
module CNumbers {
  import opened Basics
  import opened Numerals

  const LONG_MAX: int := 0x7FFF_FFFF_FFFF_FFFF
  const LONG_MIN: int := -LONG_MAX - 1
  const UINT64_MAX: int := 0xFFFF_FFFF_FFFF_FFFF

  /** What the `end` pointer, errno and the return value report. */
  datatype Parsed = Parsed(value: int, end: nat, overflow: bool)

  predicate IsSpace(c: char) {
    c == ' ' || '\t' <= c <= '\r'
  }

  function SkipSpace(s: string, i: nat): (r: nat)
    requires i <= |s|
    ensures i <= r <= |s|
    decreases |s| - i
  {
    if i < |s| && IsSpace(s[i]) then SkipSpace(s, i + 1) else i
  }

  /** The value of `c` as a digit, or a number no base reaches. */
  function DigitIn(c: char): nat {
    if IsDigit(c) then DigitValue(c)
    else if 'a' <= c <= 'z' then c as int - 'a' as int + 10
    else if 'A' <= c <= 'Z' then c as int - 'A' as int + 10
    else 36
  }

  /** The longest run of digits of `base` at `i`, appended to `acc`. */
  function Run(s: string, base: nat, i: nat, acc: nat): (r: (nat, nat))
    requires i <= |s|
    ensures i <= r.1 <= |s|
    decreases |s| - i
  {
    if i < |s| && DigitIn(s[i]) < base then Run(s, base, i + 1, acc * base + DigitIn(s[i])) else (acc, i)
  }

  function Signed(s: string, i: nat): bool
    requires i <= |s|
  {
    i < |s| && (s[i] == '-' || s[i] == '+')
  }

  /** strtol with base 10: out-of-range values saturate. */
  function Strtol(s: string): int {
    var i := SkipSpace(s, 0);
    var negative := i < |s| && s[i] == '-';
    var magnitude: int := Run(s, 10, if Signed(s, i) then i + 1 else i, 0).0;
    var value: int := if negative then -magnitude else magnitude;
    Max(LONG_MIN, Min(LONG_MAX, value))
  }

  predicate IsHexPrefix(s: string, i: nat)
    requires i <= |s|
  {
    i + 2 < |s| && s[i] == '0' && (s[i + 1] == 'x' || s[i + 1] == 'X') && DigitIn(s[i + 2]) < 16
  }

  /** strtoull with base 0: a leading 0x means hexadecimal, any other leading 0 octal. */
  function Strtoull(s: string): Parsed {
    var i := SkipSpace(s, 0);
    var negative := i < |s| && s[i] == '-';
    var start := if Signed(s, i) then i + 1 else i;
    var (magnitude, end) :=
      if IsHexPrefix(s, start) then Run(s, 16, start + 2, 0)
      else if start < |s| && s[start] == '0' then Run(s, 8, start, 0)
      else Run(s, 10, start, 0);
    if end == start then Parsed(0, 0, false)
    else if magnitude > UINT64_MAX then Parsed(UINT64_MAX, end, true)
    else if negative then Parsed((UINT64_MAX + 1 - magnitude) % (UINT64_MAX + 1), end, false)
    else Parsed(magnitude, end, false)
  }

  // ---------- printed numbers scan back ----------

  /** `s` from `lo` on is all digits, so base 10 reads it to the end. */
  lemma {:induction false} RunReadsDigits(s: string, lo: nat, i: nat)
    requires lo <= i <= |s| && AllDigits(s[lo..])
    ensures AllDigits(s[lo..i])
    ensures Run(s, 10, i, ValueOf(s[lo..i])) == (ValueOf(s[lo..]), |s|)
    decreases |s| - i
  {
    if i < |s| {
      assert s[i] == s[lo..][i - lo];
      assert s[lo..i + 1] == s[lo..i] + [s[i]];
      ValueOfSnoc(s[lo..i], s[i]);
      RunReadsDigits(s, lo, i + 1);
    } else {
      assert s[lo..i] == s[lo..];
    }
  }

  /** The text smart_str_append_long writes. */
  function PrintLong(n: int): string {
    if n < 0 then "-" + Decimal(-n) else Decimal(n)
  }

  lemma LongRoundTrip(n: int)
    requires LONG_MIN <= n <= LONG_MAX
    ensures Strtol(PrintLong(n)) == n
  {
    var s := PrintLong(n);
    var lo := if n < 0 then 1 else 0;
    var digits := if n < 0 then Decimal(-n) else Decimal(n);
    assert s[lo..] == digits;
    assert s[lo] == digits[0];
    DecimalValue(if n < 0 then -n else n);
    RunReadsDigits(s, lo, lo);
    assert s[lo..lo] == "";
    assert Run(s, 10, lo, 0) == (ValueOf(digits), |s|);
  }

  /** It is digits without a leading zero, behind a minus sign if negative. */
  lemma PrintLongIs(n: int)
    ensures var s := PrintLong(n);
            && s != "" && (n < 0 <==> s[0] == '-')
            && var digits := if n < 0 then s[1..] else s;
               digits != "" && AllDigits(digits) && ValueOf(digits) == (if n < 0 then -n else n) && (digits[0] == '0' <==> n == 0)
  {
    DecimalValue(if n < 0 then -n else n);
    assert n < 0 ==> PrintLong(n)[1..] == Decimal(-n);
    assert n >= 0 ==> IsDigit(PrintLong(n)[0]);
  }

  // ---------- what strtol makes of any text ----------

  predicate AllSpace(s: string) {
    forall k :: 0 <= k < |s| ==> s[k] in " \t\n\r" || s[k] as int == 11 || s[k] as int == 12
  }

  lemma {:induction false} SkipsBlanks(blanks: string, rest: string, i: nat)
    requires i <= |blanks| && AllSpace(blanks) && (rest != "" ==> !IsSpace(rest[0]))
    ensures SkipSpace(blanks + rest, i) == |blanks|
    decreases |blanks| - i
  {
    var s := blanks + rest;
    if i < |blanks| {
      assert s[i] == blanks[i];
      SkipsBlanks(blanks, rest, i + 1);
    } else if rest != "" {
      assert s[i] == rest[0];
    }
  }

  /** Digits from `lo` to `hi`, and no digit there, are read as their value. */
  lemma {:induction false} RunStops(s: string, lo: nat, i: nat, hi: nat)
    requires lo <= i <= hi <= |s| && AllDigits(s[lo..hi]) && (hi < |s| ==> !IsDigit(s[hi]))
    ensures AllDigits(s[lo..i])
    ensures Run(s, 10, i, ValueOf(s[lo..i])) == (ValueOf(s[lo..hi]), hi)
    decreases hi - i
  {
    assert s[lo..i] == s[lo..hi][..i - lo];
    if i < hi {
      assert s[i] == s[lo..hi][i - lo];
      assert s[lo..i + 1] == s[lo..i] + [s[i]];
      ValueOfSnoc(s[lo..i], s[i]);
      RunStops(s, lo, i + 1, hi);
    }
  }

  /** White space, a sign, digits, and whatever follows them: the number with that sign, kept within 64 bits. */
  lemma StrtolIs(blanks: string, sign: string, digits: string, tail: string)
    requires AllSpace(blanks) && sign in ["", "+", "-"] && AllDigits(digits)
    requires tail != "" ==> !IsDigit(tail[0]) && (digits == "" ==> !IsSpace(tail[0]) && tail[0] != '-' && tail[0] != '+')
    ensures var size: int := ValueOf(digits);
            var n := if sign == "-" then -size else size;
            Strtol(blanks + (sign + digits + tail)) ==
            if n > 0x7FFF_FFFF_FFFF_FFFF then 0x7FFF_FFFF_FFFF_FFFF
            else if n < -0x8000_0000_0000_0000 then -0x8000_0000_0000_0000 else n
  {
    var rest := sign + digits + tail;
    var s, lo := blanks + rest, |blanks| + |sign|;
    StartsBare(sign, digits, tail);
    SkipsBlanks(blanks, rest, 0);
    DigitsAt(blanks, sign, digits, tail);
    StrtolParts(s, |blanks|, lo, ValueOf(digits));
  }

  lemma DigitsAt(blanks: string, sign: string, digits: string, tail: string)
    requires AllDigits(digits) && (tail != "" ==> !IsDigit(tail[0]))
    ensures var rest := sign + digits + tail;
            var s, lo := blanks + rest, |blanks| + |sign|;
            && lo <= |s| && Run(s, 10, lo, 0) == (ValueOf(digits), lo + |digits|)
            && |s| == |blanks| + |rest| && (rest != "" ==> s[|blanks|] == rest[0])
  {
    var s, lo := blanks + (sign + digits + tail), |blanks| + |sign|;
    assert s[lo..lo + |digits|] == digits;
    assert lo + |digits| < |s| ==> s[lo + |digits|] == tail[0];
    assert s[lo..lo] == "" && ValueOf("") == 0;
    hide Run, ValueOf;
    RunStops(s, lo, lo, lo + |digits|);
  }

  lemma StrtolParts(s: string, i: nat, lo: nat, size: int)
    requires i <= |s| && SkipSpace(s, 0) == i && lo == (if i < |s| && (s[i] == '-' || s[i] == '+') then i + 1 else i)
    requires Run(s, 10, lo, 0).0 == size
    ensures var n: int := if i < |s| && s[i] == '-' then -size else size;
            Strtol(s) == if n > 0x7FFF_FFFF_FFFF_FFFF then 0x7FFF_FFFF_FFFF_FFFF
                         else if n < -0x8000_0000_0000_0000 then -0x8000_0000_0000_0000 else n
  {
    hide Run, SkipSpace;
  }

  lemma StartsBare(sign: string, digits: string, tail: string)
    requires sign in ["", "+", "-"] && AllDigits(digits)
    requires tail != "" ==> !IsDigit(tail[0]) && (digits == "" ==> !IsSpace(tail[0]) && tail[0] != '-' && tail[0] != '+')
    ensures var rest := sign + digits + tail;
            && (rest != "" ==> !IsSpace(rest[0]))
            && (rest != "" && rest[0] == '-' <==> sign == "-")
            && (rest != "" && rest[0] == '+' <==> sign == "+")
  {
    assert digits != "" ==> IsDigit(digits[0]);
  }
}
