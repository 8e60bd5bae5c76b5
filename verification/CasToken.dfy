/**
 CAS tokens as PHP values: 64-bit unsigned numbers do not fit a PHP integer, so large ones
 travel as decimal strings.
 */
module CasToken {
  import opened Basics
  import opened Numerals
  import opened CNumbers

  /** The PHP values a token may be given as; every other type counts as Other. */
  datatype Zval = Long(n: int) | Double(d: real) | Str(s: string) | Other

  function FromUint64(value: nat): Zval
    requires value <= UINT64_MAX
  {
    if value >= LONG_MAX then Str(Decimal(value)) else Long(value)
  }

  /** None is the fatal error "failed to unmarshall cas token". */
  function ToUint64(cas: Zval): Option<int> {
    match cas
    case Long(n) => Some(n % (UINT64_MAX + 1))
    case Double(d) => Some(if d < 0.0 then 0 else d.Floor % (UINT64_MAX + 1))
    case Str(s) =>
      var p := Strtoull(s);
      var atEnd := p.end >= |s| || s[p.end] == '\0';
      if !atEnd || (p.overflow && p.value == UINT64_MAX) then None else Some(p.value)
    case Other => Some(0)
  }

  /**
   Every 64-bit token survives. The base-0 parser would read a leading zero as octal, so this
   rests on the decimal form of a token at or above LONG_MAX never starting with one.
   */
  lemma TokenRoundTrip(value: nat)
    requires value <= UINT64_MAX
    ensures ToUint64(FromUint64(value)) == Some(value)
  {
    if value >= LONG_MAX {
      var s := Decimal(value);
      DecimalValue(value);
      assert IsDigit(s[0]) && s[0] != '0';
      assert s[0..] == s && s[0..0] == "";
      RunReadsDigits(s, 0, 0);
      assert Run(s, 10, 0, 0) == (value, |s|);
    }
  }

  /** A token is a PHP integer below LONG_MAX and a string of its decimal digits from there on. */
  lemma TokenForm(value: nat)
    requires value <= UINT64_MAX
    ensures value < 0x7FFF_FFFF_FFFF_FFFF ==> FromUint64(value) == Long(value)
    ensures value >= 0x7FFF_FFFF_FFFF_FFFF ==>
              && FromUint64(value).Str? && AllDigits(FromUint64(value).s)
              && ValueOf(FromUint64(value).s) == value && FromUint64(value).s != "" && FromUint64(value).s[0] != '0'
  {
    DecimalValue(value);
  }

  /** A negative integer wraps, a negative double is 0, other doubles are cut off, and what is neither number nor string is 0. */
  lemma NumbersRead(n: int, d: real)
    ensures 0 <= n <= LONG_MAX ==> ToUint64(Long(n)) == Some(n)
    ensures LONG_MIN <= n < 0 ==> ToUint64(Long(n)) == Some(n + 0x1_0000_0000_0000_0000)
    ensures d < 0.0 ==> ToUint64(Double(d)) == Some(0)
    ensures 0.0 <= d < 18446744073709551616.0 ==> ToUint64(Double(d)) == Some(d.Floor)
    ensures ToUint64(Other) == Some(0)
  {
  }

  // ---------- what other digit strings mean ----------

  predicate AllOctal(s: string) {
    forall k :: 0 <= k < |s| ==> '0' <= s[k] <= '7'
  }

  function OctalOf(s: string): nat
    requires AllOctal(s)
  {
    if s == "" then 0 else 8 * OctalOf(s[..|s| - 1]) + (s[|s| - 1] as int - '0' as int)
  }

  lemma {:induction false} RunOctal(s: string, i: nat)
    requires i <= |s| && AllDigits(s) && AllOctal(s[..i])
    ensures var (value, end) := Run(s, 8, i, OctalOf(s[..i]));
            if AllOctal(s) then value == OctalOf(s) && end == |s| else end < |s|
    decreases |s| - i
  {
    if i < |s| {
      assert IsDigit(s[i]);
      if s[i] <= '7' {
        assert s[..i + 1][..i] == s[..i];
        RunOctal(s, i + 1);
      }
    } else {
      assert s[..i] == s;
    }
  }

  /**
   What a digit string means: without a leading zero its decimal value, with one its octal value if it
   has no other digits than octal ones; refused when it has, and when the value does not fit 64 bits.
   */
  lemma DigitsRead(s: string)
    requires s != "" && AllDigits(s)
    ensures s[0] != '0' ==> ToUint64(Str(s)) == if ValueOf(s) < 0x1_0000_0000_0000_0000 then Some(ValueOf(s)) else None
    ensures s[0] == '0' ==>
              ToUint64(Str(s)) == if AllOctal(s) && OctalOf(s) < 0x1_0000_0000_0000_0000 then Some(OctalOf(s)) else None
  {
    DigitsScan(s);
    hide Run, Strtoull, AllOctal;
    assert s[0..] == s && s[0..0] == "" == s[..0];
    if s[0] == '0' {
      EmptyOctal();
      RunOctal(s, 0);
      var end := Run(s, 8, 0, 0).1;
      assert end < |s| ==> IsDigit(s[end]);
    } else {
      RunReadsDigits(s, 0, 0);
    }
  }

  lemma EmptyOctal()
    ensures AllOctal("") && OctalOf("") == 0
  {
  }

  /** A digit run read as octal falls behind its decimal value as soon as that value has two digits. */
  lemma {:induction false} OctalRun(s: string, i: nat, acc: nat)
    requires i <= |s| && AllDigits(s)
    requires acc == ValueOf(s[..i]) < 8 || (acc < ValueOf(s[..i]) && ValueOf(s[..i]) >= 8)
    ensures var (value, end) := Run(s, 8, i, acc);
            end == |s| ==> value == ValueOf(s) < 8 || (value < ValueOf(s) && ValueOf(s) >= 8)
    ensures var (value, end) := Run(s, 8, i, acc);
            end < |s| ==> s[end] >= '8'
    decreases |s| - i
  {
    if i < |s| {
      assert s[..i + 1] == s[..i] + [s[i]];
      ValueOfSnoc(s[..i], s[i]);
      if s[i] < '8' {
        OctalRun(s, i + 1, acc * 8 + DigitIn(s[i]));
      }
    } else {
      assert s[..i] == s;
    }
  }

  /** Every digit of a string is at most its value. */
  lemma {:induction false} DigitAtMostValue(s: string, i: nat)
    requires i < |s| && AllDigits(s)
    ensures DigitValue(s[i]) <= ValueOf(s)
    decreases |s|
  {
    if i < |s| - 1 {
      DigitAtMostValue(s[..|s| - 1], i);
    }
  }

  /** No space, sign or hexadecimal prefix: the first digit alone picks the base. */
  lemma DigitsScan(s: string)
    requires s != "" && AllDigits(s)
    ensures var (value, end) := Run(s, if s[0] == '0' then 8 else 10, 0, 0);
            end >= 1 && Strtoull(s) == Parsed(Min(value, UINT64_MAX), end, value > UINT64_MAX)
  {
    assert IsDigit(s[0]);
    assert |s| > 1 ==> IsDigit(s[1]);
  }

  /**
   A digit string is read as the number it denotes if and only if that number fits 64 bits and the
   string either has no leading zero or is below 8, where octal and decimal agree.
   */
  lemma DecimalReadIff(s: string)
    requires s != "" && AllDigits(s)
    ensures ToUint64(Str(s)) == Some(ValueOf(s)) <==> ValueOf(s) <= UINT64_MAX && (s[0] != '0' || ValueOf(s) < 8)
  {
    DigitsScan(s);
    hide Run, Strtoull;
    assert s[0..] == s && s[0..0] == "" == s[..0];
    if s[0] == '0' {
      var (value, end) := Run(s, 8, 0, 0);
      OctalRun(s, 0, 0);
      if end < |s| {
        assert IsDigit(s[end]);
        DigitAtMostValue(s, end);
      }
    } else {
      RunReadsDigits(s, 0, 0);
    }
  }

  /** A leading zero makes the string octal: a digit 8 or 9 behind it is refused. */
  lemma LeadingZeroIsOctal(s: string)
    requires |s| >= 2 && AllDigits(s) && s[0] == '0' && s[1] >= '8'
    ensures ToUint64(Str(s)) == None
  {
    assert Run(s, 8, 0, 0) == Run(s, 8, 1, 0) == (0, 1);
  }

  lemma OctalScan(s: string, i: nat, acc: nat)
    requires i <= |s| && AllDigits(s)
    ensures Run(s, 8, i, acc) == if i < |s| && s[i] < '8' then Run(s, 8, i + 1, acc * 8 + DigitValue(s[i])) else (acc, i)
  {
  }

  /** Accepted with its decimal value, accepted with another, and refused. */
  lemma LeadingZeroExamples()
    ensures ToUint64(Str("07")) == Some(7) && ToUint64(Str("010")) == Some(8) && ToUint64(Str("08")) == None
  {
    hide Run, Strtoull;
    DigitsScan("07");
    OctalScan("07", 0, 0);
    OctalScan("07", 1, 0);
    OctalScan("07", 2, 7);
    DigitsScan("010");
    OctalScan("010", 0, 0);
    OctalScan("010", 1, 0);
    OctalScan("010", 2, 1);
    OctalScan("010", 3, 8);
    LeadingZeroIsOctal("08");
  }

  lemma RunStep(s: string, base: nat, i: nat, acc: nat)
    requires i <= |s|
    ensures Run(s, base, i, acc) == if i < |s| && DigitIn(s[i]) < base then Run(s, base, i + 1, acc * base + DigitIn(s[i])) else (acc, i)
  {
  }

  lemma HexRead()
    ensures ToUint64(Str("0x1F")) == Some(31)
  {
    hide Run;
    RunStep("0x1F", 16, 2, 0);
    RunStep("0x1F", 16, 3, 1);
    RunStep("0x1F", 16, 4, 31);
  }

  lemma MinusOneRead()
    ensures ToUint64(Str("-1")) == Some(0xFFFF_FFFF_FFFF_FFFF)
  {
    hide Run;
    RunStep("-1", 10, 1, 0);
    RunStep("-1", 10, 2, 1);
  }

  /** Hexadecimal is read, a minus sign wraps, trailing letters are refused, and nothing at all is 0. */
  lemma OtherStrings()
    ensures ToUint64(Str("0x1F")) == Some(31)
    ensures ToUint64(Str("-1")) == Some(0xFFFF_FFFF_FFFF_FFFF)
    ensures ToUint64(Str("12x")) == None
    ensures ToUint64(Str("")) == Some(0)
  {
    HexRead();
    MinusOneRead();
    hide Run;
    RunStep("12x", 10, 0, 0);
    RunStep("12x", 10, 1, 1);
    RunStep("12x", 10, 2, 12);
    RunStep("", 10, 0, 0);
  }
}
