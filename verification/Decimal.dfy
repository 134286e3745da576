/** Decimal text of integers: how it is written and how `str::parse::<i32>` reads it. */
module Decimal {
  import opened Resources

  const I32_MIN: int := -0x8000_0000
  const I32_MAX: int := 0x7fff_ffff

  type I32 = x: int | I32_MIN <= x <= I32_MAX
  type I64 = x: int | -0x8000_0000_0000_0000 <= x <= 0x7fff_ffff_ffff_ffff

  predicate IsDigit(c: char) {
    '0' <= c <= '9'
  }

  predicate AllDigits(s: string) {
    forall i :: 0 <= i < |s| ==> IsDigit(s[i])
  }

  function Digit(n: nat): char
    requires n < 10
  {
    '0' + n as char
  }

  /** The number a string of digits stands for. */
  function ValueOf(s: string): (v: int)
    requires AllDigits(s)
    ensures v >= 0
  {
    if s == [] then 0
    else
      var n := |s| - 1;
      10 * ValueOf(s[..n]) + (s[n] as int - '0' as int)
  }

  /** `str::parse::<i32>`: an optional sign and at least one digit, in range. */
  function ParseI32(s: string): Option<I32> {
    var negative := s != [] && s[0] == '-';
    var digits := if s != [] && (s[0] == '-' || s[0] == '+') then s[1..] else s;
    if digits == [] || !AllDigits(digits) then None
    else
      var v := if negative then -ValueOf(digits) else ValueOf(digits);
      if I32_MIN <= v <= I32_MAX then Some(v) else None
  }

  function Power10(n: nat): (p: nat)
    ensures p > 0
  {
    if n == 0 then 1 else 10 * Power10(n - 1)
  }

  function Zeros(n: nat): string {
    if n == 0 then "" else Zeros(n - 1) + "0"
  }

  /** Decimal digits without leading zeros. */
  function Digits(n: nat): string {
    if n < 10 then [Digit(n)] else Digits(n / 10) + [Digit(n % 10)]
  }

  /** Decimal digits with leading zeros up to `width`. */
  function Padded(n: nat, width: nat): string {
    (if |Digits(n)| < width then Zeros(width - |Digits(n)|) else "") + Digits(n)
  }

  lemma {:induction false} ZerosAreDigits(n: nat)
    ensures |Zeros(n)| == n && AllDigits(Zeros(n)) && ValueOf(Zeros(n)) == 0
  {
    if n > 0 {
      ZerosAreDigits(n - 1);
      assert Zeros(n)[..n - 1] == Zeros(n - 1);
    }
  }

  lemma {:induction false} DigitsReadBack(n: nat)
    ensures Digits(n) != [] && AllDigits(Digits(n)) && ValueOf(Digits(n)) == n
  {
    if n >= 10 {
      DigitsReadBack(n / 10);
      var front := Digits(n / 10);
      assert Digits(n)[..|front|] == front;
    } else {
      assert Digits(n)[..0] == [];
    }
  }

  lemma ConcatDigits(a: string, b: string)
    requires AllDigits(a) && AllDigits(b)
    ensures AllDigits(a + b)
  {
  }

  /** Digits appended to digits: the front is shifted by a power of ten. */
  lemma {:induction false} ValueOfConcat(a: string, b: string)
    requires AllDigits(a) && AllDigits(b)
    ensures AllDigits(a + b) && ValueOf(a + b) == ValueOf(a) * Power10(|b|) + ValueOf(b)
  {
    if b == [] {
      assert a + b == a;
    } else {
      var n := |b| - 1;
      ValueOfConcat(a, b[..n]);
      assert (a + b)[..|a + b| - 1] == a + b[..n];
      assert ValueOf(a) * Power10(|b|) == 10 * (ValueOf(a) * Power10(n));
    }
  }

  lemma LeadingZeros(zeros: string, digits: string)
    requires AllDigits(zeros) && AllDigits(digits) && ValueOf(zeros) == 0
    ensures AllDigits(zeros + digits) && ValueOf(zeros + digits) == ValueOf(digits)
  {
    ValueOfConcat(zeros, digits);
  }

  lemma PaddedReadsBack(n: nat, width: nat)
    ensures Padded(n, width) != [] && AllDigits(Padded(n, width)) && ValueOf(Padded(n, width)) == n
  {
    DigitsReadBack(n);
    if |Digits(n)| < width {
      ZerosAreDigits(width - |Digits(n)|);
      LeadingZeros(Zeros(width - |Digits(n)|), Digits(n));
    } else {
      assert Padded(n, width) == Digits(n);
    }
  }

  lemma {:induction false} DigitsFit(n: nat, width: nat)
    requires width > 0 && n < Power10(width)
    ensures |Digits(n)| <= width
  {
    if n >= 10 {
      assert width > 1;
      assert n / 10 < Power10(width - 1);
      DigitsFit(n / 10, width - 1);
    }
  }

  lemma PaddedWidth(n: nat, width: nat)
    requires width > 0 && n < Power10(width)
    ensures |Padded(n, width)| == width
  {
    DigitsFit(n, width);
    if |Digits(n)| < width {
      ZerosAreDigits(width - |Digits(n)|);
    }
  }

  /** A digit string in range parses to its value, and to its negation behind a minus sign. */
  lemma DigitsParse(s: string)
    requires s != [] && AllDigits(s)
    ensures ValueOf(s) <= I32_MAX ==> ParseI32(s) == Some(ValueOf(s))
    ensures ValueOf(s) <= -I32_MIN ==> ParseI32("-" + s) == Some(-ValueOf(s))
  {
    assert IsDigit(s[0]);
    assert ("-" + s)[1..] == s;
  }

  /** `s` writes `v`: at least one digit, behind an optional sign. */
  predicate WritesNumber(s: string, digits: string, v: int) {
    && digits != [] && AllDigits(digits)
    && (|| ((s == digits || s == "+" + digits) && v == ValueOf(digits))
        || (s == "-" + digits && v == -ValueOf(digits)))
  }

  /** Parsing accepts exactly the text of numbers that fit an i32, and yields that number. */
  lemma ParsesIff(s: string, v: int)
    ensures (ParseI32(s).Some? && ParseI32(s).value == v) <==>
      -2147483648 <= v <= 2147483647 && exists digits :: WritesNumber(s, digits, v)
  {
    if ParseI32(s).Some? && ParseI32(s).value == v {
      var digits := if s[0] == '-' || s[0] == '+' then s[1..] else s;
      assert s[0] == '-' || s[0] == '+' ==> s == [s[0]] + digits;
      assert WritesNumber(s, digits, v);
    }
    forall digits | WritesNumber(s, digits, v) && -2147483648 <= v <= 2147483647
      ensures ParseI32(s).Some? && ParseI32(s).value == v
    {
      assert IsDigit(digits[0]);
      assert s != digits ==> s[1..] == digits;
    }
  }
}
