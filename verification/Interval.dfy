/** BigQuery INTERVAL values (src/bigquery/src/datatypes.rs): two decoders, one for text and one for
    Arrow month/day/nanosecond cells. */
module Interval {
  import opened Resources
  import opened Decimal

  const NANOS_PER_SECOND := 1_000_000_000

  datatype Interval = Interval(
    years: I32, months: I32, days: I32, hours: I32, minutes: I32, seconds: I32, nanos: I32)

  datatype ConvertError = Convert | NotNull | TypeMismatch

  /** A decoded value, an error, or an i32 multiplication that overflowed. */
  datatype Decoded<+T> = Got(value: T) | Failed(error: ConvertError) | Overflow {
    predicate IsFailure() {
      !Got?
    }
    function PropagateFailure<U>(): Decoded<U>
      requires !Got?
    {
      if Overflow? then Overflow else Failed(error)
    }
    function Extract(): T
      requires Got?
    {
      value
    }
  }

  datatype ArrowCell = NullCell | MonthDayNano(months: I32, days: I32, nanoseconds: I64) | OtherCell

  datatype SqlValue = Text(text: string) | Null | Arrow(cell: ArrowCell) | OtherValue

  /** i32 multiplication. */
  function Times(a: I32, b: I32): Decoded<I32> {
    if I32_MIN <= a * b <= I32_MAX then Got(a * b) else Overflow
  }

  /** A cast to i32 keeps the low 32 bits. */
  function AsI32(n: nat): I32 {
    var low := n % 0x1_0000_0000;
    if low <= I32_MAX then low else low - 0x1_0000_0000
  }

  function Abs(x: int): nat {
    if x < 0 then -x else x
  }

  function Sign(x: int): I32 {
    if x < 0 then -1 else 1
  }

  /** The Arrow branch of `from_value`. */
  function FromArrow(months: I32, days: I32, nanoseconds: I64): Decoded<Interval> {
    var ymSign, timeSign := Sign(months), Sign(nanoseconds);
    var totalMonths, totalNanos := Abs(months), Abs(nanoseconds);
    var totalSecs := totalNanos / NANOS_PER_SECOND;
    var totalMins := totalSecs / 60;
    var years :- Times(AsI32(totalMonths / 12), ymSign);
    var monthsPart :- Times(AsI32(totalMonths % 12), ymSign);
    var nanos :- Times(AsI32(totalNanos % NANOS_PER_SECOND), timeSign);
    var seconds :- Times(AsI32(totalSecs % 60), timeSign);
    var minutes :- Times(AsI32(totalMins % 60), timeSign);
    var hours :- Times(AsI32(totalMins / 60), timeSign);
    Got(Interval(years, monthsPart, days, hours, minutes, seconds, nanos))
  }

  // ----- the text branch

  /** `char::is_whitespace` */
  predicate IsSpace(c: char) {
    var n := c as int;
    || 0x09 <= n <= 0x0d || n == 0x20 || n == 0x85 || n == 0xa0 || n == 0x1680
    || 0x2000 <= n <= 0x200a || n == 0x2028 || n == 0x2029 || n == 0x202f || n == 0x205f || n == 0x3000
  }

  /** How many characters of `s` come before the first space. */
  function WordLength(s: string): (n: nat)
    ensures n <= |s|
    ensures s != [] && !IsSpace(s[0]) ==> n > 0
  {
    if s == [] || IsSpace(s[0]) then 0 else 1 + WordLength(s[1..])
  }

  /** `split_whitespace` */
  function Words(s: string): seq<string>
    decreases |s|
  {
    if s == [] then []
    else if IsSpace(s[0]) then Words(s[1..])
    else [s[..WordLength(s)]] + Words(s[WordLength(s)..])
  }

  /** The index of the first `c`, or the length. */
  function IndexOf(s: string, c: char): (i: nat)
    ensures i <= |s|
  {
    if s == [] || s[0] == c then 0 else 1 + IndexOf(s[1..], c)
  }

  /** `split` at a character: always at least one piece. */
  function SplitAt(s: string, c: char): seq<string>
    decreases |s|
  {
    var i := IndexOf(s, c);
    if i == |s| then [s] else [s[..i]] + SplitAt(s[i + 1..], c)
  }

  /** The part before the first dot and the part after it, or "0". */
  function SplitFraction(s: string): (string, string) {
    var i := IndexOf(s, '.');
    if i == |s| then (s, "0") else (s[..i], s[i + 1..])
  }

  /** `format!("{frac:0<9.9}")`: cut or filled up to nine characters. */
  function NineDigits(frac: string): string {
    if |frac| < 9 then frac + Zeros(9 - |frac|) else frac[..9]
  }

  function Parse(s: string): Decoded<I32> {
    match ParseI32(s) case None => Failed(Convert) case Some(v) => Got(v)
  }

  /** A component of a group with the given sign. */
  function Component(s: string, sign: I32): Decoded<I32> {
    var v :- Parse(s);
    Times(v, sign)
  }

  function StripMinus(s: string): (bool, string) {
    if s != [] && s[0] == '-' then (true, s[1..]) else (false, s)
  }

  function FromWords(ym: string, dayText: string, time: string): Decoded<Interval> {
    var (ymNegative, ymContent) := StripMinus(ym);
    var ymParts := SplitAt(ymContent, '-');
    if |ymParts| != 2 then Failed(Convert)
    else
      var ymSign := if ymNegative then -1 else 1;
      var years :- Component(ymParts[0], ymSign);
      var months :- Component(ymParts[1], ymSign);
      var days :- Parse(dayText);
      var (timeNegative, timeContent) := StripMinus(time);
      var (hms, frac) := SplitFraction(timeContent);
      var parts := SplitAt(hms, ':');
      if |parts| != 3 then Failed(Convert)
      else
        var timeSign := if timeNegative then -1 else 1;
        var hours :- Component(parts[0], timeSign);
        var minutes :- Component(parts[1], timeSign);
        var seconds :- Component(parts[2], timeSign);
        var nanos :- Component(NineDigits(frac), timeSign);
        Got(Interval(years, months, days, hours, minutes, seconds, nanos))
  }

  function FromText(s: string): Decoded<Interval> {
    var words := Words(s);
    if |words| != 3 then Failed(Convert) else FromWords(words[0], words[1], words[2])
  }

  /** `Interval::from_value` */
  function FromValue(v: SqlValue): Decoded<Interval> {
    match v
    case Text(s) => FromText(s)
    case Null => Failed(NotNull)
    case Arrow(NullCell) => Failed(NotNull)
    case Arrow(MonthDayNano(m, d, n)) => FromArrow(m, d, n)
    case Arrow(OtherCell) => Failed(TypeMismatch)
    case OtherValue => Failed(TypeMismatch)
  }

  // ----- the Arrow branch is exact

  /** Two numbers agree in sign, zero counting as either. */
  predicate SameSign(a: int, b: int) {
    (a >= 0 && b >= 0) || (a <= 0 && b <= 0)
  }

  lemma CastIsExact(n: nat, sign: I32)
    requires n <= I32_MAX && (sign == 1 || sign == -1)
    ensures AsI32(n) == n && Times(AsI32(n), sign) == Got(n * sign)
  {
  }

  /** Splitting a time into hours, minutes, seconds and nanoseconds loses nothing. */
  lemma MixedRadix(total: nat)
    ensures var secs := total / NANOS_PER_SECOND; var mins := secs / 60;
      total == ((mins / 60 * 60 + mins % 60) * 60 + secs % 60) * NANOS_PER_SECOND + total % NANOS_PER_SECOND
  {
  }

  /** What the Arrow branch computes, with the casts and products resolved. */
  lemma ArrowValue(months: I32, days: I32, nanoseconds: I64)
    ensures var total := Abs(nanoseconds); var ym, time := Sign(months), Sign(nanoseconds);
      var secs := total / NANOS_PER_SECOND; var mins := secs / 60;
      && mins / 60 <= I32_MAX
      && FromArrow(months, days, nanoseconds) ==
         Got(Interval(Abs(months) / 12 * ym, Abs(months) % 12 * ym, days, mins / 60 * time,
                      mins % 60 * time, secs % 60 * time, total % NANOS_PER_SECOND * time))
  {
    var ymSign, timeSign := Sign(months), Sign(nanoseconds);
    var totalMonths, totalNanos := Abs(months), Abs(nanoseconds);
    var totalSecs := totalNanos / NANOS_PER_SECOND;
    var totalMins := totalSecs / 60;
    CastIsExact(totalMonths / 12, ymSign);
    CastIsExact(totalMonths % 12, ymSign);
    CastIsExact(totalNanos % NANOS_PER_SECOND, timeSign);
    CastIsExact(totalSecs % 60, timeSign);
    CastIsExact(totalMins % 60, timeSign);
    CastIsExact(totalMins / 60, timeSign);
  }

  /** Every Arrow interval, extremes included, decodes without overflow; its parts recompose exactly
      to months, days and nanoseconds, share their group's sign and stay in their radix. */
  lemma ArrowIsExact(months: I32, days: I32, nanoseconds: I64)
    ensures FromArrow(months, days, nanoseconds).Got?
    ensures var v := FromArrow(months, days, nanoseconds).value;
      && v.years * 12 + v.months == months && v.days == days
      && ((v.hours * 60 + v.minutes) * 60 + v.seconds) * NANOS_PER_SECOND + v.nanos == nanoseconds
    ensures var v := FromArrow(months, days, nanoseconds).value;
      && SameSign(v.years, months) && SameSign(v.months, months)
      && SameSign(v.hours, nanoseconds) && SameSign(v.minutes, nanoseconds)
      && SameSign(v.seconds, nanoseconds) && SameSign(v.nanos, nanoseconds)
      && -12 < v.months < 12 && -60 < v.minutes < 60 && -60 < v.seconds < 60
      && -NANOS_PER_SECOND < v.nanos < NANOS_PER_SECOND
  {
    ArrowValue(months, days, nanoseconds);
    MixedRadix(Abs(nanoseconds));
  }

  // ----- well-formed text

  /** The pieces of an interval text: signs and digit strings. */
  datatype Fields = Fields(
    ymNegative: bool, years: string, months: string,
    dayNegative: bool, days: string,
    timeNegative: bool, hours: string, minutes: string, seconds: string, fraction: Option<string>)

  predicate IsNumber(s: string, max: int) {
    s != [] && AllDigits(s) && ValueOf(s) <= max
  }

  /** Every piece is a number that fits an i32; the fraction may have any number of digits. */
  predicate WellFormed(f: Fields) {
    && IsNumber(f.years, I32_MAX) && IsNumber(f.months, I32_MAX)
    && IsNumber(f.days, if f.dayNegative then -I32_MIN else I32_MAX)
    && IsNumber(f.hours, I32_MAX) && IsNumber(f.minutes, I32_MAX) && IsNumber(f.seconds, I32_MAX)
    && (f.fraction.Some? ==> AllDigits(f.fraction.value))
  }

  function SignText(negative: bool): string {
    if negative then "-" else ""
  }

  function Signed(negative: bool, n: int): int {
    if negative then -n else n
  }

  function YearMonthText(f: Fields): string {
    SignText(f.ymNegative) + (f.years + ['-'] + f.months)
  }

  function DayText(f: Fields): string {
    SignText(f.dayNegative) + f.days
  }

  function ClockText(f: Fields): string {
    f.hours + [':'] + (f.minutes + [':'] + f.seconds)
  }

  function TimeText(f: Fields): string {
    SignText(f.timeNegative) + (ClockText(f) + FractionText(f.fraction))
  }

  function FractionText(fraction: Option<string>): string {
    match fraction case None => [] case Some(x) => ['.'] + x
  }

  /** year-month, days and time, separated by spaces. */
  function TextOf(f: Fields): string {
    YearMonthText(f) + [' '] + (DayText(f) + [' '] + TimeText(f))
  }

  /** The nanoseconds of a fraction: its first nine digits, filled up with zeros. */
  function NanosOf(fraction: Option<string>): int
    requires fraction.Some? ==> AllDigits(fraction.value)
  {
    match fraction
    case None => 0
    case Some(x) => NineDigitsAreDigits(x); ValueOf(NineDigits(x))
  }

  lemma NineDigitsAreDigits(x: string)
    requires AllDigits(x)
    ensures AllDigits(NineDigits(x)) && |NineDigits(x)| == 9
  {
    if |x| < 9 {
      var zeros := Zeros(9 - |x|);
      assert |zeros| == 9 - |x| && AllDigits(zeros) by {
        ZerosAreDigits(9 - |x|);
      }
      ConcatDigits(x, zeros);
    }
  }

  // ----- taking text apart

  predicate Without(s: string, c: char) {
    forall i :: 0 <= i < |s| ==> s[i] != c
  }

  predicate NoSpace(s: string) {
    forall i :: 0 <= i < |s| ==> !IsSpace(s[i])
  }

  lemma {:induction false} IndexOfSkips(a: string, c: char, b: string)
    requires Without(a, c) && (b != [] ==> b[0] == c)
    ensures IndexOf(a + b, c) == |a|
  {
    if a == [] {
      assert a + b == b;
    } else {
      IndexOfSkips(a[1..], c, b);
      assert (a + b)[1..] == a[1..] + b;
    }
  }

  lemma SplitsOne(a: string, c: char)
    requires Without(a, c)
    ensures SplitAt(a, c) == [a]
  {
    IndexOfSkips(a, c, []);
    assert a + [] == a;
  }

  lemma SplitsFirst(a: string, c: char, b: string)
    requires Without(a, c)
    ensures SplitAt(a + [c] + b, c) == [a] + SplitAt(b, c)
  {
    IndexOfSkips(a, c, [c] + b);
    assert a + [c] + b == a + ([c] + b);
    assert (a + [c] + b)[..|a|] == a && (a + [c] + b)[|a| + 1..] == b;
  }

  lemma {:induction false} WordLengthSkips(a: string, b: string)
    requires NoSpace(a) && (b != [] ==> IsSpace(b[0]))
    ensures WordLength(a + b) == |a|
  {
    if a == [] {
      assert a + b == b;
    } else {
      WordLengthSkips(a[1..], b);
      assert (a + b)[1..] == a[1..] + b;
    }
  }

  lemma WordsFirst(a: string, b: string)
    requires a != [] && NoSpace(a)
    ensures Words(a + [' '] + b) == [a] + Words(b)
  {
    var whole := a + [' '] + b;
    WordLengthSkips(a, [' '] + b);
    assert whole == a + ([' '] + b) && whole[..|a|] == a && whole[|a|..] == [' '] + b;
    assert ([' '] + b)[1..] == b;
  }

  lemma WordsOne(a: string)
    requires a != [] && NoSpace(a)
    ensures Words(a) == [a]
  {
    WordLengthSkips(a, []);
    assert a + [] == a && a[..|a|] == a && a[|a|..] == [];
  }

  lemma ThreeWords(a: string, b: string, c: string)
    requires a != [] && b != [] && c != [] && NoSpace(a) && NoSpace(b) && NoSpace(c)
    ensures Words(a + [' '] + (b + [' '] + c)) == [a, b, c]
  {
    WordsFirst(a, b + [' '] + c);
    WordsFirst(b, c);
    WordsOne(c);
  }

  lemma DigitsAreClean(s: string)
    requires AllDigits(s)
    ensures NoSpace(s) && Without(s, '-') && Without(s, ':') && Without(s, '.')
  {
    assert forall i :: 0 <= i < |s| ==> IsDigit(s[i]);
  }

  lemma NumberComponent(s: string, negative: bool)
    requires IsNumber(s, I32_MAX)
    ensures Component(s, if negative then -1 else 1) == Got(Signed(negative, ValueOf(s)))
  {
    DigitsParse(s);
  }

  /** Reading a sign off the front of text that starts with a digit. */
  lemma SignReadsBack(negative: bool, content: string)
    requires content != [] && IsDigit(content[0])
    ensures StripMinus(SignText(negative) + content) == (negative, content)
  {
    if negative {
      assert ("-" + content)[1..] == content;
    } else {
      assert "" + content == content;
    }
  }

  /** Two digit strings with a separator between them. */
  lemma PairReadsBack(a: string, c: char, b: string)
    requires a != [] && AllDigits(a) && AllDigits(b) && !IsDigit(c) && !IsSpace(c)
    ensures NoSpace(a + [c] + b) && IsDigit((a + [c] + b)[0])
    ensures SplitAt(a + [c] + b, c) == [a, b]
  {
    DigitsAreClean(a);
    DigitsAreClean(b);
    assert Without(a, c) && Without(b, c);
    SplitsFirst(a, c, b);
    SplitsOne(b, c);
    ConcatNoSpace(a, [c]);
    ConcatNoSpace(a + [c], b);
  }

  lemma YearMonthReadsBack(f: Fields)
    requires WellFormed(f)
    ensures YearMonthText(f) != [] && NoSpace(YearMonthText(f))
    ensures StripMinus(YearMonthText(f)) == (f.ymNegative, f.years + ['-'] + f.months)
    ensures SplitAt(f.years + ['-'] + f.months, '-') == [f.years, f.months]
  {
    var content := f.years + ['-'] + f.months;
    PairReadsBack(f.years, '-', f.months);
    SignReadsBack(f.ymNegative, content);
    ConcatNoSpace(SignText(f.ymNegative), content);
  }

  lemma DaysReadBack(f: Fields)
    requires WellFormed(f)
    ensures DayText(f) != [] && NoSpace(DayText(f))
    ensures Parse(DayText(f)) == Got(Signed(f.dayNegative, ValueOf(f.days)))
  {
    DigitsAreClean(f.days);
    DigitsParse(f.days);
    assert !f.dayNegative ==> DayText(f) == f.days;
  }

  lemma ClockReadsBack(f: Fields)
    requires WellFormed(f)
    ensures var clock := ClockText(f);
      && clock != [] && IsDigit(clock[0]) && NoSpace(clock) && Without(clock, '.')
      && SplitAt(clock, ':') == [f.hours, f.minutes, f.seconds]
  {
    DigitsAreClean(f.hours);
    DigitsAreClean(f.minutes);
    DigitsAreClean(f.seconds);
    SplitsFirst(f.hours, ':', f.minutes + [':'] + f.seconds);
    SplitsFirst(f.minutes, ':', f.seconds);
    SplitsOne(f.seconds, ':');
  }

  lemma FractionSplitsOff(clock: string, fraction: Option<string>)
    requires Without(clock, '.')
    ensures SplitFraction(clock + FractionText(fraction)) ==
            (clock, if fraction.Some? then fraction.value else "0")
  {
    var tail := FractionText(fraction);
    IndexOfSkips(clock, '.', tail);
    if fraction.None? {
      assert clock + tail == clock;
    } else {
      assert (clock + tail)[..|clock|] == clock && (clock + tail)[|clock| + 1..] == fraction.value;
    }
  }

  lemma ConcatNoSpace(a: string, b: string)
    requires NoSpace(a) && NoSpace(b)
    ensures NoSpace(a + b)
  {
  }

  /** The clock and the fraction of a time text, taken apart again. */
  lemma TimeReadsBack(f: Fields)
    requires WellFormed(f)
    ensures TimeText(f) != [] && NoSpace(TimeText(f))
    ensures StripMinus(TimeText(f)) == (f.timeNegative, ClockText(f) + FractionText(f.fraction))
    ensures SplitFraction(ClockText(f) + FractionText(f.fraction)) ==
            (ClockText(f), if f.fraction.Some? then f.fraction.value else "0")
  {
    var clock, tail := ClockText(f), FractionText(f.fraction);
    ClockReadsBack(f);
    FractionSplitsOff(clock, f.fraction);
    assert NoSpace(tail) by {
      if f.fraction.Some? {
        DigitsAreClean(f.fraction.value);
        ConcatNoSpace(['.'], f.fraction.value);
      }
    }
    ConcatNoSpace(clock, tail);
    ConcatNoSpace(SignText(f.timeNegative), clock + tail);
    assert (clock + tail)[0] == clock[0];
    SignReadsBack(f.timeNegative, clock + tail);
  }

  lemma {:induction false} NineDigitsFit(s: string)
    requires AllDigits(s)
    ensures ValueOf(s) < Power10(|s|)
  {
    if s != [] {
      NineDigitsFit(s[..|s| - 1]);
    }
  }

  lemma Power10Nine()
    ensures Power10(9) == 1_000_000_000
  {
    assert Power10(3) == 1000 && Power10(6) == 1_000_000;
  }

  /** The fraction read back: nine digits, or zero. */
  lemma FractionReadsBack(fraction: Option<string>, negative: bool)
    requires fraction.Some? ==> AllDigits(fraction.value)
    ensures 0 <= NanosOf(fraction) < NANOS_PER_SECOND
    ensures var frac := if fraction.Some? then fraction.value else "0";
      Component(NineDigits(frac), if negative then -1 else 1) == Got(Signed(negative, NanosOf(fraction)))
  {
    Power10Nine();
    var frac := if fraction.Some? then fraction.value else "0";
    NineDigitsAreDigits(frac);
    NineDigitsFit(NineDigits(frac));
    NumberComponent(NineDigits(frac), negative);
    if fraction.None? {
      ZerosAreDigits(8);
      ValueOfConcat("0", Zeros(8));
      assert ValueOf("0") == 0;
    }
  }

  /** Every well-formed text decodes to exactly the numbers it writes, with the sign of its group; of
      the fraction, nine digits count. */
  lemma TextReadsBack(f: Fields)
    requires WellFormed(f)
    ensures 0 <= NanosOf(f.fraction) < NANOS_PER_SECOND
    ensures FromText(TextOf(f)) == Got(Interval(
      Signed(f.ymNegative, ValueOf(f.years)), Signed(f.ymNegative, ValueOf(f.months)),
      Signed(f.dayNegative, ValueOf(f.days)),
      Signed(f.timeNegative, ValueOf(f.hours)), Signed(f.timeNegative, ValueOf(f.minutes)),
      Signed(f.timeNegative, ValueOf(f.seconds)), Signed(f.timeNegative, NanosOf(f.fraction))))
  {
    YearMonthReadsBack(f);
    DaysReadBack(f);
    TimeReadsBack(f);
    ClockReadsBack(f);
    ThreeWords(YearMonthText(f), DayText(f), TimeText(f));
    NumberComponent(f.years, f.ymNegative);
    NumberComponent(f.months, f.ymNegative);
    NumberComponent(f.hours, f.timeNegative);
    NumberComponent(f.minutes, f.timeNegative);
    NumberComponent(f.seconds, f.timeNegative);
    FractionReadsBack(f.fraction, f.timeNegative);
  }

  /** A fraction that is `k` digits short of nine counts 10^k times its number. */
  lemma ShortFraction(x: string, k: nat)
    requires AllDigits(x) && |x| + k == 9 && k > 0
    ensures NanosOf(Some(x)) == ValueOf(x) * Power10(k)
  {
    ZerosAreDigits(k);
    ValueOfConcat(x, Zeros(k));
  }

  /** Of a longer one the first nine digits count. */
  lemma LongFraction(x: string, rest: string)
    requires AllDigits(x) && AllDigits(rest) && |x| == 9
    ensures AllDigits(x + rest) && NanosOf(Some(x + rest)) == ValueOf(x)
  {
    ConcatDigits(x, rest);
    assert (x + rest)[..9] == x;
  }

  // ----- both decoders on the same value

  /** The text writes exactly these months, days and nanoseconds, each group in its radix. */
  predicate Writes(f: Fields, months: I32, days: I32, nanoseconds: I64)
    requires WellFormed(f)
  {
    && ValueOf(f.months) < 12 && ValueOf(f.minutes) < 60 && ValueOf(f.seconds) < 60
    && Signed(f.ymNegative, ValueOf(f.years) * 12 + ValueOf(f.months)) == months
    && Signed(f.dayNegative, ValueOf(f.days)) == days
    && Signed(f.timeNegative,
              ((ValueOf(f.hours) * 60 + ValueOf(f.minutes)) * 60 + ValueOf(f.seconds)) * NANOS_PER_SECOND
              + NanosOf(f.fraction)) == nanoseconds
  }

  /** Mixed-radix digits are unique. */
  lemma DigitsAreUnique(y: nat, m: nat, h: nat, mi: nat, s: nat, n: nat)
    requires m < 12 && mi < 60 && s < 60 && n < NANOS_PER_SECOND
    ensures (y * 12 + m) / 12 == y && (y * 12 + m) % 12 == m
    ensures var total := ((h * 60 + mi) * 60 + s) * NANOS_PER_SECOND + n;
      var secs := total / NANOS_PER_SECOND; var mins := secs / 60;
      mins / 60 == h && mins % 60 == mi && secs % 60 == s && total % NANOS_PER_SECOND == n
  {
    var mins := h * 60 + mi;
    var secs := mins * 60 + s;
    assert (secs * NANOS_PER_SECOND + n) / NANOS_PER_SECOND == secs;
    assert secs / 60 == mins;
  }

  lemma SignIsKept(negative: bool, total: nat, x: int, part: nat)
    requires Signed(negative, total) == x && (total == 0 ==> part == 0)
    ensures Abs(x) == total && part * Sign(x) == Signed(negative, part)
  {
  }

  /** What the Arrow branch makes of a value with the given mixed-radix digits. */
  lemma ArrowOf(ymNegative: bool, y: nat, m: nat, days: I32,
                timeNegative: bool, h: nat, mi: nat, s: nat, n: nat, months: I32, nanoseconds: I64)
    requires m < 12 && mi < 60 && s < 60 && n < NANOS_PER_SECOND
    requires Signed(ymNegative, y * 12 + m) == months
    requires Signed(timeNegative, ((h * 60 + mi) * 60 + s) * NANOS_PER_SECOND + n) == nanoseconds
    ensures y <= I32_MAX && h <= I32_MAX
    ensures FromArrow(months, days, nanoseconds) ==
      Got(Interval(Signed(ymNegative, y), Signed(ymNegative, m), days, Signed(timeNegative, h),
                   Signed(timeNegative, mi), Signed(timeNegative, s), Signed(timeNegative, n)))
  {
    var total := ((h * 60 + mi) * 60 + s) * NANOS_PER_SECOND + n;
    ArrowValue(months, days, nanoseconds);
    DigitsAreUnique(y, m, h, mi, s, n);
    SignIsKept(ymNegative, y * 12 + m, months, y);
    SignIsKept(ymNegative, y * 12 + m, months, m);
    SignIsKept(timeNegative, total, nanoseconds, h);
    SignIsKept(timeNegative, total, nanoseconds, mi);
    SignIsKept(timeNegative, total, nanoseconds, s);
    SignIsKept(timeNegative, total, nanoseconds, n);
  }

  lemma SameValue(text: string, months: I32, days: I32, nanoseconds: I64, v: Interval)
    requires FromText(text) == Got(v) && FromArrow(months, days, nanoseconds) == Got(v)
    ensures FromValue(Text(text)) == Got(v)
    ensures FromValue(Text(text)) == FromValue(Arrow(MonthDayNano(months, days, nanoseconds)))
  {
  }

  /** The two decoders agree on every Arrow interval, extremes included: any well-formed text that
      writes the same value decodes to the same parts. */
  lemma TextAgreesWithArrow(f: Fields, months: I32, days: I32, nanoseconds: I64)
    requires WellFormed(f) && Writes(f, months, days, nanoseconds)
    ensures FromValue(Text(TextOf(f))).Got?
    ensures FromValue(Text(TextOf(f))) == FromValue(Arrow(MonthDayNano(months, days, nanoseconds)))
  {
    TextReadsBack(f);
    ArrowOf(f.ymNegative, ValueOf(f.years), ValueOf(f.months), days, f.timeNegative, ValueOf(f.hours),
            ValueOf(f.minutes), ValueOf(f.seconds), NanosOf(f.fraction), months, nanoseconds);
    SameValue(TextOf(f), months, days, nanoseconds, FromArrow(months, days, nanoseconds).value);
  }

  /** The canonical text: minutes and seconds padded to `width`, nine fraction digits. */
  function Canonical(months: I32, days: I32, nanoseconds: I64, width: nat): Fields {
    var total := Abs(nanoseconds);
    var secs := total / NANOS_PER_SECOND;
    Fields(months < 0, Padded(Abs(months) / 12, 0), Padded(Abs(months) % 12, 0),
           days < 0, Padded(Abs(days), 0),
           nanoseconds < 0, Padded(secs / 60 / 60, 0), Padded(secs / 60 % 60, width),
           Padded(secs % 60, width), Some(Padded(total % NANOS_PER_SECOND, 9)))
  }

  lemma PaddedIsNumber(n: nat, width: nat, max: int)
    requires n <= max
    ensures IsNumber(Padded(n, width), max) && ValueOf(Padded(n, width)) == n
  {
    PaddedReadsBack(n, width);
  }

  lemma FractionWrites(n: nat)
    requires n < NANOS_PER_SECOND
    ensures AllDigits(Padded(n, 9)) && NanosOf(Some(Padded(n, 9))) == n
  {
    Power10Nine();
    PaddedReadsBack(n, 9);
    PaddedWidth(n, 9);
    assert NineDigits(Padded(n, 9)) == Padded(n, 9);
  }

  /** Taking a value apart and putting it together again. */
  lemma DecomposesBack(months: I32, nanoseconds: I64)
    ensures Signed(months < 0, Abs(months) / 12 * 12 + Abs(months) % 12) == months
    ensures var total := Abs(nanoseconds); var secs := total / NANOS_PER_SECOND;
      Signed(nanoseconds < 0,
             ((secs / 60 / 60 * 60 + secs / 60 % 60) * 60 + secs % 60) * NANOS_PER_SECOND
             + total % NANOS_PER_SECOND) == nanoseconds
  {
    MixedRadix(Abs(nanoseconds));
  }

  /** Fields with the right signs and numbers write the value. */
  lemma NumbersWrite(f: Fields, months: I32, days: I32, nanoseconds: I64, secs: nat)
    requires WellFormed(f) && secs == Abs(nanoseconds) / NANOS_PER_SECOND
    requires f.ymNegative == (months < 0) && f.dayNegative == (days < 0) && f.timeNegative == (nanoseconds < 0)
    requires ValueOf(f.years) == Abs(months) / 12 && ValueOf(f.months) == Abs(months) % 12
    requires ValueOf(f.days) == Abs(days) && ValueOf(f.hours) == secs / 60 / 60
    requires ValueOf(f.minutes) == secs / 60 % 60 && ValueOf(f.seconds) == secs % 60
    requires NanosOf(f.fraction) == Abs(nanoseconds) % NANOS_PER_SECOND
    ensures Writes(f, months, days, nanoseconds)
  {
    DecomposesBack(months, nanoseconds);
  }

  /** Every Arrow interval has such a text. */
  lemma CanonicalWrites(months: I32, days: I32, nanoseconds: I64, width: nat)
    ensures WellFormed(Canonical(months, days, nanoseconds, width))
    ensures Writes(Canonical(months, days, nanoseconds, width), months, days, nanoseconds)
  {
    var total := Abs(nanoseconds);
    var secs := total / NANOS_PER_SECOND;
    PaddedIsNumber(Abs(months) / 12, 0, I32_MAX);
    PaddedIsNumber(Abs(months) % 12, 0, I32_MAX);
    PaddedIsNumber(Abs(days), 0, if days < 0 then -I32_MIN else I32_MAX);
    PaddedIsNumber(secs / 60 / 60, 0, I32_MAX);
    PaddedIsNumber(secs / 60 % 60, width, I32_MAX);
    PaddedIsNumber(secs % 60, width, I32_MAX);
    FractionWrites(total % NANOS_PER_SECOND);
    NumbersWrite(Canonical(months, days, nanoseconds, width), months, days, nanoseconds, secs);
  }

  // ----- overflow

  /** A component of a negative time that carries its own minus sign and reads as i32::MIN. */
  predicate IsMinimum(s: string) {
    ParseI32(s) == Some(I32_MIN)
  }

  lemma {:induction false} PiecesLack(s: string, c: char)
    ensures forall i :: 0 <= i < |SplitAt(s, c)| ==> Without(SplitAt(s, c)[i], c)
    decreases |s|
  {
    var i := IndexOf(s, c);
    BeforeIndexLacks(s, c);
    if i == |s| {
      assert s[..i] == s;
    } else {
      PiecesLack(s[i + 1..], c);
    }
  }

  lemma {:induction false} BeforeIndexLacks(s: string, c: char)
    ensures Without(s[..IndexOf(s, c)], c)
  {
    if s != [] && s[0] != c {
      BeforeIndexLacks(s[1..], c);
      assert s[..IndexOf(s, c)] == [s[0]] + s[1..][..IndexOf(s[1..], c)];
    }
  }

  lemma ComponentOverflows(s: string, negative: bool)
    ensures Component(s, if negative then -1 else 1) == Overflow <==> negative && IsMinimum(s)
  {
  }

  lemma NineCharactersAreSmall(x: string)
    ensures !IsMinimum(NineDigits(x))
  {
    var s := NineDigits(x);
    assert |s| == 9 by {
      if |x| < 9 {
        ZerosAreDigits(9 - |x|);
      }
    }
    assert Power10(8) == 100_000_000 by {
      assert Power10(4) == 10_000;
    }
    if AllDigits(s[1..]) {
      NineDigitsFit(s[1..]);
    }
  }

  /** The time part of a text whose year-month and day parts decode: exactly when a multiplication
      overflows. The time must be negative, and its hours, minutes or seconds must read as i32::MIN
      behind their own minus sign, with everything before them readable. */
  predicate OverflowingTime(time: string) {
    var (negative, content) := StripMinus(time);
    var parts := SplitAt(SplitFraction(content).0, ':');
    && negative && |parts| == 3
    && (|| IsMinimum(parts[0])
        || (ParseI32(parts[0]).Some? && IsMinimum(parts[1]))
        || (ParseI32(parts[0]).Some? && ParseI32(parts[1]).Some? && IsMinimum(parts[2])))
  }

  /** The year-month and day words decode. */
  predicate DateDecodes(ym: string, day: string) {
    var parts := SplitAt(StripMinus(ym).1, '-');
    |parts| == 2 && ParseI32(parts[0]).Some? && ParseI32(parts[1]).Some? && ParseI32(day).Some?
  }

  /** Text decoding overflows exactly on such times; year-month parts never overflow, because they are
      split at every minus sign. */
  lemma TextOverflowsIff(s: string)
    ensures FromText(s) == Overflow <==>
      var w := Words(s); |w| == 3 && DateDecodes(w[0], w[1]) && OverflowingTime(w[2])
  {
    var w := Words(s);
    if |w| == 3 {
      var (ymNegative, ymContent) := StripMinus(w[0]);
      var ymParts := SplitAt(ymContent, '-');
      PiecesLack(ymContent, '-');
      if |ymParts| == 2 {
        assert Without(ymParts[0], '-') && Without(ymParts[1], '-');
        ComponentOverflows(ymParts[0], ymNegative);
        ComponentOverflows(ymParts[1], ymNegative);
        var (negative, content) := StripMinus(w[2]);
        var (hms, frac) := SplitFraction(content);
        var parts := SplitAt(hms, ':');
        if |parts| == 3 {
          ComponentOverflows(parts[0], negative);
          ComponentOverflows(parts[1], negative);
          ComponentOverflows(parts[2], negative);
          ComponentOverflows(NineDigits(frac), negative);
          NineCharactersAreSmall(frac);
        }
      }
    }
  }

  /** A negative time whose hours are themselves written as -2147483648. */
  lemma NegatedMinimumTime(digits: string, rest: string)
    requires digits != [] && AllDigits(digits) && ValueOf(digits) == 2147483648
    requires Without(rest, '.') && |SplitAt(rest, ':')| == 2
    ensures OverflowingTime("-" + ("-" + digits + [':'] + rest))
  {
    var hours := "-" + digits;
    DigitsAreClean(digits);
    DigitsParse(digits);
    var content := hours + [':'] + rest;
    assert ("-" + content)[1..] == content;
    assert Without(content, '.');
    IndexOfSkips(content, '.', []);
    assert content + [] == content;
    SplitsFirst(hours, ':', rest);
  }

  /** Well-formed year-month and day words decode. */
  lemma DateTextDecodes(f: Fields)
    requires WellFormed(f)
    ensures DateDecodes(YearMonthText(f), DayText(f))
  {
    YearMonthReadsBack(f);
    DaysReadBack(f);
    DigitsParse(f.years);
    DigitsParse(f.months);
  }

  /** Whatever words come first, three words with an overflowing time overflow. */
  lemma ThreeWordsOverflow(ym: string, day: string, time: string)
    requires ym != [] && day != [] && time != [] && NoSpace(ym) && NoSpace(day) && NoSpace(time)
    requires DateDecodes(ym, day) && OverflowingTime(time)
    ensures FromText(ym + [' '] + (day + [' '] + time)) == Overflow
  {
    ThreeWords(ym, day, time);
    TextOverflowsIff(ym + [' '] + (day + [' '] + time));
  }

  /** The clock after the hours, as text. */
  lemma MinutesReadBack(f: Fields)
    requires WellFormed(f)
    ensures var rest := f.minutes + [':'] + f.seconds;
      NoSpace(rest) && Without(rest, '.') && SplitAt(rest, ':') == [f.minutes, f.seconds]
  {
    DigitsAreClean(f.minutes);
    DigitsAreClean(f.seconds);
    PairReadsBack(f.minutes, ':', f.seconds);
  }

  /** Decoding overflows on every text with well-formed words whose time is negative and whose hours are
      themselves written as -2147483648. */
  lemma NegatedMinimumOverflows(f: Fields, digits: string)
    requires WellFormed(f) && digits != [] && AllDigits(digits) && ValueOf(digits) == 2147483648
    ensures var time := "-" + ("-" + digits + [':'] + (f.minutes + [':'] + f.seconds));
      FromText(YearMonthText(f) + [' '] + (DayText(f) + [' '] + time)) == Overflow
  {
    var rest := f.minutes + [':'] + f.seconds;
    var time := "-" + ("-" + digits + [':'] + rest);
    MinutesReadBack(f);
    NegatedMinimumTime(digits, rest);
    assert NoSpace(time) by {
      DigitsAreClean(digits);
      ConcatNoSpace("-", digits);
      ConcatNoSpace("-" + digits, [':']);
      ConcatNoSpace("-" + digits + [':'], rest);
      ConcatNoSpace("-", "-" + digits + [':'] + rest);
    }
    DateTextDecodes(f);
    YearMonthReadsBack(f);
    DaysReadBack(f);
    ThreeWordsOverflow(YearMonthText(f), DayText(f), time);
  }

  // ----- exactly which text decodes, and to what

  predicate Blank(s: string) {
    forall i :: 0 <= i < |s| ==> IsSpace(s[i])
  }

  /** `s` is blank space, the first word, which ends at a space or at the end, and then the other words
      likewise; after the last word it is blank. */
  ghost predicate Spaced(s: string, words: seq<string>)
    decreases |words|
  {
    if words == [] then Blank(s)
    else exists n, m :: FirstWord(s, words[0], n, m) && Spaced(s[m..], words[1..])
  }

  /** `word` is the first word of `s`, from `n` to `m`. */
  predicate FirstWord(s: string, word: string, n: int, m: int) {
    && 0 <= n < m <= |s| && Blank(s[..n]) && s[n..m] == word && NoSpace(word)
    && (m < |s| ==> IsSpace(s[m]))
  }

  lemma {:induction false} WordsSkipBlanks(blanks: string, rest: string)
    requires Blank(blanks)
    ensures Words(blanks + rest) == Words(rest)
  {
    if blanks == [] {
      assert blanks + rest == rest;
    } else {
      assert (blanks + rest)[1..] == blanks[1..] + rest;
      WordsSkipBlanks(blanks[1..], rest);
    }
  }

  lemma WordsTakeFirst(s: string, word: string, n: nat, m: nat)
    requires FirstWord(s, word, n, m)
    ensures Words(s) == [word] + Words(s[m..])
  {
    var tail := s[n..];
    assert s == s[..n] + tail;
    WordsSkipBlanks(s[..n], tail);
    assert tail == word + s[m..] && word != [];
    WordLengthSkips(word, s[m..]);
    assert tail[..|word|] == word && tail[|word|..] == s[m..];
    assert tail[0] == word[0];
  }

  /** Where the first word of `s` is, if it has one. */
  lemma {:induction false} FindsFirstWord(s: string) returns (n: nat, m: nat)
    requires !Blank(s)
    ensures m <= |s| && n <= m && FirstWord(s, s[n..m], n, m)
  {
    if IsSpace(s[0]) {
      assert !Blank(s[1..]);
      var n', m' := FindsFirstWord(s[1..]);
      n, m := n' + 1, m' + 1;
      assert s[..n] == [s[0]] + s[1..][..n'] && s[n..m] == s[1..][n'..m'];
    } else {
      n, m := 0, WordLength(s);
      WordEnds(s);
    }
  }

  lemma {:induction false} WordEnds(s: string)
    ensures NoSpace(s[..WordLength(s)])
    ensures WordLength(s) < |s| ==> IsSpace(s[WordLength(s)])
  {
    if s != [] && !IsSpace(s[0]) {
      WordEnds(s[1..]);
      assert s[..WordLength(s)] == [s[0]] + s[1..][..WordLength(s[1..])];
    }
  }

  lemma BlankHasNoWords(s: string)
    requires Blank(s)
    ensures Words(s) == []
  {
    WordsSkipBlanks(s, []);
    assert s + [] == s;
  }

  lemma WordIsNotBlank(s: string, word: string, n: nat, m: nat)
    requires FirstWord(s, word, n, m)
    ensures !Blank(s)
  {
    assert word[0] == s[n];
  }

  /** The words of a text are exactly these. */
  lemma {:induction false} WordsIff(s: string, words: seq<string>)
    ensures Words(s) == words <==> Spaced(s, words)
    decreases |s|
  {
    if Blank(s) {
      BlankHasNoWords(s);
      if words != [] && Spaced(s, words) {
        var n, m :| FirstWord(s, words[0], n, m) && Spaced(s[m..], words[1..]);
        WordIsNotBlank(s, words[0], n, m);
      }
    } else {
      var n, m := FindsFirstWord(s);
      WordsTakeFirst(s, s[n..m], n, m);
      if Words(s) == words {
        WordsIff(s[m..], words[1..]);
        assert FirstWord(s, words[0], n, m);
      }
      if words != [] && Spaced(s, words) {
        var n', m' :| FirstWord(s, words[0], n', m') && Spaced(s[m'..], words[1..]);
        WordsTakeFirst(s, words[0], n', m');
        WordsIff(s[m'..], words[1..]);
        assert words == [words[0]] + words[1..];
      }
    }
  }

  lemma {:induction false} IndexOfFinds(s: string, c: char)
    ensures IndexOf(s, c) < |s| ==> s[IndexOf(s, c)] == c
  {
    if s != [] && s[0] != c {
      IndexOfFinds(s[1..], c);
    }
  }

  lemma SplitIsNotEmpty(s: string, c: char)
    ensures SplitAt(s, c) != []
  {
  }

  lemma SplitAtOneIff(s: string, c: char, a: string)
    ensures SplitAt(s, c) == [a] <==> s == a && Without(a, c)
  {
    var i := IndexOf(s, c);
    BeforeIndexLacks(s, c);
    if i < |s| {
      IndexOfFinds(s, c);
      SplitIsNotEmpty(s[i + 1..], c);
    } else {
      assert s[..i] == s;
    }
  }

  lemma SplitAtFirst(s: string, c: char)
    requires |SplitAt(s, c)| > 1
    ensures var i := IndexOf(s, c);
      && i < |s| && Without(s[..i], c) && s == s[..i] + [c] + s[i + 1..]
      && SplitAt(s, c)[0] == s[..i] && SplitAt(s, c)[1..] == SplitAt(s[i + 1..], c)
  {
    BeforeIndexLacks(s, c);
    IndexOfFinds(s, c);
    CutOut(s, IndexOf(s, c));
  }

  lemma CutOut(s: string, i: nat)
    requires i < |s|
    ensures s == s[..i] + [s[i]] + s[i + 1..]
  {
  }

  lemma SplitAtTwoIff(s: string, c: char, a: string, b: string)
    ensures SplitAt(s, c) == [a, b] <==> s == a + [c] + b && Without(a, c) && Without(b, c)
  {
    if SplitAt(s, c) == [a, b] {
      SplitAtFirst(s, c);
      SplitAtOneIff(s[IndexOf(s, c) + 1..], c, b);
    }
    if s == a + [c] + b && Without(a, c) && Without(b, c) {
      SplitsFirst(a, c, b);
      SplitsOne(b, c);
    }
  }

  lemma SplitAtThreeIff(s: string, c: char, x: string, y: string, z: string)
    ensures SplitAt(s, c) == [x, y, z] <==>
      s == x + [c] + (y + [c] + z) && Without(x, c) && Without(y, c) && Without(z, c)
  {
    if SplitAt(s, c) == [x, y, z] {
      SplitAtFirst(s, c);
      assert [x, y, z][1..] == [y, z];
      SplitAtTwoIff(s[IndexOf(s, c) + 1..], c, y, z);
    }
    if s == x + [c] + (y + [c] + z) && Without(x, c) && Without(y, c) && Without(z, c) {
      SplitsFirst(x, c, y + [c] + z);
      SplitAtTwoIff(y + [c] + z, c, y, z);
    }
  }

  lemma StripIff(w: string, negative: bool, content: string)
    ensures StripMinus(w) == (negative, content) <==>
      w == SignText(negative) + content && (!negative && content != [] ==> content[0] != '-')
  {
    if StripMinus(w) == (negative, content) {
      assert w == SignText(negative) + content;
    }
    if w == SignText(negative) + content {
      assert w == if negative then "-" + content else content;
      assert negative ==> w[1..] == content;
    }
  }

  /** The text after the dot, or "0". */
  function FractionDigits(fraction: Option<string>): string {
    if fraction.Some? then fraction.value else "0"
  }

  /** Splitting at the first dot, if there is one. */
  lemma FractionOf(content: string) returns (fraction: Option<string>)
    ensures var (clock, digits) := SplitFraction(content);
      content == clock + FractionText(fraction) && Without(clock, '.') && digits == FractionDigits(fraction)
  {
    var i := IndexOf(content, '.');
    BeforeIndexLacks(content, '.');
    IndexOfFinds(content, '.');
    if i == |content| {
      fraction := None;
      assert content[..i] == content && content + [] == content;
    } else {
      fraction := Some(content[i + 1..]);
    }
  }

  /** `text` reads as an i32 which, with the sign of its group, is `v`. */
  predicate Reads(text: string, negative: bool, v: I32) {
    ParseI32(text).Some? && Signed(negative, ParseI32(text).value) == v
  }

  lemma ComponentIff(text: string, negative: bool, v: I32)
    ensures Component(text, if negative then -1 else 1) == Got(v) <==> Reads(text, negative, v)
  {
  }

  /** The year-month word: an optional minus sign, two numbers with a minus sign between them. */
  predicate IsYearMonth(w: string, negative: bool, y: string, m: string, v: Interval) {
    && w == SignText(negative) + (y + ['-'] + m) && Without(y, '-') && Without(m, '-')
    && Reads(y, negative, v.years) && Reads(m, negative, v.months)
  }

  /** The time word: an optional minus sign, three numbers with colons between them, and an optional
      fraction, of which nine characters count. */
  predicate IsTime(w: string, negative: bool, h: string, m: string, s: string, fraction: Option<string>,
                   v: Interval)
  {
    var clock := h + [':'] + (m + [':'] + s);
    && w == SignText(negative) + (clock + FractionText(fraction)) && Without(clock, '.')
    && Without(h, ':') && Without(m, ':') && Without(s, ':') && (!negative && h != [] ==> h[0] != '-')
    && Reads(h, negative, v.hours) && Reads(m, negative, v.minutes) && Reads(s, negative, v.seconds)
    && Reads(NineDigits(FractionDigits(fraction)), negative, v.nanos)
  }

  /** The year-month word as the code takes it apart. */
  predicate DecodesYearMonth(w: string, v: Interval) {
    var (negative, content) := StripMinus(w);
    var parts := SplitAt(content, '-');
    && |parts| == 2 && Component(parts[0], if negative then -1 else 1) == Got(v.years)
    && Component(parts[1], if negative then -1 else 1) == Got(v.months)
  }

  predicate DecodesTime(w: string, v: Interval) {
    var (negative, content) := StripMinus(w);
    var (clock, digits) := SplitFraction(content);
    var parts, sign := SplitAt(clock, ':'), if negative then -1 else 1;
    && |parts| == 3 && Component(parts[0], sign) == Got(v.hours) && Component(parts[1], sign) == Got(v.minutes)
    && Component(parts[2], sign) == Got(v.seconds) && Component(NineDigits(digits), sign) == Got(v.nanos)
  }

  lemma YearMonthIff(w: string, v: Interval)
    ensures DecodesYearMonth(w, v) <==> exists negative, y, m :: IsYearMonth(w, negative, y, m, v)
  {
    var (negative, content) := StripMinus(w);
    var parts := SplitAt(content, '-');
    if DecodesYearMonth(w, v) {
      StripIff(w, negative, content);
      SplitAtTwoIff(content, '-', parts[0], parts[1]);
      ComponentIff(parts[0], negative, v.years);
      ComponentIff(parts[1], negative, v.months);
      assert IsYearMonth(w, negative, parts[0], parts[1], v);
    }
    forall n, y, m | IsYearMonth(w, n, y, m, v)
      ensures DecodesYearMonth(w, v)
    {
      assert y != [] && (y + ['-'] + m)[0] == y[0];
      StripIff(w, n, y + ['-'] + m);
      SplitAtTwoIff(y + ['-'] + m, '-', y, m);
      ComponentIff(y, n, v.years);
      ComponentIff(m, n, v.months);
    }
  }

  lemma TimeJoins(negative: bool, clock: string, fraction: Option<string>)
    requires clock != [] && Without(clock, '.') && (!negative ==> clock[0] != '-')
    ensures StripMinus(SignText(negative) + (clock + FractionText(fraction))) ==
      (negative, clock + FractionText(fraction))
    ensures SplitFraction(clock + FractionText(fraction)) == (clock, FractionDigits(fraction))
  {
    var content := clock + FractionText(fraction);
    assert content[0] == clock[0];
    StripIff(SignText(negative) + content, negative, content);
    FractionSplitsOff(clock, fraction);
  }

  lemma TimeWordDecodes(w: string, n: bool, h: string, m: string, s: string, fraction: Option<string>, v: Interval)
    requires IsTime(w, n, h, m, s, fraction, v)
    ensures DecodesTime(w, v)
  {
    var clock := h + [':'] + (m + [':'] + s);
    assert h != [] && clock[0] == h[0];
    TimeJoins(n, clock, fraction);
    SplitAtThreeIff(clock, ':', h, m, s);
    ComponentIff(h, n, v.hours);
    ComponentIff(m, n, v.minutes);
    ComponentIff(s, n, v.seconds);
    ComponentIff(NineDigits(FractionDigits(fraction)), n, v.nanos);
  }

  /** The sign, the clock and the fraction of a word. */
  lemma TimeSplits(w: string) returns (negative: bool, clock: string, fraction: Option<string>)
    ensures var (n, content) := StripMinus(w);
      n == negative && SplitFraction(content) == (clock, FractionDigits(fraction))
    ensures w == SignText(negative) + (clock + FractionText(fraction)) && Without(clock, '.')
    ensures !negative && clock != [] ==> clock[0] != '-'
  {
    var (n, content) := StripMinus(w);
    StripIff(w, n, content);
    fraction := FractionOf(content);
    negative, clock := n, SplitFraction(content).0;
    assert clock != [] ==> content[0] == clock[0];
  }

  lemma TimeWordDenotes(w: string, v: Interval)
    returns (negative: bool, h: string, m: string, s: string, fraction: Option<string>)
    requires DecodesTime(w, v)
    ensures IsTime(w, negative, h, m, s, fraction, v)
  {
    var clock;
    negative, clock, fraction := TimeSplits(w);
    var parts := SplitAt(clock, ':');
    h, m, s := parts[0], parts[1], parts[2];
    SplitAtThreeIff(clock, ':', h, m, s);
    assert h != [] ==> clock[0] == h[0];
    ComponentIff(h, negative, v.hours);
    ComponentIff(m, negative, v.minutes);
    ComponentIff(s, negative, v.seconds);
    ComponentIff(NineDigits(FractionDigits(fraction)), negative, v.nanos);
  }

  lemma TimeIff(w: string, v: Interval)
    ensures DecodesTime(w, v) <==>
      exists negative, h, m, s, fraction :: IsTime(w, negative, h, m, s, fraction, v)
  {
    if DecodesTime(w, v) {
      var negative, h, m, s, fraction := TimeWordDenotes(w, v);
    }
    if exists negative, h, m, s, fraction :: IsTime(w, negative, h, m, s, fraction, v) {
      var negative, h, m, s, fraction :| IsTime(w, negative, h, m, s, fraction, v);
      TimeWordDecodes(w, negative, h, m, s, fraction, v);
    }
  }

  /** The text is a year-month word, a day number and a time word, with blanks between them, and stands
      for `v`. */
  ghost predicate Denotes(s: string, v: Interval) {
    exists ym, day, time :: Spaced(s, [ym, day, time]) && WordsDenote(ym, day, time, v)
  }

  ghost predicate WordsDenote(ym: string, day: string, time: string, v: Interval) {
    && (exists negative, y, m :: IsYearMonth(ym, negative, y, m, v))
    && Reads(day, false, v.days)
    && (exists negative, h, m, s, fraction :: IsTime(time, negative, h, m, s, fraction, v))
  }

  lemma FromWordsIff(ym: string, day: string, time: string, v: Interval)
    ensures FromWords(ym, day, time) == Got(v) <==> WordsDenote(ym, day, time, v)
  {
    YearMonthIff(ym, v);
    TimeIff(time, v);
    ComponentIff(day, false, v.days);
  }

  lemma ThreeWordsDecode(s: string, ym: string, day: string, time: string, v: Interval)
    requires Words(s) == [ym, day, time]
    ensures FromText(s) == Got(v) <==> WordsDenote(ym, day, time, v)
  {
    FromWordsIff(ym, day, time, v);
  }

  /** Text decodes to `v` if and only if it denotes `v`. */
  lemma TextDecodesIff(s: string, v: Interval)
    ensures FromText(s) == Got(v) <==> Denotes(s, v)
  {
    if |Words(s)| == 3 {
      var ym, day, time := Words(s)[0], Words(s)[1], Words(s)[2];
      assert Words(s) == [ym, day, time];
      WordsIff(s, [ym, day, time]);
      ThreeWordsDecode(s, ym, day, time, v);
    }
    if Denotes(s, v) {
      var ym, day, time :| Spaced(s, [ym, day, time]) && WordsDenote(ym, day, time, v);
      WordsIff(s, [ym, day, time]);
      ThreeWordsDecode(s, ym, day, time, v);
    }
  }

  /** `from_value` succeeds exactly on text that denotes an interval and on Arrow intervals. Any other text
      is a conversion error, unless a product overflows; a null is the error for nulls; everything else is a
      type mismatch. */
  lemma DecodesIff(v: SqlValue)
    ensures FromValue(v).Got? <==>
      (v.Text? && exists i :: Denotes(v.text, i)) || (v.Arrow? && v.cell.MonthDayNano?)
    ensures v.Text? && !FromValue(v).Got? && FromValue(v) != Overflow ==> FromValue(v) == Failed(Convert)
    ensures FromValue(v) == Failed(NotNull) <==> v.Null? || v == Arrow(NullCell)
    ensures FromValue(v) == Failed(TypeMismatch) <==> v.OtherValue? || v == Arrow(OtherCell)
  {
    match v
    case Text(s) =>
      if FromText(s).Got? {
        TextDecodesIff(s, FromText(s).value);
      }
      forall i | Denotes(s, i)
        ensures FromText(s).Got?
      {
        TextDecodesIff(s, i);
      }
    case Arrow(MonthDayNano(m, d, n)) => ArrowIsExact(m, d, n);
    case _ =>
  }
}
