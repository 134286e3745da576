/** Truncated exponential backoff (src/gax/src/exponential_backoff.rs), over the reals. */
module ExponentialBackoff {
  import opened Resources
  import opened RetryThrottler
  import opened RetryLoop

  const MAX_EXPONENT: nat := 0x7fff_ffff

  datatype Backoff = Backoff(initial: Duration, maximum: Duration, scaling: real)

  datatype BuildError =
    | InvalidScalingFactor(scaling: real)
    | InvalidInitialDelay(delay: Duration)
    | EmptyRange(maximum: Duration, initial: Duration)

  function Build(b: Backoff): Result<Backoff, BuildError> {
    if b.scaling < 1.0 then Err(InvalidScalingFactor(b.scaling))
    else if b.initial == 0.0 then Err(InvalidInitialDelay(b.initial))
    else if b.maximum < b.initial then Err(EmptyRange(b.maximum, b.initial))
    else Ok(b)
  }

  function ClampTo(x: real, low: real, high: real): real {
    if x < low then low else if x > high then high else x
  }

  /** `clamp`, in seconds. */
  function Clamp(b: Backoff): Backoff {
    var maximum := ClampTo(b.maximum, 1.0, 86400.0);
    Backoff(ClampTo(b.initial, 0.001, maximum), maximum, ClampTo(b.scaling, 1.0, 32.0))
  }

  predicate Valid(b: Backoff) {
    b.scaling >= 1.0 && 0.0 < b.initial <= b.maximum
  }

  function Distance(x: real, y: real): real {
    if x < y then y - x else x - y
  }

  /** `x` is in the range, and of all values in it the nearest to `wanted`. */
  ghost predicate IsNearest(x: real, wanted: real, low: real, high: real) {
    low <= x <= high && forall y :: low <= y <= high ==> Distance(x, wanted) <= Distance(y, wanted)
  }

  lemma ClampIsNearest(x: real, low: real, high: real)
    requires low <= high
    ensures IsNearest(ClampTo(x, low, high), x, low, high)
  {
  }

  /** `build` accepts exactly the usable settings and says what is wrong with the others; `clamp` yields the
      usable ones nearest to the wanted: a maximum of one second to one day, an initial delay from one
      millisecond to that maximum, a scaling factor of 1 to 32. */
  lemma BuildersYieldValid(b: Backoff)
    ensures Build(b).Ok? <==> b.scaling >= 1.0 && 0.0 < b.initial <= b.maximum
    ensures Build(b).Ok? ==> Build(b).value == b && Valid(b)
    ensures Build(b) == Err(InvalidScalingFactor(b.scaling)) <==> b.scaling < 1.0
    ensures Build(b) == Err(InvalidInitialDelay(b.initial)) <==> b.scaling >= 1.0 && b.initial == 0.0
    ensures var c := Clamp(b);
      && Valid(c) && IsNearest(c.maximum, b.maximum, 1.0, 86400.0)
      && IsNearest(c.initial, b.initial, 0.001, c.maximum) && IsNearest(c.scaling, b.scaling, 1.0, 32.0)
  {
    ClampIsNearest(b.maximum, 1.0, 86400.0);
    ClampIsNearest(b.initial, 0.001, Clamp(b).maximum);
    ClampIsNearest(b.scaling, 1.0, 32.0);
  }

  function Pow(x: real, n: nat): real {
    if n == 0 then 1.0 else x * Pow(x, n - 1)
  }

  /** `powi` */
  function Powi(x: real, n: int): real
    requires x >= 1.0
  {
    if n >= 0 then Pow(x, n) else PowGrows(x, 0, -n); 1.0 / Pow(x, -n)
  }

  /** The exponent for an attempt count: one less, so -1 for a count of zero. */
  function Exponent(count: nat): int {
    (if count < MAX_EXPONENT then count else MAX_EXPONENT) - 1
  }

  /** `delay`, the delay before jitter. */
  function Delay(b: Backoff, count: nat): real
    requires Valid(b)
  {
    var scaling := Powi(b.scaling, Exponent(count));
    if scaling >= b.maximum / b.initial then b.maximum else b.initial * scaling
  }

  lemma {:induction false} PowGrows(x: real, m: nat, n: nat)
    requires x >= 1.0 && m <= n
    ensures 1.0 <= Pow(x, m) <= Pow(x, n)
    decreases n
  {
    if m < n {
      PowGrows(x, m, n - 1);
    } else if n > 0 {
      PowGrows(x, n - 1, n - 1);
    }
  }

  /** min(max, initial * scaling) */
  function Truncated(initial: real, scaling: real, max: real): real {
    if initial * scaling < max then initial * scaling else max
  }

  lemma QuotientBound(s: real, max: real, initial: real)
    requires initial > 0.0
    ensures s >= max / initial <==> initial * s >= max
  {
    var q := max / initial;
    assert q * initial == max;
    if s >= q {
      assert (s - q) * initial >= 0.0;
    } else {
      assert (q - s) * initial > 0.0;
    }
  }

  /** From a count of one on, the delay is min(maximum, initial * scaling^(count - 1)) up to the
      exponent cap of i32::MAX - 1, and lies in [initial, maximum]. */
  lemma DelayIsTruncated(b: Backoff, count: nat)
    requires Valid(b) && count >= 1
    ensures count <= 0x7fff_ffff ==>
      Delay(b, count) == Truncated(b.initial, Pow(b.scaling, count - 1), b.maximum)
    ensures count >= 0x7fff_ffff ==>
      Delay(b, count) == Truncated(b.initial, Pow(b.scaling, 0x7fff_fffe), b.maximum)
    ensures b.initial <= Delay(b, count) <= b.maximum
  {
    var s := Pow(b.scaling, Exponent(count));
    PowGrows(b.scaling, 0, Exponent(count));
    QuotientBound(s, b.maximum, b.initial);
    assert b.initial * (s - 1.0) >= 0.0;
  }

  lemma TruncatedGrows(initial: real, low: real, high: real, max: real)
    requires initial > 0.0 && low <= high
    ensures Truncated(initial, low, max) <= Truncated(initial, high, max)
  {
    assert initial * (high - low) >= 0.0;
  }

  lemma DelayGrows(b: Backoff, c: nat, d: nat)
    requires Valid(b) && 1 <= c <= d
    ensures Delay(b, c) <= Delay(b, d)
  {
    var low, high := Pow(b.scaling, Exponent(c)), Pow(b.scaling, Exponent(d));
    assert low <= high by {
      PowGrows(b.scaling, Exponent(c), Exponent(d));
    }
    TruncatedGrows(b.initial, low, high, b.maximum);
    assert Delay(b, c) == Truncated(b.initial, low, b.maximum) by {
      DelayIsTruncated(b, c);
    }
    assert Delay(b, d) == Truncated(b.initial, high, b.maximum) by {
      DelayIsTruncated(b, d);
    }
  }

  lemma ReciprocalShrinks(scaling: real, initial: real)
    requires scaling >= 1.0 && initial > 0.0
    ensures scaling > 1.0 ==> initial * (1.0 / scaling) < initial
    ensures scaling == 1.0 ==> initial * (1.0 / scaling) == initial
  {
    var s := 1.0 / scaling;
    assert s * scaling == 1.0;
    if scaling > 1.0 {
      assert 0.0 < s < 1.0;
      assert initial * (1.0 - s) > 0.0;
      assert initial * (1.0 - s) == initial - initial * s;
    }
  }

  lemma TruncatedReciprocal(scaling: real, initial: real, max: real)
    requires scaling >= 1.0 && 0.0 < initial <= max
    ensures Truncated(initial, 1.0 / scaling, max) < initial <==> scaling > 1.0
    ensures Truncated(initial, 1.0 / scaling, max) <= max
  {
    ReciprocalShrinks(scaling, initial);
  }

  lemma ReciprocalDivides(x: real, y: real)
    requires y > 0.0
    ensures x * (1.0 / y) == x / y
  {
    assert x / y * y == x && 1.0 / y * y == 1.0;
    assert (x * (1.0 / y) - x / y) * y == 0.0;
  }

  lemma DelayAtZeroIs(b: Backoff)
    requires Valid(b)
    ensures Delay(b, 0) == Truncated(b.initial, 1.0 / b.scaling, b.maximum)
  {
    assert Pow(b.scaling, 1) == b.scaling * Pow(b.scaling, 0) == b.scaling;
    QuotientBound(1.0 / b.scaling, b.maximum, b.initial);
  }

  /** With a count of zero the exponent is negative: the delay is the initial delay divided by the scaling
      factor, so below it exactly when that factor exceeds one. */
  lemma DelayAtZero(b: Backoff)
    requires Valid(b)
    ensures Delay(b, 0) == b.initial / b.scaling
    ensures Delay(b, 0) < b.initial <==> b.scaling > 1.0
    ensures Delay(b, 0) <= b.maximum
  {
    DelayAtZeroIs(b);
    TruncatedReciprocal(b.scaling, b.initial, b.maximum);
    ReciprocalShrinks(b.scaling, b.initial);
    ReciprocalDivides(b.initial, b.scaling);
  }

  /** Every delay of the run is a jittered delay of `b`: anything from zero up to `Delay`. */
  predicate Jittered(b: Backoff, es: seq<Event>)
    requires Valid(b)
  {
    forall i :: 0 <= i < |es| && (es[i].ThrottledOn? || es[i].Failed?) ==>
      es[i].delay <= Delay(b, es[i].count)
  }

  predicate WaitsAtMost(p: Phase, max: real) {
    match p
    case Ready(a) => a.Retry? ==> a.delay <= max
    case Sleeping(_, delay, _, _, _) => delay <= max
    case _ => true
  }

  lemma {:induction false} SleepsAtMostMaximum(b: Backoff, start: real, es: seq<Event>)
    requires Valid(b) && Legal(start, es) && Jittered(b, es)
    ensures LongestSleep(start, es) <= b.maximum
    ensures WaitsAtMost(Exec(start, es).phase, b.maximum)
  {
    if es != [] {
      var n := |es| - 1;
      assert forall i :: 0 <= i < n ==> es[..n][i] == es[i];
      SleepsAtMostMaximum(b, start, es[..n]);
      CountsCompleted(start, es[..n]);
      if es[n].ThrottledOn? || es[n].Failed? {
        DelayIsTruncated(b, es[n].count);
      }
    }
  }

  /** In every run, throttled rounds included, the delays before jitter never decrease and lie in
      [initial, maximum]. */
  lemma DelaysGrowOverRun(b: Backoff, start: real, es: seq<Event>, i: nat, j: nat)
    requires Valid(b) && Legal(start, es) && i <= j < |Consulted(es)|
    ensures b.initial <= Delay(b, Consulted(es)[i]) <= Delay(b, Consulted(es)[j]) <= b.maximum
  {
    BackoffCountsGrow(start, es);
    DelayIsTruncated(b, Consulted(es)[i]);
    DelayIsTruncated(b, Consulted(es)[j]);
    DelayGrows(b, Consulted(es)[i], Consulted(es)[j]);
  }

  /** With exponential backoff a timely loop returns within its limit plus the smaller of the limit
      and the maximum delay. */
  lemma ReturnsWithinLimitAndMaximum(b: Backoff, start: real, es: seq<Event>, limit: Duration)
    requires Valid(b) && Legal(start, es) && AllTimely(start, es, limit) && Jittered(b, es)
    requires Exec(start, es).phase.Done?
    ensures Exec(start, es).clock <= start + limit + if limit < b.maximum then limit else b.maximum
  {
    ReturnsNearDeadline(start, es, limit);
    SleepsAtMostMaximum(b, start, es);
  }
}
