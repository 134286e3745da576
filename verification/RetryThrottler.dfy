/** Retry throttlers (src/gax/src/retry_throttler.rs) and the results of policy calls that steer
    them. Counters and factors that the code keeps as f64 are reals here. */
module RetryThrottler {
  import opened Resources

  /** gax errors, as far as the retry loop and its callers look at them. */
  datatype Error =
    | Authentication(source: CredentialsError)
    | Exhausted(cause: Error)
    | Other(code: nat)

  datatype RetryResult = Permanent(error: Error) | Stop(error: Error) | Continue(error: Error)

  /** The state of a shared `dyn RetryThrottler`. */
  datatype Throttler =
    | Adaptive(acceptCount: real, requestCount: real, factor: real)
    | Breaker(maxTokens: nat, minTokens: nat, curTokens: nat, errorCost: nat)

  datatype ThrottlerError = ScalingOutOfRange(factor: real) | TooFewMinTokens(min: nat, initial: nat)

  function ClampAdaptive(factor: real): Throttler {
    Adaptive(0.0, 0.0, if factor < 0.0 then 0.0 else factor)
  }

  /** `new` accepts what `clamp` leaves as it is, and yields the same. */
  function NewAdaptive(factor: real): (r: Result<Throttler, ThrottlerError>)
    ensures r.Ok? <==> factor >= 0.0
    ensures r.Ok? <==> ClampAdaptive(factor).factor == factor
    ensures r.Ok? ==> r.value == ClampAdaptive(factor)
  {
    if factor < 0.0 then Err(ScalingOutOfRange(factor)) else Ok(ClampAdaptive(factor))
  }

  function ClampBreaker(tokens: nat, minTokens: nat, errorCost: nat): Throttler {
    Breaker(tokens, if minTokens < tokens then minTokens else tokens, tokens, errorCost)
  }

  function NewBreaker(tokens: nat, minTokens: nat, errorCost: nat): (r: Result<Throttler, ThrottlerError>)
    ensures r.Ok? <==> minTokens <= tokens
    ensures r.Ok? <==> ClampBreaker(tokens, minTokens, errorCost).minTokens == minTokens
    ensures r.Ok? ==> r.value == ClampBreaker(tokens, minTokens, errorCost)
  {
    if minTokens > tokens then Err(TooFewMinTokens(minTokens, tokens))
    else Ok(Breaker(tokens, minTokens, tokens, errorCost))
  }

  /** The adaptive throttler's rejection probability. */
  function RejectProbability(t: Throttler): real
    requires t.Adaptive? && t.requestCount >= 0.0
  {
    var p := (t.requestCount - t.factor * t.acceptCount) / (t.requestCount + 1.0);
    if p < 0.0 then 0.0 else p
  }

  /** What every constructor and transition keeps. */
  predicate Valid(t: Throttler) {
    match t
    case Adaptive(accepts, requests, factor) => 0.0 <= accepts <= requests && factor >= 0.0
    case Breaker(max, min, cur, _) => min <= max && cur <= max
  }

  /** `throttle_retry_attempt`, for a random draw between 0 and 1. */
  predicate Throttles(t: Throttler, draw: real)
    requires Valid(t)
  {
    match t
    case Adaptive(_, _, _) => draw <= RejectProbability(t)
    case Breaker(_, min, cur, _) => cur <= min
  }

  function OnSuccess(t: Throttler): Throttler {
    match t
    case Adaptive(a, r, f) => Adaptive(a + 1.0, r + 1.0, f)
    case Breaker(max, min, cur, cost) => Breaker(max, min, if cur + 1 < max then cur + 1 else max, cost)
  }

  function OnRetryFailure(t: Throttler, flow: RetryResult): Throttler {
    match t
    case Adaptive(a, r, f) => Adaptive(if flow.Permanent? then a + 1.0 else a, r + 1.0, f)
    case Breaker(max, min, cur, cost) =>
      if flow.Permanent? then OnSuccess(t)
      else Breaker(max, min, if cur < cost then 0 else cur - cost, cost)
  }

  lemma ProperFraction(a: real, d: real)
    requires a < d && d > 0.0
    ensures a / d < 1.0
  {
    var q := a / d;
    assert q * d == a;
    if q >= 1.0 {
      ProductAtLeast(q, d);
    }
  }

  lemma ProductAtLeast(q: real, d: real)
    requires q >= 1.0 && d > 0.0
    ensures q * d >= d
  {
    assert (q - 1.0) * d >= 0.0;
  }

  /** The rejection probability is the share, of the requests and one more, of those that the weighted
      accepted ones do not make up for. It is never one: a draw above it always exists. */
  lemma RejectProbabilityInRange(t: Throttler)
    requires t.Adaptive? && Valid(t)
    ensures var excess := t.requestCount - t.factor * t.acceptCount;
      RejectProbability(t) * (t.requestCount + 1.0) == if excess < 0.0 then 0.0 else excess
    ensures 0.0 <= RejectProbability(t) < 1.0
  {
    assert t.factor * t.acceptCount >= 0.0;
    ProperFraction(t.requestCount - t.factor * t.acceptCount, t.requestCount + 1.0);
    QuotientAtLeast(0.0, t.requestCount - t.factor * t.acceptCount, t.requestCount + 1.0);
  }

  lemma QuotientAtLeast(d: real, a: real, n: real)
    requires n > 0.0
    ensures d <= a / n <==> d * n <= a
  {
    var q := a / n;
    assert q * n == a;
    if d <= q {
      assert (q - d) * n >= 0.0;
    } else {
      assert (d - q) * n > 0.0;
    }
  }

  /** An adaptive throttler rejects a draw of zero; it rejects a positive draw exactly if the draw's share
      of the requests, and one more, is covered by the requests that the accepted ones do not make up
      for. A circuit breaker rejects exactly while its tokens are at or below the minimum. */
  predicate Rejects(t: Throttler, draw: real) {
    match t
    case Adaptive(accepts, requests, factor) =>
      draw <= 0.0 || draw * (requests + 1.0) <= requests - factor * accepts
    case Breaker(_, min, cur, _) => cur <= min
  }

  lemma ThrottlesIffRejects(t: Throttler, draw: real)
    requires Valid(t)
    ensures Throttles(t, draw) <==> Rejects(t, draw)
  {
    if t.Adaptive? {
      var excess := t.requestCount - t.factor * t.acceptCount;
      QuotientAtLeast(draw, excess, t.requestCount + 1.0);
      QuotientAtLeast(0.0, excess, t.requestCount + 1.0);
    }
  }

  /** The mutex-protected throttler that retry loops share. */
  class SharedThrottler {
    var state: Throttler

    constructor (initial: Throttler)
      requires Valid(initial)
      ensures state == initial
    {
      state := initial;
    }

    method ThrottleRetryAttempt(draw: real) returns (throttle: bool)
      requires Valid(state)
      ensures throttle == Throttles(state, draw) == Rejects(state, draw)
    {
      ThrottlesIffRejects(state, draw);
      match state
      case Adaptive(accepts, requests, factor) =>
        var p := (requests - factor * accepts) / (requests + 1.0);
        if p < 0.0 {
          p := 0.0;
        }
        throttle := draw <= p;
      case Breaker(_, min, cur, _) => throttle := cur <= min;
    }

    method RecordSuccess()
      requires Valid(state)
      modifies this
      ensures Valid(state) && state == OnSuccess(old(state))
    {
      match state
      case Adaptive(accepts, requests, _) =>
        state := state.(requestCount := requests + 1.0, acceptCount := accepts + 1.0);
      case Breaker(max, _, cur, _) =>
        state := state.(curTokens := if max < cur + 1 then max else cur + 1);
    }

    method RecordRetryFailure(flow: RetryResult)
      requires Valid(state)
      modifies this
      ensures Valid(state) && state == OnRetryFailure(old(state), flow)
    {
      match state
      case Adaptive(accepts, requests, _) =>
        state := state.(requestCount := requests + 1.0);
        if flow.Permanent? {
          state := state.(acceptCount := accepts + 1.0);
        }
      case Breaker(_, _, cur, cost) =>
        if flow.Permanent? {
          RecordSuccess();
        } else {
          state := state.(curTokens := if cost <= cur then cur - cost else 0);
        }
    }
  }
}
