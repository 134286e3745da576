/** The limiting retry policies (src/gax/src/retry_policy.rs) and what a loop run under them meets. */
module RetryPolicies {
  import opened Resources
  import opened RetryThrottler
  import opened RetryLoop

  /** A stack of decorators around a policy that only classifies errors. */
  datatype Policy =
    | Base
    | LimitedElapsedTime(inner: Policy, maximumDuration: Duration)
    | LimitedAttemptCount(inner: Policy, maximumAttempts: nat)

  /** `on_error`, `elapsed` after the loop start; `base` is what the innermost policy says. */
  function OnError(p: Policy, count: nat, elapsed: real, base: RetryResult): RetryResult {
    match p
    case Base => base
    case LimitedElapsedTime(inner, max) =>
      var r := OnError(inner, count, elapsed, base);
      if r.Continue? && elapsed >= max then Stop(r.error) else r
    case LimitedAttemptCount(inner, max) =>
      var r := OnError(inner, count, elapsed, base);
      if r.Continue? && count >= max then Stop(r.error) else r
  }

  /** `on_throttle`: whether the policy stops the loop, and with which error. */
  function OnThrottle(p: Policy, count: nat, elapsed: real, error: Error): (bool, Error) {
    match p
    case Base => (false, error)
    case LimitedElapsedTime(inner, max) =>
      var (stop, e) := OnThrottle(inner, count, elapsed, error);
      if !stop && elapsed >= max then (true, Exhausted(e)) else (stop, e)
    case LimitedAttemptCount(inner, max) =>
      var (stop, e) := OnThrottle(inner, count, elapsed, error);
      (stop || count >= max, e)
  }

  function RemainingOf(p: Policy, elapsed: real): Option<Duration> {
    match p
    case Base => None
    case LimitedElapsedTime(inner, max) =>
      var left := Left(max, elapsed);
      (match RemainingOf(inner, elapsed)
       case None => Some(left)
       case Some(d) => Some(if d < left then d else left))
    case LimitedAttemptCount(inner, _) => RemainingOf(inner, elapsed)
  }

  /** The policy's answers in an event are those of `p`. */
  ghost predicate Governs(p: Policy, l: Loop, e: Event)
    requires RetryLoop.Enabled(l, e)
  {
    match e
    case RemainingTime(at, _, remaining) => remaining == RemainingOf(p, at - l.start)
    case ThrottledOut(_, count, given, returned) =>
      OnThrottle(p, count, l.clock - l.start, given) == (true, returned)
    case ThrottledOn(_, count, given, returned, _) =>
      OnThrottle(p, count, l.clock - l.start, given) == (false, returned)
    case Failed(at, _, count, given, flow, _) =>
      exists base: RetryResult ::
        base.error == given && flow == OnError(p, count, at - l.start, base)
    case _ => true
  }

  ghost predicate AllGoverned(p: Policy, start: real, es: seq<Event>)
    requires Legal(start, es)
  {
    es == [] ||
    (var n := |es| - 1; AllGoverned(p, start, es[..n]) && Governs(p, Exec(start, es[..n]), es[n]))
  }

  /** Some attempt limit of the stack is at most `limit`. */
  predicate LimitsAttempts(p: Policy, limit: nat) {
    match p
    case Base => false
    case LimitedElapsedTime(inner, _) => LimitsAttempts(inner, limit)
    case LimitedAttemptCount(inner, max) => max <= limit || LimitsAttempts(inner, limit)
  }

  /** Some time limit of the stack is at most `limit`. */
  predicate LimitsTime(p: Policy, limit: Duration) {
    match p
    case Base => false
    case LimitedElapsedTime(inner, max) => max <= limit || LimitsTime(inner, limit)
    case LimitedAttemptCount(inner, _) => LimitsTime(inner, limit)
  }

  /** However the decorators are stacked, they pass the base error on, stop at any attempt limit
      and report no more than any time limit leaves. */
  lemma {:induction false} DecoratorsCompose(p: Policy, count: nat, elapsed: real, base: RetryResult,
                                             attempts: nat, time: Duration)
    ensures OnError(p, count, elapsed, base).error == base.error
    ensures LimitsAttempts(p, attempts) && count >= attempts ==> !OnError(p, count, elapsed, base).Continue?
    ensures LimitsTime(p, time) ==>
      RemainingOf(p, elapsed).Some? && RemainingOf(p, elapsed).value <= Left(time, elapsed)
  {
    if !p.Base? {
      DecoratorsCompose(p.inner, count, elapsed, base, attempts, time);
    }
  }

  /** The limits of the decorators in a stack. */
  predicate HasAttemptLimit(p: Policy, limit: nat) {
    !p.Base? && ((p.LimitedAttemptCount? && p.maximumAttempts == limit) || HasAttemptLimit(p.inner, limit))
  }

  predicate HasTimeLimit(p: Policy, limit: Duration) {
    !p.Base? && ((p.LimitedElapsedTime? && p.maximumDuration == limit) || HasTimeLimit(p.inner, limit))
  }

  /** No limit of the stack has been reached. */
  ghost predicate WithinLimits(p: Policy, count: nat, elapsed: real) {
    && (forall limit :: HasAttemptLimit(p, limit) ==> count < limit)
    && (forall limit :: HasTimeLimit(p, limit) ==> elapsed < limit)
  }

  lemma LimitsOfStack(p: Policy)
    requires !p.Base?
    ensures forall limit :: HasAttemptLimit(p, limit) <==>
      HasAttemptLimit(p.inner, limit) || (p.LimitedAttemptCount? && p.maximumAttempts == limit)
    ensures forall limit :: HasTimeLimit(p, limit) <==>
      HasTimeLimit(p.inner, limit) || (p.LimitedElapsedTime? && p.maximumDuration == limit)
    ensures p.LimitedAttemptCount? ==> HasAttemptLimit(p, p.maximumAttempts)
    ensures p.LimitedElapsedTime? ==> HasTimeLimit(p, p.maximumDuration)
  {
  }

  lemma WithinInnerLimits(p: Policy, count: nat, elapsed: real)
    requires !p.Base?
    ensures WithinLimits(p, count, elapsed) <==>
      && WithinLimits(p.inner, count, elapsed)
      && (p.LimitedAttemptCount? ==> count < p.maximumAttempts)
      && (p.LimitedElapsedTime? ==> elapsed < p.maximumDuration)
  {
    LimitsOfStack(p);
  }

  /** However the decorators are stacked, the policy continues exactly if the innermost policy does and no
      limit has been reached; it stops, and never calls an error permanent, if only a limit is in the way. */
  lemma {:induction false} ContinuesIffWithinLimits(p: Policy, count: nat, elapsed: real, base: RetryResult)
    ensures OnError(p, count, elapsed, base) ==
      if base.Continue? && !WithinLimits(p, count, elapsed) then Stop(base.error) else base
  {
    if !p.Base? {
      ContinuesIffWithinLimits(p.inner, count, elapsed, base);
      WithinInnerLimits(p, count, elapsed);
    }
  }

  /** `left` is what the tightest time limit of the stack leaves, or unlimited without one. */
  ghost predicate IsTightest(p: Policy, elapsed: real, left: Option<Duration>) {
    && (forall limit :: HasTimeLimit(p, limit) ==> left.Some? && left.value <= Left(limit, elapsed))
    && (left.Some? ==> exists limit :: HasTimeLimit(p, limit) && left.value == Left(limit, elapsed))
  }

  /** The time that remains is what the tightest time limit leaves, and unlimited without one. */
  lemma {:induction false} RemainingIsTightest(p: Policy, elapsed: real)
    ensures IsTightest(p, elapsed, RemainingOf(p, elapsed))
  {
    if !p.Base? {
      RemainingIsTightest(p.inner, elapsed);
      LimitsOfStack(p);
      var inner := RemainingOf(p.inner, elapsed);
      if inner.Some? {
        var limit :| HasTimeLimit(p.inner, limit) && inner.value == Left(limit, elapsed);
        assert HasTimeLimit(p, limit);
      }
      if p.LimitedElapsedTime? {
        assert HasTimeLimit(p, p.maximumDuration);
      }
    }
  }

  /** On a throttled round a stack stops exactly if some limit has been reached. It passes the error on,
      except that a time limit that stops the loop wraps it as exhausted; so without a time limit that was
      reached the error stays, and without an attempt limit that was reached it is wrapped. */
  lemma {:induction false} ThrottleKeepsError(p: Policy, count: nat, elapsed: real, error: Error)
    ensures var (stop, e) := OnThrottle(p, count, elapsed, error);
      && (stop <==> !WithinLimits(p, count, elapsed))
      && (e == error || (stop && e == Exhausted(error)))
      && ((forall limit :: HasTimeLimit(p, limit) ==> elapsed < limit) ==> e == error)
      && (stop && (forall limit :: HasAttemptLimit(p, limit) ==> count < limit) ==> e == Exhausted(error))
  {
    if !p.Base? {
      ThrottleKeepsError(p.inner, count, elapsed, error);
      WithinInnerLimits(p, count, elapsed);
      LimitsOfStack(p);
    }
  }

  lemma {:induction false} GovernedStops(p: Policy, start: real, es: seq<Event>, attempts: nat)
    requires Legal(start, es) && AllGoverned(p, start, es) && LimitsAttempts(p, attempts)
    ensures StopsAt(es, attempts)
  {
    if es != [] {
      var n := |es| - 1;
      GovernedStops(p, start, es[..n], attempts);
      var l := Exec(start, es[..n]);
      if es[n].Failed? {
        var base: RetryResult :| base.error == es[n].given &&
          es[n].flow == OnError(p, es[n].count, es[n].at - l.start, base);
        DecoratorsCompose(p, es[n].count, es[n].at - l.start, base, attempts, 0.0);
      }
      assert forall i :: 0 <= i < n ==> es[i] == es[..n][i];
    }
  }

  /** Any stack with an attempt limit makes at most max(1, limit) attempts. */
  lemma LimitedPolicyLimitsAttempts(p: Policy, start: real, es: seq<Event>, attempts: nat)
    requires Legal(start, es) && AllGoverned(p, start, es) && LimitsAttempts(p, attempts)
    ensures Completed(es) <= if attempts < 1 then 1 else attempts
  {
    GovernedStops(p, start, es, attempts);
    AttemptLimitHolds(start, es, attempts);
  }

  /** The clock is ideal and attempts respect their budgets; nothing is asked of the policy. */
  predicate Punctual(l: Loop, e: Event)
    requires RetryLoop.Enabled(l, e)
  {
    match e
    case RemainingTime(at, _, _) => at == l.clock
    case Slept(at, delay) => at == l.phase.since + delay
    case Succeeded(at, budget, _) => budget.Some? ==> at <= l.phase.since + budget.value
    case Failed(at, budget, _, _, _, _) => budget.Some? ==> at <= l.phase.since + budget.value
    case _ => true
  }

  predicate AllPunctual(start: real, es: seq<Event>)
    requires Legal(start, es)
  {
    es == [] ||
    (var n := |es| - 1; AllPunctual(start, es[..n]) && Punctual(Exec(start, es[..n]), es[n]))
  }

  lemma {:induction false} GovernedIsTimely(p: Policy, start: real, es: seq<Event>, limit: Duration)
    requires Legal(start, es) && AllGoverned(p, start, es) && AllPunctual(start, es)
    requires LimitsTime(p, limit)
    ensures AllTimely(start, es, limit)
  {
    if es != [] {
      var n := |es| - 1;
      GovernedIsTimely(p, start, es[..n], limit);
      TimelyRunMeetsDeadline(start, es[..n], limit);
      var l := Exec(start, es[..n]);
      if es[n].RemainingTime? {
        DecoratorsCompose(p, 0, es[n].at - l.start, Continue(Other(0)), 0, limit);
      }
    }
  }

  /** Any stack with a time limit returns within that limit plus the longest delay it slept. */
  lemma LimitedPolicyReturnsNearDeadline(p: Policy, start: real, es: seq<Event>, limit: Duration)
    requires Legal(start, es) && AllGoverned(p, start, es) && AllPunctual(start, es)
    requires LimitsTime(p, limit) && Exec(start, es).phase.Done?
    ensures Exec(start, es).clock <= start + limit + LongestSleep(start, es) <= start + limit + limit
  {
    GovernedIsTimely(p, start, es, limit);
    ReturnsNearDeadline(start, es, limit);
  }
}
