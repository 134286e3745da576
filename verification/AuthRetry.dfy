/** Token fetches with retries (src/auth/src/retry.rs) and what their errors mean to the refresher. */
module AuthRetry {
  import opened Resources
  import opened RetryThrottler
  import opened RetryLoop
  import RetryPolicies
  import TC = TokenCache

  const NOT_AUTHENTICATION: nat := 1
  const RETRY_EXHAUSTED: nat := 2
  const TOKEN_FETCH_FAILED: nat := 3

  /** `map_retry_error` */
  function MapRetryError(e: Error): CredentialsError {
    match e
    case Authentication(source) =>
      if source.transient then CredentialsError(true, RETRY_EXHAUSTED)
      else CredentialsError(false, TOKEN_FETCH_FAILED)
    case _ => CredentialsError(false, NOT_AUTHENTICATION)
  }

  /** The provider's errors are authentication errors, and the policies hand errors on; one that
      stops on a throttled round may wrap the error as exhausted. */
  predicate Faithful(e: Event) {
    match e
    case Failed(_, _, _, given, flow, _) => given.Authentication? && flow.error == given
    case ThrottledOn(_, _, given, returned, _) => returned == given
    case ThrottledOut(_, _, given, returned) => returned == given || returned.Exhausted?
    case _ => true
  }

  /** The error of the last failed attempt. */
  function LastError(es: seq<Event>): Option<Error> {
    if es == [] then None
    else if es[|es| - 1].Failed? then Some(es[|es| - 1].given)
    else LastError(es[..|es| - 1])
  }

  /** The loop gave up for lack of time: at its guard, or in a policy that then wraps the error. */
  predicate OutOfTime(es: seq<Event>) {
    es != [] &&
    var last := es[|es| - 1];
    last.RemainingTime? || (last.ThrottledOut? && last.returned.Exhausted?)
  }

  predicate CarriesLastError(p: Phase, es: seq<Event>) {
    match p
    case Ready(a) => a.Retry? ==> LastError(es) == Some(a.previous)
    case Sleeping(_, _, previous, _, _) => LastError(es) == Some(previous)
    case Checking(_, previous, _) => LastError(es) == Some(previous)
    case InFlight(_, _, _) => true
    case Done(Ok(_)) => true
    case Done(Err(e)) => LastError(es).Some? && (if OutOfTime(es) then e.Exhausted? else Some(e) == LastError(es))
  }

  lemma {:induction false} RunCarriesLastError(start: real, es: seq<Event>)
    requires Legal(start, es) && forall i :: 0 <= i < |es| ==> Faithful(es[i])
    ensures CarriesLastError(Exec(start, es).phase, es)
    ensures LastError(es).Some? ==> LastError(es).value.Authentication?
  {
    if es != [] {
      var n := |es| - 1;
      assert forall i :: 0 <= i < n ==> es[..n][i] == es[i];
      RunCarriesLastError(start, es[..n]);
      assert Faithful(es[n]);
    }
  }

  /** A failure leaves the retry wrapper as transient exactly when the last provider error was
      transient and the loop did not run out of time; exactly then the refresher keeps going. */
  lemma TransientIffLastErrorWas(start: real, es: seq<Event>, e: Error, s: TC.State)
    requires Legal(start, es) && forall i :: 0 <= i < |es| ==> Faithful(es[i])
    requires Exec(start, es).phase == Done(Err(e)) && s.refresher.Fetching?
    ensures LastError(es).Some? && LastError(es).value.Authentication?
    ensures MapRetryError(e).transient <==> LastError(es).value.source.transient && !OutOfTime(es)
    ensures var r := TC.Apply(s, TC.FetchErr(MapRetryError(e))).refresher;
      && (r.TransientFailure? <==> LastError(es).value.source.transient && !OutOfTime(es))
      && (r.PermanentFailure? <==> !LastError(es).value.source.transient || OutOfTime(es))
  {
    RunCarriesLastError(start, es);
  }

  /** Every stack of limiting policies around a faithful classifier is faithful. */
  lemma {:induction false} LimitingPoliciesAreFaithful(p: RetryPolicies.Policy, start: real, es: seq<Event>)
    requires Legal(start, es) && RetryPolicies.AllGoverned(p, start, es)
    requires forall i :: 0 <= i < |es| && es[i].Failed? ==> es[i].given.Authentication?
    ensures forall i :: 0 <= i < |es| ==> Faithful(es[i])
  {
    if es != [] {
      var n := |es| - 1;
      assert forall i :: 0 <= i < n ==> es[..n][i] == es[i];
      LimitingPoliciesAreFaithful(p, start, es[..n]);
      var l := Exec(start, es[..n]);
      match es[n]
      case Failed(at, _, count, given, flow, _) =>
        var base: RetryResult :| base.error == given &&
          flow == RetryPolicies.OnError(p, count, at - l.start, base);
        RetryPolicies.DecoratorsCompose(p, count, at - l.start, base, 0, 0.0);
      case ThrottledOn(_, count, given, _, _) =>
        RetryPolicies.ThrottleKeepsError(p, count, l.clock - l.start, given);
      case ThrottledOut(_, count, given, _) =>
        RetryPolicies.ThrottleKeepsError(p, count, l.clock - l.start, given);
      case _ =>
    }
  }
}
