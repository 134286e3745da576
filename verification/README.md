# Verified model of the credential stack, the retry loop, routing headers and INTERVAL decoding

This project models the logic-heavy parts of the Google Cloud client libraries for Rust in Dafny 4.11 and proves
what they promise, over every input, every run or every interleaving. `dafny verify dfyconfig.toml` checks all of it.

* **Credentials** (`src/auth`). `TokenCache` is the protocol between one background refresher, any number of
  readers of a watch channel, and the clock; a run is any legal sequence of its atomic steps. `TokenRefresher` is
  `refresh_task` as the loop it is, proved to act only by such steps. `AccessBoundary` is the second, tag-based cache
  on top (`EntityTagCache`, a class with its five fields), `BoundaryRefresh` the channel that feeds it, `AuthHeaders`
  the header construction between the two, and `CredentialStack` the composition of all of them with one clock and one
  tag counter.
* **Retries** (`src/gax`). `RetryLoop` holds one loop as a machine that meets its environment in events, and the loop
  itself as a method over an arbitrary environment, proved to produce only runs of that machine. `RetryThrottler` has
  the two throttlers, `SharedThrottling` any number of loops on one throttler, interleaved event by event.
  `RetryPolicies` has the limiting decorators, `ExponentialBackoff` the delays (over the reals), and `AuthRetry` joins
  the retry loop to the token refresher.
* **Routing** (`src/gax-internal`). `RoutingParameter` proves the greedy path-template matcher against a declarative
  language and the percent-encoded header (section 3.2.2 of RFC 6570) against a decoder.
* **INTERVAL** (`src/bigquery`). `Interval` has both decoders with i32 casts and products explicit; `Decimal` has the
  decimal text they read.

Runs are finite sequences of steps of any length, so each statement is about every prefix of every execution. Instants
of the credential modules are nanoseconds; those of the retry modules are reals. Where the environment decides (a
provider, a policy, the clock, a random draw), the model takes any value.

Results that differ from what one might expect of the code:

* The circuit breaker's retry budget needs no relation between `min_tokens` and `error_cost` when requests run one at a
  time (`SharedThrottling.RetryBudget`). With up to k retries in flight at once, failed retries cost at most k times as
  much, if and only if `min_tokens + 1 >= error_cost` or the breaker never opens (`SharedThrottling.ConcurrentBudgetIff`).
* A retry's budget is read before its sleep and used after it, so a loop with time limit D returns by D plus the longest
  delay it slept, and that bound is reached (`RetryLoop.DeadlineBoundIsTight`).
* The boundary tag does not change when a boundary expires, so a cached expired boundary stays in the headers;
  `CredentialStack.AnswersEqualUncached` gives the exact condition and `StaleBoundaryIsReachable` runs that meet it.
* `update_resource` replaces the tag before combining, so a failing call leaves a current tag nobody was given
  (`AccessBoundary.FailedCallLosesItsTag`, and `CurrentTagWasGivenOutIff` for exactly when). Tags cannot be forged, so
  no caller can present such a tag, and every NotModified a caller can get is genuine
  (`AccessBoundary.ConfirmationsAreGenuine`).
* A template in which `*` is followed by another `*` or by a literal without a leading slash matches no haystack at all
  (`RoutingParameter.BlockedTemplateFindsNothing`), even where its language has one (`UnsafeTemplateMisses`).
* A template that ends its prefix or its match in `*` just before the final `**` misses matches around colons; among the
  safe templates these are exactly the incomplete ones (`RoutingParameter.CompleteIffUndivided`).
* A negative INTERVAL text whose hours, minutes or seconds carry their own minus sign can overflow an i32 product;
  `Interval.TextOverflowsIff` says exactly when.
* With an attempt count of zero the backoff exponent is -1 (`ExponentialBackoff.DelayAtZero`); the loop never asks with
  zero.

## Model

| member | source | states |
|---|---|---|
| Resources.TagGenerator.Fresh | src/auth/src/credentials.rs:59-66 | each drawn tag is the counter's value and never drawn again |
| TokenCache.ErrorsNeverDisplaceUsableTokens | src/auth/src/token_cache.rs:109-182 | in every run, each published error found only expired tokens before it, and a latest token that is still usable is what the channel holds |
| TokenCache.ReadBeforeExpirySucceeds | src/auth/src/token_cache.rs:63-107 | a read that ends strictly before the latest published token expires returns exactly that token, whether it decides at once or had to wait, whatever happens in between |
| TokenCache.DecidedReadsAreValid | src/auth/src/token_cache.rs:63-86 | a read waits exactly if it finds nothing or a token that expired before that instant; otherwise it returns what it found, a published token, not expired, under a tag of its own, or the published error |
| TokenCache.ReadsAreLinearizable | src/auth/src/token_cache.rs:63-107 | whatever a read returns, waiting or not, is what the channel held at some instant between its start and its return |
| TokenCache.ReadersNeverPanic | src/auth/src/token_cache.rs:63-107 | no reader waits on a closed channel with nothing new, a released reader finds a newer value, so neither unwrap nor expect fires |
| TokenCache.NeverExpiringTokenStays | src/auth/src/token_cache.rs:185-191 | once a token without expiry is published, channel value and version never change again |
| TokenCache.RefetchIsDue | src/auth/src/token_cache.rs:185-203 | the next refresher event after a token is a fetch, not before it is due; under an ideal clock exactly 240 s before expiry, or 10 s after a publication within 240 s of expiry |
| TokenCache.FailureIsFollowedByPause | src/auth/src/token_cache.rs:146-182 | in every run the first fetch after a failure starts at least 10 s after it, and only after a transient one; under an ideal clock exactly 10 s after it |
| TokenCache.FailingFetchesArePaced | src/auth/src/token_cache.rs:122-182 | in every run two fetches with no token published between them are at least 10 s apart |
| TokenCache.FailureIsFollowedUp | src/auth/src/token_cache.rs:134-178 | a failure is followed by the publication of its error, not before the token on show expires and under an ideal clock exactly then or at once; or, for a transient one, by a fetch while the token on show outlasts the pause |
| TokenCache.EventsFollow | src/auth/src/token_cache.rs:119-205 | in every run each fetch, failure and publication is one that may follow those before it, on time; the channel holds what was published last |
| TokenCache.NoFetchOnceDropped | src/auth/src/token_cache.rs:122-129 | once the cache is dropped no fetch starts |
| TokenCache.NoSpinOnRepeatedExpiry | src/auth/src/token_cache.rs:193-203 | of two publications with the same expiry at least one is followed by a pause of 10 s or more |
| TokenRefresher.RefreshTask | src/auth/src/token_cache.rs:119-205 | the loop, with any provider answers and any other activity in between, only performs protocol steps; one fetch per round; it stops only in the stopped state |
| TokenRefresher.StopOn | src/auth/src/token_cache.rs:134-145 | a permanent error ends with that error in the channel and the refresher stopped |
| TokenRefresher.PublishOnceExpired | src/auth/src/token_cache.rs:160-179 | publishes the error once the token on show is unusable, unless that token lasts until the next fetch |
| TokenRefresher.PauseOn | src/auth/src/token_cache.rs:146-182 | a transient error ends at the top of the loop, 10 s later or more, with the error published, or with the channel untouched and its token valid for at least those 10 s |
| TokenRefresher.Publish | src/auth/src/token_cache.rs:185-203 | a fetched token is published under a fresh tag; the refresher stops exactly when it has no expiry |
| AuthHeaders.AsHeaders | src/auth/src/headers_util.rs:101-136 | the map has exactly the entries `authorization`: type and token, or `x-goog-api-key`: token, and `x-goog-user-project` if set; it fails exactly if one of these texts is not a valid header value |
| AuthHeaders.HeadersAreInjective | src/auth/src/headers_util.rs:91-136 | equal headers come from the same header kind, quota project and token, and for bearer tokens the same type |
| AccessBoundary.EntityTagCache.UpdateResource | src/auth/src/access_boundary.rs:212-219 | draws one tag, makes it current and answers with the combination under it |
| AccessBoundary.EntityTagCache.UpdateCredentials | src/auth/src/access_boundary.rs:178-186 | replaces the credentials part and the tag and nothing else |
| AccessBoundary.EntityTagCache.UpdateBoundary | src/auth/src/access_boundary.rs:188-196 | replaces the boundary part and the tag and nothing else |
| AccessBoundary.EntityTagCache.UpdateBoth | src/auth/src/access_boundary.rs:198-210 | replaces both parts and the tag |
| AccessBoundary.EntityTagCache.CombineData | src/auth/src/access_boundary.rs:221-233 | the cached headers with the boundary header when there is one; an error for an invalid value; the expect fires exactly without credentials |
| AccessBoundary.EntityTagCache.Headers | src/auth/src/access_boundary.rs:297-378 | the whole call refines the functions After and Ends, errors and panics included; disabled, it passes the inner answer through |
| AccessBoundary.CompositeCacheIsCoherent | src/auth/src/access_boundary.rs:167-233 | over every run of calls, failing ones included: one tag never stands for two header maps, NotModified confirms the combination of the cached parts, the fields are all present or all absent, no expect fires |
| AccessBoundary.ConfirmedTagWasGivenOutIff | src/auth/src/access_boundary.rs:212-233 | in every run a NotModified confirms a tag that was given out with headers if and only if the cached boundary is a valid header value or absent |
| AccessBoundary.ConfirmationsAreGenuine | src/auth/src/access_boundary.rs:343-348 | in every run whose callers present only tags they can hold, every NotModified confirms headers an earlier call gave out under that tag, equal to the combination of the cached parts |
| AccessBoundary.CurrentTagWasGivenOutIff | src/auth/src/access_boundary.rs:212-219 | in every run the current tag was given out if and only if the cached boundary is a valid header value or absent |
| AccessBoundary.FailedCallLosesItsTag | src/auth/src/access_boundary.rs:212-219 | a concrete run in which a failed call leaves a current tag that was never given out |
| BoundaryRefresh.BoundaryChannel.RefreshTask | src/auth/src/access_boundary.rs:591-609 | the loop only performs channel actions, one fetch per round |
| BoundaryRefresh.HoldsLastFetch | src/auth/src/access_boundary.rs:75-81 | in every run the channel holds what was fetched last, with a lifetime of six hours from that instant |
| BoundaryRefresh.FetchesAreSpaced | src/auth/src/access_boundary.rs:591-609 | no request within five hours of a successful fetch, nor within 15 minutes of a failed one |
| BoundaryRefresh.EndsOnceAbandoned | src/auth/src/access_boundary.rs:595-598 | once nobody receives any more the service is never asked again |
| BoundaryRefresh.UnexpiredIffStreaksFit | src/auth/src/access_boundary.rs:40-81 | a published boundary is unexpired at every instant of every paced run if and only if streak * (fetch + 15 min) + fetch is at most one hour |
| CredentialStack.AnswersEqualUncached | src/auth/src/access_boundary.rs:297-378 | in every run a call leaves its caller with the headers or error an uncached call would build from the token and boundary, if and only if its credentials part fails or its cached boundary is not stale |
| CredentialStack.AnswersAreExact | src/auth/src/access_boundary.rs:125-132 | in every run a call leaves its caller with the error of its token reader, or with exactly the entries its token and the settings call for, and `x-goog-allowed-locations` if and only if a location other than "0x0" was fetched last and is at most six hours old or stale in the cache; it fails exactly if one of them is not a valid header value |
| CredentialStack.NotModifiedIffUnchanged | src/auth/src/access_boundary.rs:330-378 | in every run, for callers that present tags given out: NotModified if and only if the reader returns the token of the last call that gave out headers, no boundary was published since, and the caller presents the tag of that call; headers are given out under that tag again only if nothing changed, and otherwise under a tag never given out before |
| CredentialStack.StaleBoundaryIsReachable | src/auth/src/access_boundary.rs:312-322 | for all usable settings and every boundary value some run ends in a call whose answer differs from the uncached one |
| CredentialStack.CallsAreLinearizable | src/auth/src/access_boundary.rs:330-378 | a call with no stale boundary leaves its caller with what an uncached call would build from the token or error the channel held at some instant during the call and the boundary shown at its end |
| CredentialStack.PacedStackNeverStale | src/auth/src/access_boundary.rs:125-132 | with paced boundary fetches every call of every run equals the uncached call |
| CredentialStack.StackRefinesTokenCache | src/auth/src/token_cache.rs:91-97 | the token cache inside the stack is in a state of a legal run of its own |
| RetryThrottler.NewBreaker | src/gax/src/retry_throttler.rs:336-374 | new accepts exactly min_tokens <= tokens, which clamp leaves unchanged, and then yields the same breaker |
| RetryThrottler.NewAdaptive | src/gax/src/retry_throttler.rs:206-233 | new accepts exactly the nonnegative factors, which clamp leaves unchanged, and then yields the same throttler |
| RetryThrottler.SharedThrottler.ThrottleRetryAttempt | src/gax/src/retry_throttler.rs:236-264 | adaptive: rejects draw d > 0 exactly if d * (requests + 1) <= requests - factor * accepts; circuit breaker: exactly if the tokens are at or below the minimum |
| RetryThrottler.SharedThrottler.RecordRetryFailure | src/gax/src/retry_throttler.rs:266-274 | the throttler's state after a failure is OnRetryFailure of the old one and stays valid |
| RetryThrottler.SharedThrottler.RecordSuccess | src/gax/src/retry_throttler.rs:406-408 | the throttler's state after a success is OnSuccess of the old one and stays valid |
| RetryThrottler.RejectProbabilityInRange | src/gax/src/retry_throttler.rs:236-246 | the rejection probability times (requests + 1) is requests - factor * accepts, or zero if that is negative; it lies in [0, 1) |
| RetryLoop.Run | src/gax/src/retry_loop_internal.rs:51-122 | the loop asks the policies, the throttler, the sleep and the attempt exactly what QuestionsDecide says, returns exactly what their answers say, and its events are a legal run of the machine with the throttler's own verdicts and updates |
| RetryLoop.QuestionsDecide | src/gax/src/retry_loop_internal.rs:63-122 | in every run each question follows those before it as the loop prescribes, with the count, error, delay and budget told last; the loop has returned Ok(r) exactly if the last answer was an attempt's Ok(r), and an error exactly if the policy stopped with it, or exhausted if less time remains than the last delay |
| RetryLoop.RunRound | src/gax/src/retry_loop_internal.rs:64-121 | one round of the loop extends the run and leads to a return or the next attempt |
| RetryLoop.PassThrottler | src/gax/src/retry_loop_internal.rs:78-95 | a retry is admitted, ended or sent back exactly by the throttler's verdict and the policy's answer, with the count unchanged |
| RetryLoop.MakeAttempt | src/gax/src/retry_loop_internal.rs:96-120 | a response is returned as it is; an error goes to the policy and then the backoff, and the loop returns or carries on with the policy's error and the backoff's delay; the throttler is told |
| RetryLoop.AttemptsAreNumbered | src/gax/src/retry_loop_internal.rs:34-41 | in every run the k-th failure is judged with count k; every other question shows the number of completed attempts |
| RetryLoop.AttemptLimitHolds | src/gax/src/retry_loop_internal.rs:63-122 | a policy that never continues at N attempts allows at most max(1, N) |
| RetryLoop.BackoffCountsGrow | src/gax/src/retry_loop_internal.rs:84-107 | the backoff policy is consulted with counts of at least one that never decrease |
| RetryLoop.ReturnsNearDeadline | src/gax/src/retry_loop_internal.rs:66-97 | every return is within the limit plus the longest delay slept, itself at most the limit; no sleep begun before the deadline ends after it |
| RetryLoop.DeadlineBoundIsTight | src/gax/src/retry_loop_internal.rs:70-97 | for every limit and delay some timely run returns exactly at limit + delay |
| SharedThrottling.EachLoopIsARun | src/gax/src/retry_loop_internal.rs:63-122 | in any interleaving the events of one request are a legal run of one loop |
| SharedThrottling.AdaptiveCountsAttempts | src/gax/src/retry_throttler.rs:236-279 | in any interleaving the counters are the completed and the accepted attempts, and the rejection probability is in [0, 1) |
| SharedThrottling.AdaptiveVerdicts | src/gax/src/retry_throttler.rs:236-246 | in any interleaving a retry passes with draw d > 0 exactly if d * (n + 1) > n - factor * a, for n completed and a accepted attempts so far |
| SharedThrottling.NothingThrottledIff | src/gax/src/retry_throttler.rs:236-246 | in any interleaving no positive draw is throttled if and only if n <= factor * a |
| SharedThrottling.AcceptsNeverThrottleMore | src/gax/src/retry_throttler.rs:236-246 | of two runs with as many completed attempts, the one with more accepted ones throttles no draw the other does not |
| SharedThrottling.BreakerVerdicts | src/gax/src/retry_throttler.rs:391-393 | in any interleaving a retry passes exactly if more than min_tokens are left; until the first accepted attempt those are the initial tokens less error_cost per failure |
| SharedThrottling.BreakerDrains | src/gax/src/retry_throttler.rs:395-404 | over any stretch without an accepted attempt the tokens fall by error_cost per failure, to zero at most |
| SharedThrottling.BreakerRecovers | src/gax/src/retry_throttler.rs:406-408 | over any stretch without such a failure they rise by one per accepted attempt, up to the maximum |
| SharedThrottling.RetryBudget | src/gax/src/retry_throttler.rs:391-408 | on a breaker built with any parameters, for requests run one at a time, error_cost times the failed retries is at most max_tokens plus successes and permanent errors |
| SharedThrottling.ConcurrentBudgetIff | src/gax/src/retry_throttler.rs:391-408 | in every interleaving with at most k retries in flight, error_cost times the failed retries is at most k times (max_tokens plus successes and permanent errors), if and only if min_tokens + 1 >= error_cost or min_tokens is at least the initial tokens |
| RetryPolicies.DecoratorsCompose | src/gax/src/retry_policy.rs:489-618 | any stack of decorators passes errors on, stops at any attempt limit and reports no more than any time limit leaves |
| RetryPolicies.ContinuesIffWithinLimits | src/gax/src/retry_policy.rs:493-605 | any stack continues exactly if the innermost policy does and no attempt or time limit of the stack has been reached; a limit turns Continue into Exhausted and changes nothing else |
| RetryPolicies.RemainingIsTightest | src/gax/src/retry_policy.rs:514-521 | the remaining time is what the tightest time limit of the stack leaves, and none without one |
| RetryPolicies.ThrottleKeepsError | src/gax/src/retry_policy.rs:475-613 | a throttled round stops exactly if some limit has been reached; the error stays unless a time limit was reached, and is wrapped as exhausted if only time limits were |
| RetryPolicies.LimitedPolicyLimitsAttempts | src/gax/src/retry_policy.rs:588-604 | any stack with an attempt limit makes at most max(1, limit) attempts in every run |
| RetryPolicies.LimitedPolicyReturnsNearDeadline | src/gax/src/retry_policy.rs:514-521 | any stack with a time limit returns within it plus the longest delay slept |
| ExponentialBackoff.BuildersYieldValid | src/gax/src/exponential_backoff.rs:120-180 | build accepts exactly the usable settings and names the first fault of others; clamp yields the nearest values in 1 s to 1 day, 1 ms to that maximum, and 1 to 32 |
| ExponentialBackoff.DelayIsTruncated | src/gax/src/exponential_backoff.rs:197-209 | from count one on the delay is min(maximum, initial * scaling^(count - 1)), with the exponent capped at 2^31 - 2, and lies in [initial, maximum] |
| ExponentialBackoff.DelayAtZero | src/gax/src/exponential_backoff.rs:197-209 | at count zero the delay is initial / scaling, below the initial delay exactly when scaling exceeds one |
| ExponentialBackoff.DelaysGrowOverRun | src/gax/src/exponential_backoff.rs:197-218 | over every run of the loop the delays before jitter never decrease and stay in [initial, maximum] |
| ExponentialBackoff.ReturnsWithinLimitAndMaximum | src/gax/src/exponential_backoff.rs:211-218 | a timely loop with this backoff returns within its limit plus the smaller of limit and maximum delay |
| AuthRetry.TransientIffLastErrorWas | src/auth/src/retry.rs:120-159 | a failure leaves the wrapper as transient, and the refresher goes on, exactly when the last provider error was transient and the loop did not run out of time |
| AuthRetry.LimitingPoliciesAreFaithful | src/gax/src/retry_policy.rs:475-618 | every stack of limiting policies hands errors on as that result needs |
| RoutingParameter.Value | src/gax-internal/src/routing_parameter.rs:41-71 | the three loops find exactly ValueOf of the haystack; a missing haystack finds nothing |
| RoutingParameter.Consume | src/gax-internal/src/routing_parameter.rs:52-66 | one loop ends at the position its segments reach, or fails |
| RoutingParameter.MatchIsInSegment | src/gax-internal/src/routing_parameter.rs:118-136 | what match_size takes is in the language of the segment |
| RoutingParameter.ValueIsSound | src/gax-internal/src/routing_parameter.rs:41-71 | for every template, a found value is the nonempty match of a split whose parts are in their languages |
| RoutingParameter.ValueIsPossessive | src/gax-internal/src/routing_parameter.rs:41-71 | for every template and haystack, value finds m if and only if m is the match of a proper split in which every wildcard takes all it can |
| RoutingParameter.ValueIsComplete | src/gax-internal/src/routing_parameter.rs:106-136 | for safe templates value finds the match of every proper split whose `**` piece, where a part boundary separates it from a `*`, is empty or starts with a slash |
| RoutingParameter.ValueIsExact | src/gax-internal/src/routing_parameter.rs:41-71 | for safe templates, on every haystack, value finds m if and only if such a split has m as its match |
| RoutingParameter.SplitIsUnique | src/gax-internal/src/routing_parameter.rs:106-136 | for safe templates there is at most one such split |
| RoutingParameter.CompleteIffUndivided | src/gax-internal/src/routing_parameter.rs:41-71 | a safe template is complete on every haystack if and only if it matches nothing or no part boundary lies between the last `*` and the final `**` |
| RoutingParameter.ColonIsAmbiguous | src/gax-internal/src/routing_parameter.rs:126-134 | a haystack with a colon that splits in two ways, of which value takes the longer match |
| RoutingParameter.ColonMatchIsMissed | src/gax-internal/src/routing_parameter.rs:121-134 | a haystack with a colon and a proper split whose match value misses |
| RoutingParameter.BlockedTemplateFindsNothing | src/gax-internal/src/routing_parameter.rs:118-124 | a template whose `*` is followed by another `*` or a literal without a leading slash finds nothing in any haystack |
| RoutingParameter.UnsafeTemplateMisses | src/gax-internal/src/routing_parameter.rs:121-124 | such a template whose language contains a haystack, which value misses |
| RoutingParameter.EncodeRoundTrip | src/gax-internal/src/routing_parameter.rs:160-172 | percent-encoded text holds no separator and decodes to what was encoded |
| RoutingParameter.EncodeSpells | src/gax-internal/src/routing_parameter.rs:160-172 | each byte is spelled out in its place: letters, digits and "-._~" as themselves, every other byte as % and two upper-case hex digits |
| RoutingParameter.EncodeKeepsIffPlain | src/gax-internal/src/routing_parameter.rs:160-172 | text stays as it is if and only if all its bytes are letters, digits or "-._~" |
| RoutingParameter.FormatRoundTrip | src/gax-internal/src/routing_parameter.rs:87-95 | splitting and decoding the header recovers exactly the present pairs in order |
| RoutingParameter.FormatIsInjective | src/gax-internal/src/routing_parameter.rs:87-95 | equal headers come from equal present pairs |
| Interval.ArrowIsExact | src/bigquery/src/datatypes.rs:218-243 | every Arrow interval decodes without overflow; parts recompose exactly, share their group's sign and stay in radix |
| Interval.TextReadsBack | src/bigquery/src/datatypes.rs:123-216 | every well-formed text decodes to exactly the numbers it writes, nine fraction digits counting |
| Interval.TextDecodesIff | src/bigquery/src/datatypes.rs:123-216 | text decodes to v if and only if it is a year-month word, a day number and a time word, between blanks, that denote v |
| Interval.DecodesIff | src/bigquery/src/datatypes.rs:121-246 | from_value succeeds exactly on text that denotes an interval and on Arrow intervals; other text is a conversion error unless a product overflows, nulls are NotNull, the rest a type mismatch |
| Decimal.ParsesIff | src/bigquery/src/datatypes.rs:156-205 | a number is read exactly from at least one digit behind an optional sign, within the i32 range |
| Interval.ShortFraction | src/bigquery/src/datatypes.rs:201-205 | a fraction k digits short of nine counts 10^k times its number |
| Interval.LongFraction | src/bigquery/src/datatypes.rs:201-205 | of a longer fraction the first nine digits count |
| Interval.TextAgreesWithArrow | src/bigquery/src/datatypes.rs:121-246 | from_value on any well-formed text that writes an Arrow value gives the same Interval as on the Arrow cell |
| Interval.CanonicalWrites | src/bigquery/src/datatypes.rs:218-243 | every Arrow interval, extremes included, has such a text |
| Interval.TextOverflowsIff | src/bigquery/src/datatypes.rs:151-205 | text decoding overflows exactly when a negative time has a component that reads as i32::MIN after readable ones |
| Interval.NegatedMinimumOverflows | src/bigquery/src/datatypes.rs:173-193 | decoding overflows on every text of well-formed words whose time is negative with hours written as -2147483648 |

## Left out

- TokenCache: the refresher's two clock reads around a sleep (computing the duration and starting the sleep) count as one instant.
- TokenCache: liveness is not stated; a waiting reader can always be released after the next publication, but no fairness is assumed.
- RetryLoop.Run: observes a given number of rounds, since a policy may continue forever; every finite run is covered.
- RetryLoop.ReturnsNearDeadline: assumes an ideal clock (sleeps end on time, policies and throttlers take no time).
- RetryThrottler: f64 rounding, infinities and NaN; counters and factors are reals. The u64 token counts are naturals, which cannot differ because they stay at or below max_tokens.
- ExponentialBackoff: f64 rounding and the jitter's distribution; a jittered delay is any value up to the computed one.
- Resources.TagGenerator.Fresh: wrap-around of the u64 counter.
- RetryLoop.AttemptsAreNumbered: wrap-around of the u32 attempt count.
- RetryPolicies: error classification (Aip194Strict, AlwaysRetry and the continue-on decorators) is an arbitrary answer that keeps the error.
- AuthHeaders.AsHeaders: the sensitivity mark of header values.
- AccessBoundary: fetching boundaries over HTTP, lookup URLs and universe domains; a fetch is an arbitrary outcome.
- RoutingParameter: UTF-8 validity of the sliced strings; strings are bytes, and cuts fall at ASCII separators or string ends.
- RoutingParameter.ValueIsComplete: stated for safe templates, in which `**` comes last and each `*` is last or followed by a literal with a leading slash or by the final `**`; for all other templates ValueIsPossessive says which splits value finds.
- Interval: RANGE values and date elements.
- Abort on drop, lock poisoning, runtime shutdown and panics inside providers.
- HTTP and gRPC transport, paginators, polling policies, client builders, signers, ADC lookup and generated code: wrappers around what is modelled, or I/O.
