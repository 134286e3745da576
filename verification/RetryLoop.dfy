/** The retry loop (src/gax/src/retry_loop_internal.rs). One loop is a machine that meets its
    environment - the policies, the throttler, the clock and the attempt itself - in events; the
    answers in an event are whatever the environment gives. `RetryLoop` is the loop itself. */
module RetryLoop {
  import opened Resources
  import opened RetryThrottler

  type Duration = d: real | d >= 0.0

  datatype Attempt = Initial | Retry(count: nat, delay: Duration, previous: Error) {
    function Count(): nat {
      if Initial? then 0 else count
    }
  }

  /** Where a loop is. The count of `InFlight` already includes the attempt in flight. */
  datatype Phase =
    | Ready(attempt: Attempt)
    | Sleeping(count: nat, delay: Duration, previous: Error, budget: Option<Duration>, since: real)
    | Checking(count: nat, previous: Error, budget: Option<Duration>)
    | InFlight(count: nat, budget: Option<Duration>, since: real)
    | Done(result: Result<int, Error>)

  datatype Loop = Loop(start: real, clock: real, phase: Phase)

  /** One meeting with the environment: `count` is the attempt count the policies are shown,
      `given` the error they are handed, `draw` the throttler's random draw, `budget` the time an
      attempt is handed. */
  datatype Event =
    | RemainingTime(at: real, count: nat, remaining: Option<Duration>)
    | Slept(at: real, delay: Duration)
    | ThrottledOut(draw: real, count: nat, given: Error, returned: Error)
    | ThrottledOn(draw: real, count: nat, given: Error, returned: Error, delay: Duration)
    | Admitted(draw: real)
    | Succeeded(at: real, budget: Option<Duration>, response: int)
    | Failed(at: real, budget: Option<Duration>, count: nat, given: Error, flow: RetryResult,
             delay: Duration)

  function Begin(start: real): Loop {
    Loop(start, start, Ready(Initial))
  }

  predicate Enabled(l: Loop, e: Event) {
    match e
    case RemainingTime(at, count, _) =>
      l.phase.Ready? && l.clock <= at && count == l.phase.attempt.Count()
    case Slept(at, delay) =>
      l.phase.Sleeping? && delay == l.phase.delay && l.phase.since + delay <= at
    case ThrottledOut(_, count, given, _) =>
      l.phase.Checking? && count == l.phase.count && given == l.phase.previous
    case ThrottledOn(_, count, given, _, _) =>
      l.phase.Checking? && count == l.phase.count && given == l.phase.previous
    case Admitted(_) => l.phase.Checking?
    case Succeeded(at, budget, _) => l.phase.InFlight? && l.clock <= at && budget == l.phase.budget
    case Failed(at, budget, count, _, _, _) =>
      l.phase.InFlight? && l.clock <= at && budget == l.phase.budget && count == l.phase.count
  }

  function Apply(l: Loop, e: Event): Loop
    requires Enabled(l, e)
  {
    match e
    case RemainingTime(at, _, remaining) =>
      var l := l.(clock := at);
      (match l.phase.attempt
       case Initial => l.(phase := InFlight(1, remaining, at))
       case Retry(count, delay, previous) =>
         if remaining.Some? && remaining.value < delay then l.(phase := Done(Err(Exhausted(previous))))
         else l.(phase := Sleeping(count, delay, previous, remaining, at)))
    case Slept(at, _) => Loop(l.start, at, Checking(l.phase.count, l.phase.previous, l.phase.budget))
    case ThrottledOut(_, _, _, returned) => l.(phase := Done(Err(returned)))
    case ThrottledOn(_, count, _, returned, delay) => l.(phase := Ready(Retry(count, delay, returned)))
    case Admitted(_) => l.(phase := InFlight(l.phase.count + 1, l.phase.budget, l.clock))
    case Succeeded(at, _, response) => Loop(l.start, at, Done(Ok(response)))
    case Failed(at, _, count, _, flow, delay) =>
      Loop(l.start, at,
           if flow.Continue? then Ready(Retry(count, delay, flow.error)) else Done(Err(flow.error)))
  }

  predicate Legal(start: real, es: seq<Event>)
    decreases |es|, 0
  {
    es == [] || (var n := |es| - 1; Legal(start, es[..n]) && Enabled(Exec(start, es[..n]), es[n]))
  }

  function Exec(start: real, es: seq<Event>): Loop
    requires Legal(start, es)
    decreases |es|, 1
  {
    if es == [] then Begin(start) else var n := |es| - 1; Apply(Exec(start, es[..n]), es[n])
  }

  lemma Extend(start: real, es: seq<Event>, e: Event)
    requires Legal(start, es) && Enabled(Exec(start, es), e)
    ensures Legal(start, es + [e]) && Exec(start, es + [e]) == Apply(Exec(start, es), e)
  {
    assert (es + [e])[..|es|] == es;
  }

  lemma PrefixLegal(start: real, es: seq<Event>, n: nat)
    requires n <= |es| && Legal(start, es)
    ensures Legal(start, es[..n])
    ensures n < |es| ==> Enabled(Exec(start, es[..n]), es[n])
    decreases |es|
  {
    if n == |es| {
      assert es[..n] == es;
    } else if n < |es| - 1 {
      var m := |es| - 1;
      assert es[..m][..n] == es[..n];
      PrefixLegal(start, es[..m], n);
    }
  }

  // ----- attempt counts

  /** Attempts that ran to completion. */
  function Completed(es: seq<Event>): nat {
    if es == [] then 0
    else
      var last := es[|es| - 1];
      Completed(es[..|es| - 1]) + if last.Succeeded? || last.Failed? then 1 else 0
  }

  /** What a phase says about the number of completed attempts. */
  predicate CountInv(p: Phase, completed: nat) {
    match p
    case Ready(a) => a.Count() == completed && (a.Retry? ==> a.count >= 1)
    case Sleeping(c, _, _, _, _) => c == completed && c >= 1
    case Checking(c, _, _) => c == completed && c >= 1
    case InFlight(c, _, _) => c == completed + 1
    case Done(_) => completed >= 1
  }

  lemma {:induction false} CountsCompleted(start: real, es: seq<Event>)
    requires Legal(start, es)
    ensures CountInv(Exec(start, es).phase, Completed(es))
  {
    if es != [] {
      CountsCompleted(start, es[..|es| - 1]);
    }
  }

  /** The attempt count an event shows to the policies, if it shows one. */
  function Shown(e: Event): Option<nat> {
    match e
    case RemainingTime(_, c, _) => Some(c)
    case ThrottledOut(_, c, _, _) => Some(c)
    case ThrottledOn(_, c, _, _, _) => Some(c)
    case Failed(_, _, c, _, _, _) => Some(c)
    case _ => None
  }

  /** The k-th attempt's failure is judged with count k; every other question, throttled rounds
      included, shows the number of attempts completed so far and leaves it unchanged. */
  lemma AttemptsAreNumbered(start: real, es: seq<Event>, i: nat)
    requires Legal(start, es) && i < |es|
    ensures Shown(es[i]).Some? ==>
      Shown(es[i]).value == Completed(es[..i]) + if es[i].Failed? then 1 else 0
    ensures es[i].ThrottledOn? || es[i].ThrottledOut? ==> Completed(es[..i]) >= 1
  {
    PrefixLegal(start, es, i);
    CountsCompleted(start, es[..i]);
  }

  /** The policy never says Continue once `limit` attempts were made. */
  predicate StopsAt(es: seq<Event>, limit: nat) {
    forall i :: 0 <= i < |es| && es[i].Failed? && es[i].flow.Continue? ==> es[i].count < limit
  }

  lemma {:induction false} RunningBelowLimit(start: real, es: seq<Event>, limit: nat)
    requires Legal(start, es) && StopsAt(es, limit)
    ensures !Exec(start, es).phase.Done? && Completed(es) >= 1 ==> Completed(es) < limit
    ensures Completed(es) <= if limit < 1 then 1 else limit
  {
    if es != [] {
      var n := |es| - 1;
      assert forall i :: 0 <= i < n ==> es[..n][i] == es[i];
      RunningBelowLimit(start, es[..n], limit);
      CountsCompleted(start, es[..n]);
      CountsCompleted(start, es);
    }
  }

  /** Whatever the throttler, the clock and the backoff do, a policy that never continues at
      `limit` attempts allows at most max(1, limit) of them. */
  lemma AttemptLimitHolds(start: real, es: seq<Event>, limit: nat)
    requires Legal(start, es) && StopsAt(es, limit)
    ensures Completed(es) <= if limit < 1 then 1 else limit
  {
    RunningBelowLimit(start, es, limit);
  }

  // ----- backoff

  /** The attempt counts the backoff policy was consulted with, in order. */
  function Consulted(es: seq<Event>): seq<nat> {
    if es == [] then []
    else
      var last := es[|es| - 1];
      Consulted(es[..|es| - 1]) + if last.ThrottledOn? || last.Failed? then [last.count] else []
  }

  /** The backoff policy is consulted with counts of at least one that never decrease. */
  lemma {:induction false} BackoffCountsGrow(start: real, es: seq<Event>)
    requires Legal(start, es)
    ensures forall i :: 0 <= i < |Consulted(es)| ==> 1 <= Consulted(es)[i] <= Completed(es)
    ensures forall i, j :: 0 <= i <= j < |Consulted(es)| ==> Consulted(es)[i] <= Consulted(es)[j]
  {
    if es != [] {
      BackoffCountsGrow(start, es[..|es| - 1]);
      CountsCompleted(start, es[..|es| - 1]);
    }
  }

  // ----- deadlines

  function Max(a: Duration, b: Duration): Duration {
    if a < b then b else a
  }

  /** The environment of a loop with time limit `limit` under an ideal clock: the policy reports at
      most what is left of the limit, sleeps end on time, and attempts stay within the budget
      they are handed. */
  predicate Timely(l: Loop, e: Event, limit: Duration)
    requires Enabled(l, e)
  {
    match e
    case RemainingTime(at, _, remaining) =>
      at == l.clock && remaining.Some? && remaining.value <= Left(limit, at - l.start)
    case Slept(at, delay) => at == l.phase.since + delay
    case Succeeded(at, budget, _) => budget.Some? && at <= l.phase.since + budget.value
    case Failed(at, budget, _, _, _, _) => budget.Some? && at <= l.phase.since + budget.value
    case _ => true
  }

  /** limit - elapsed, saturating at zero. */
  function Left(limit: Duration, elapsed: real): Duration {
    if limit - elapsed < 0.0 then 0.0 else limit - elapsed
  }

  predicate AllTimely(start: real, es: seq<Event>, limit: Duration)
    requires Legal(start, es)
  {
    es == [] ||
    (var n := |es| - 1; AllTimely(start, es[..n], limit) && Timely(Exec(start, es[..n]), es[n], limit))
  }

  /** The largest backoff delay that passed the guard and was slept. */
  function LongestSleep(start: real, es: seq<Event>): Duration
    requires Legal(start, es)
  {
    if es == [] then 0.0
    else
      var p := Exec(start, es).phase;
      Max(LongestSleep(start, es[..|es| - 1]), if p.Sleeping? then p.delay else 0.0)
  }

  predicate DeadlineInv(l: Loop, limit: Duration, longest: Duration) {
    && longest <= limit
    && l.start <= l.clock <= l.start + limit + longest
    && match l.phase
       case Sleeping(_, delay, _, budget, since) =>
         && budget.Some? && delay <= budget.value && delay <= longest
         && since == l.clock && budget.value <= Left(limit, since - l.start)
       case Checking(_, _, budget) =>
         budget.Some? && l.clock + budget.value <= l.start + limit + longest
       case InFlight(_, budget, since) =>
         budget.Some? && since + budget.value <= l.start + limit + longest
       case _ => true
  }

  lemma StepKeepsDeadline(l: Loop, e: Event, limit: Duration, longest: Duration)
    requires DeadlineInv(l, limit, longest) && Enabled(l, e) && Timely(l, e, limit)
    ensures var l' := Apply(l, e);
      DeadlineInv(l', limit, Max(longest, if l'.phase.Sleeping? then l'.phase.delay else 0.0))
  {
  }

  lemma {:induction false} TimelyRunMeetsDeadline(start: real, es: seq<Event>, limit: Duration)
    requires Legal(start, es) && AllTimely(start, es, limit)
    ensures DeadlineInv(Exec(start, es), limit, LongestSleep(start, es))
  {
    if es != [] {
      var n := |es| - 1;
      TimelyRunMeetsDeadline(start, es[..n], limit);
      StepKeepsDeadline(Exec(start, es[..n]), es[n], limit, LongestSleep(start, es[..n]));
    }
  }

  /** Whatever is throttled, every return happens within the time limit plus the longest delay
      that passed the guard, which is itself at most the limit; and a sleep that starts before the
      deadline ends no later than it. */
  lemma ReturnsNearDeadline(start: real, es: seq<Event>, limit: Duration)
    requires Legal(start, es) && AllTimely(start, es, limit)
    ensures var l := Exec(start, es);
      && LongestSleep(start, es) <= limit
      && (l.phase.Done? ==> l.clock <= start + limit + LongestSleep(start, es))
      && (l.phase.Sleeping? && l.phase.since < start + limit ==>
            l.phase.since + l.phase.delay <= start + limit)
  {
    TimelyRunMeetsDeadline(start, es, limit);
    StartIsKept(start, es);
  }

  lemma {:induction false} StartIsKept(start: real, es: seq<Event>)
    requires Legal(start, es)
    ensures Exec(start, es).start == start
  {
    if es != [] {
      StartIsKept(start, es[..|es| - 1]);
    }
  }

  /** A timely run from instant 0 that slept at most `delay` and returns at limit + delay. */
  predicate ReturnsAt(es: seq<Event>, limit: Duration, delay: Duration) {
    && Legal(0.0, es) && AllTimely(0.0, es, limit)
    && Exec(0.0, es).phase.Done? && Exec(0.0, es).clock == limit + delay
    && LongestSleep(0.0, es) == delay
  }

  lemma ExtendTimely(es: seq<Event>, e: Event, limit: Duration) returns (longer: seq<Event>)
    requires Legal(0.0, es) && AllTimely(0.0, es, limit)
    requires Enabled(Exec(0.0, es), e) && Timely(Exec(0.0, es), e, limit)
    ensures longer == es + [e] && Legal(0.0, longer) && AllTimely(0.0, longer, limit)
    ensures Exec(0.0, longer) == Apply(Exec(0.0, es), e)
    ensures var p := Exec(0.0, longer).phase;
      LongestSleep(0.0, longer) ==
        Max(LongestSleep(0.0, es), if p.Sleeping? then p.delay else 0.0)
  {
    longer := es + [e];
    assert longer[..|es|] == es;
  }

  /** The first attempt fails at once and the retry's sleep passes the guard. */
  lemma SleepsAtOnce(limit: Duration, delay: Duration, e: Error) returns (es: seq<Event>)
    requires delay <= limit
    ensures Legal(0.0, es) && AllTimely(0.0, es, limit) && LongestSleep(0.0, es) == delay
    ensures Exec(0.0, es) == Loop(0.0, 0.0, Sleeping(1, delay, e, Some(limit), 0.0))
  {
    var s1 := ExtendTimely([], RemainingTime(0.0, 0, Some(limit)), limit);
    var s2 := ExtendTimely(s1, Failed(0.0, Some(limit), 1, e, Continue(e), delay), limit);
    es := ExtendTimely(s2, RemainingTime(0.0, 1, Some(limit)), limit);
  }

  /** The budget of a retry is read before its sleep and used after it, so the bound is met
      exactly: for every limit and every delay up to it some timely run returns at limit + delay. */
  lemma DeadlineBoundIsTight(limit: Duration, delay: Duration, e: Error)
    requires delay <= limit
    ensures exists es :: ReturnsAt(es, limit, delay)
  {
    var s3 := SleepsAtOnce(limit, delay, e);
    var s4 := ExtendTimely(s3, Slept(delay, delay), limit);
    var s5 := ExtendTimely(s4, Admitted(1.0), limit);
    var s6 := ExtendTimely(s5, Succeeded(limit + delay, Some(limit), 0), limit);
    assert ReturnsAt(s6, limit, delay);
  }

  // ----- the loop and the throttler

  /** A throttler verdict recorded in an event is the one the throttler gives. */
  predicate Guides(t: Throttler, e: Event)
    requires Valid(t)
  {
    match e
    case ThrottledOut(draw, _, _, _) => Throttles(t, draw)
    case ThrottledOn(draw, _, _, _, _) => Throttles(t, draw)
    case Admitted(draw) => !Throttles(t, draw)
    case _ => true
  }

  /** The throttler after it was told of an event. */
  function Observe(t: Throttler, e: Event): Throttler {
    match e
    case Succeeded(_, _, _) => OnSuccess(t)
    case Failed(_, _, _, _, flow, _) => OnRetryFailure(t, flow)
    case _ => t
  }

  function Observed(t: Throttler, es: seq<Event>): (t': Throttler)
    ensures Valid(t) ==> Valid(t')
  {
    if es == [] then t else Observe(Observed(t, es[..|es| - 1]), es[|es| - 1])
  }

  predicate AllGuided(t: Throttler, es: seq<Event>)
    requires Valid(t)
  {
    es == [] || (var n := |es| - 1; AllGuided(t, es[..n]) && Guides(Observed(t, es[..n]), es[n]))
  }

  /** A single question to the environment with its answer. */
  datatype Question =
    | AskRemaining(at: real, count: nat, remaining: Option<Duration>)
    | AskSleep(at: real, delay: Duration)
    | AskDraw(draw: real)
    | AskOnThrottle(count: nat, given: Error, stop: bool, returned: Error)
    | AskBackoff(count: nat, delay: Duration)
    | AskInner(at: real, budget: Option<Duration>, answer: Result<int, Error>)
    | AskOnError(count: nat, given: Error, flow: RetryResult)

  /** The questions behind an event, in the order the loop asks them. */
  function QuestionsOf(e: Event): seq<Question> {
    match e
    case RemainingTime(at, count, remaining) => [AskRemaining(at, count, remaining)]
    case Slept(at, delay) => [AskSleep(at, delay)]
    case ThrottledOut(draw, count, given, returned) =>
      [AskDraw(draw), AskOnThrottle(count, given, true, returned)]
    case ThrottledOn(draw, count, given, returned, delay) =>
      [AskDraw(draw), AskOnThrottle(count, given, false, returned), AskBackoff(count, delay)]
    case Admitted(draw) => [AskDraw(draw)]
    case Succeeded(at, budget, response) => [AskInner(at, budget, Ok(response))]
    case Failed(at, budget, count, given, flow, delay) =>
      [AskInner(at, budget, Err(given)), AskOnError(count, given, flow), AskBackoff(count, delay)]
  }

  function Questions(es: seq<Event>): seq<Question> {
    if es == [] then [] else Questions(es[..|es| - 1]) + QuestionsOf(es[|es| - 1])
  }

  // ----- which questions the loop asks, and what it returns

  /** Attempts made so far. */
  function Attempts(qs: seq<Question>): nat {
    if qs == [] then 0 else Attempts(qs[..|qs| - 1]) + if qs[|qs| - 1].AskInner? then 1 else 0
  }

  /** The delay the backoff policy answered last. */
  function LastDelay(qs: seq<Question>): Option<Duration> {
    if qs == [] then None
    else
      var n := |qs| - 1;
      match qs[n]
      case AskBackoff(_, delay) => Some(delay)
      case _ => LastDelay(qs[..n])
  }

  /** The error the retry policy handed back last. */
  function LastReturned(qs: seq<Question>): Option<Error> {
    if qs == [] then None
    else
      var n := |qs| - 1;
      match qs[n]
      case AskOnThrottle(_, _, _, returned) => Some(returned)
      case AskOnError(_, _, flow) => Some(flow.error)
      case _ => LastReturned(qs[..n])
  }

  /** The remaining time the retry policy answered last. */
  function LastBudget(qs: seq<Question>): Option<Duration> {
    if qs == [] then None
    else
      var n := |qs| - 1;
      match qs[n]
      case AskRemaining(_, _, remaining) => remaining
      case _ => LastBudget(qs[..n])
  }

  /** The instant of the last answer that took time. */
  function LastInstant(start: real, qs: seq<Question>): real {
    if qs == [] then start
    else
      var n := |qs| - 1;
      match qs[n]
      case AskRemaining(at, _, _) => at
      case AskSleep(at, _) => at
      case AskInner(at, _, _) => at
      case _ => LastInstant(start, qs[..n])
  }

  /** What the loop returns after the questions `qs`, if it returns: the response of the last attempt; the
      error with which the policy stopped, on a throttled round or after its backoff was asked for; or,
      if less time remains than the delay it must wait, the last error as exhausted. */
  function Returned(qs: seq<Question>): Option<Result<int, Error>> {
    if qs == [] then None
    else
      var n := |qs| - 1;
      match qs[n]
      case AskInner(_, _, Ok(response)) => Some(Ok(response))
      case AskOnThrottle(_, _, true, returned) => Some(Err(returned))
      case AskBackoff(_, _) =>
        if n > 0 && qs[n - 1].AskOnError? && !qs[n - 1].flow.Continue? then Some(Err(qs[n - 1].flow.error))
        else None
      case AskRemaining(_, _, Some(left)) =>
        if LastDelay(qs).Some? && left < LastDelay(qs).value && LastReturned(qs).Some? then
          Some(Err(Exhausted(LastReturned(qs).value)))
        else None
      case _ => None
  }

  /** `q` is what the loop asks after the questions `qs`. Every round starts with the remaining time. The
      first attempt follows at once; a retry first sleeps for the last delay and then passes the throttler,
      which lets it make its attempt within the time that remained, or sends it to the policy with the last
      error. A failure goes to the policy. The backoff is asked for after the policy. */
  predicate Asks(start: real, qs: seq<Question>, q: Question) {
    && Returned(qs).None?
    && if qs == [] then q.AskRemaining? && q.count == 0 && start <= q.at
       else
         match qs[|qs| - 1]
         case AskRemaining(at, _, left) =>
           if LastDelay(qs).None? then q.AskInner? && q.budget == left && at <= q.at
           else q.AskSleep? && q.delay == LastDelay(qs).value && at + q.delay <= q.at
         case AskSleep(_, _) => q.AskDraw?
         case AskDraw(_) =>
           if q.AskOnThrottle? then q.count == Attempts(qs) && LastReturned(qs) == Some(q.given)
           else q.AskInner? && q.budget == LastBudget(qs) && LastInstant(start, qs) <= q.at
         case AskOnThrottle(count, _, stop, _) => !stop && q.AskBackoff? && q.count == count
         case AskInner(_, _, answer) =>
           answer.Err? && q.AskOnError? && q.given == answer.error && q.count == Attempts(qs)
         case AskOnError(count, _, _) => q.AskBackoff? && q.count == count
         case AskBackoff(count, _) =>
           q.AskRemaining? && q.count == count == Attempts(qs) && LastInstant(start, qs) <= q.at
  }

  predicate AllAsked(start: real, qs: seq<Question>) {
    qs == [] || (var n := |qs| - 1; AllAsked(start, qs[..n]) && Asks(start, qs[..n], qs[n]))
  }

  /** What the loop carries from round to round is what it was told last. */
  predicate Carries(qs: seq<Question>, count: nat, delay: Option<Duration>, previous: Error) {
    && Returned(qs).None? && Attempts(qs) == count && LastReturned(qs) == Some(previous)
    && LastDelay(qs).Some? && (delay.Some? ==> LastDelay(qs) == delay)
  }

  /** Where a loop is after the questions `qs`. */
  predicate Agrees(l: Loop, qs: seq<Question>) {
    && l.clock == LastInstant(l.start, qs)
    && match l.phase
       case Ready(Initial) => qs == []
       case Ready(Retry(count, delay, previous)) =>
         Carries(qs, count, Some(delay), previous) && qs != [] &&
         qs[|qs| - 1].AskBackoff? && qs[|qs| - 1].count == count
       case Sleeping(count, delay, previous, budget, since) =>
         Carries(qs, count, Some(delay), previous) && qs != [] && LastBudget(qs) == budget &&
         qs[|qs| - 1].AskRemaining? && qs[|qs| - 1].at == since
       case Checking(count, previous, budget) =>
         Carries(qs, count, None, previous) && qs != [] && LastBudget(qs) == budget && qs[|qs| - 1].AskSleep?
       case InFlight(count, budget, _) =>
         && Returned(qs).None? && Attempts(qs) + 1 == count && LastBudget(qs) == budget && qs != []
         && (qs[|qs| - 1].AskDraw? || (qs[|qs| - 1].AskRemaining? && LastDelay(qs).None?))
       case Done(result) => Returned(qs) == Some(result)
  }

  lemma AskTwo(qs: seq<Question>, q1: Question, q2: Question)
    ensures qs + [q1, q2] == qs + [q1] + [q2]
  {
  }

  lemma AskThree(qs: seq<Question>, q1: Question, q2: Question, q3: Question)
    ensures qs + [q1, q2, q3] == qs + [q1] + [q2] + [q3]
  {
  }

  /** One question is asked as it should be, and what the loop was told last follows. */
  lemma Ask(start: real, qs: seq<Question>, q: Question) returns (longer: seq<Question>)
    requires AllAsked(start, qs) && Asks(start, qs, q)
    ensures longer == qs + [q] && AllAsked(start, longer)
    ensures Attempts(longer) == Attempts(qs) + if q.AskInner? then 1 else 0
    ensures LastDelay(longer) == if q.AskBackoff? then Some(q.delay) else LastDelay(qs)
    ensures LastReturned(longer) ==
      if q.AskOnThrottle? then Some(q.returned) else if q.AskOnError? then Some(q.flow.error) else LastReturned(qs)
    ensures LastBudget(longer) == if q.AskRemaining? then q.remaining else LastBudget(qs)
    ensures LastInstant(start, longer) ==
      if q.AskRemaining? || q.AskSleep? || q.AskInner? then q.at else LastInstant(start, qs)
  {
    longer := qs + [q];
    assert longer[..|qs|] == qs;
  }

  /** The questions of event `e` are asked in turn, and the loop agrees with them. */
  predicate EventFits(l: Loop, qs: seq<Question>, e: Event)
    requires Enabled(l, e)
  {
    AllAsked(l.start, qs + QuestionsOf(e)) && Agrees(Apply(l, e), qs + QuestionsOf(e))
  }

  lemma ThrottledOutFits(l: Loop, qs: seq<Question>, e: Event)
    requires AllAsked(l.start, qs) && Agrees(l, qs) && Enabled(l, e) && e.ThrottledOut?
    ensures EventFits(l, qs, e)
  {
    var ask := AskOnThrottle(e.count, e.given, true, e.returned);
    var q1 := Ask(l.start, qs, AskDraw(e.draw));
    var q2 := Ask(l.start, q1, ask);
    AskTwo(qs, AskDraw(e.draw), ask);
  }

  lemma ThrottledOnFits(l: Loop, qs: seq<Question>, e: Event)
    requires AllAsked(l.start, qs) && Agrees(l, qs) && Enabled(l, e) && e.ThrottledOn?
    ensures EventFits(l, qs, e)
  {
    var ask := AskOnThrottle(e.count, e.given, false, e.returned);
    var q1 := Ask(l.start, qs, AskDraw(e.draw));
    var q2 := Ask(l.start, q1, ask);
    var q3 := Ask(l.start, q2, AskBackoff(e.count, e.delay));
    AskThree(qs, AskDraw(e.draw), ask, AskBackoff(e.count, e.delay));
  }

  lemma FailedFits(l: Loop, qs: seq<Question>, e: Event)
    requires AllAsked(l.start, qs) && Agrees(l, qs) && Enabled(l, e) && e.Failed?
    ensures EventFits(l, qs, e)
  {
    var inner, ask := AskInner(e.at, e.budget, Err(e.given)), AskOnError(e.count, e.given, e.flow);
    var q1 := Ask(l.start, qs, inner);
    var q2 := Ask(l.start, q1, ask);
    var q3 := Ask(l.start, q2, AskBackoff(e.count, e.delay));
    AskThree(qs, inner, ask, AskBackoff(e.count, e.delay));
  }

  lemma RemainingFits(l: Loop, qs: seq<Question>, e: Event)
    requires AllAsked(l.start, qs) && Agrees(l, qs) && Enabled(l, e) && e.RemainingTime?
    ensures EventFits(l, qs, e)
  {
    var q1 := Ask(l.start, qs, AskRemaining(e.at, e.count, e.remaining));
  }

  lemma SleptFits(l: Loop, qs: seq<Question>, e: Event)
    requires AllAsked(l.start, qs) && Agrees(l, qs) && Enabled(l, e)
    requires e.Slept? || e.Admitted? || e.Succeeded?
    ensures EventFits(l, qs, e)
  {
    match e
    case Slept(at, delay) => var q1 := Ask(l.start, qs, AskSleep(at, delay));
    case Admitted(draw) => var q1 := Ask(l.start, qs, AskDraw(draw));
    case Succeeded(at, budget, r) => var q1 := Ask(l.start, qs, AskInner(at, budget, Ok(r)));
  }

  lemma EveryEventFits(l: Loop, qs: seq<Question>, e: Event)
    requires AllAsked(l.start, qs) && Agrees(l, qs) && Enabled(l, e)
    ensures EventFits(l, qs, e)
  {
    match e
    case ThrottledOut(_, _, _, _) => ThrottledOutFits(l, qs, e);
    case ThrottledOn(_, _, _, _, _) => ThrottledOnFits(l, qs, e);
    case Failed(_, _, _, _, _, _) => FailedFits(l, qs, e);
    case RemainingTime(_, _, _) => RemainingFits(l, qs, e);
    case _ => SleptFits(l, qs, e);
  }

  /** In every run each question is the one the loop asks after those before it, and the loop has returned
      exactly what they say it returns, if anything. */
  lemma {:induction false} QuestionsDecide(start: real, es: seq<Event>)
    requires Legal(start, es)
    ensures AllAsked(start, Questions(es)) && Exec(start, es).start == start
    ensures Agrees(Exec(start, es), Questions(es))
    ensures Returned(Questions(es)) ==
      if Exec(start, es).phase.Done? then Some(Exec(start, es).phase.result) else None
  {
    if es != [] {
      var n := |es| - 1;
      QuestionsDecide(start, es[..n]);
      EveryEventFits(Exec(start, es[..n]), Questions(es[..n]), es[n]);
    }
  }

  /** Rounds of the loop that a run entered. */
  function Rounds(es: seq<Event>): nat {
    if es == [] then 0
    else Rounds(es[..|es| - 1]) + if es[|es| - 1].RemainingTime? then 1 else 0
  }

  /** Everything the loop cannot see into: the retry and backoff policies, the clock, the sleep,
      the random source and the attempt. Each answers as it likes; `asked` records the answers. */
  class Environment {
    var clock: real
    ghost var asked: seq<Question>

    constructor (now: real)
      ensures clock == now && asked == []
    {
      clock, asked := now, [];
    }

    method SomeDuration() returns (d: Duration)
    {
      var x: real := *;
      d := if x < 0.0 then -x else x;
    }

    method AwaitUntil(earliest: real)
      modifies this`clock
      ensures clock >= earliest
    {
      var late: real := *;
      clock := if late < 0.0 then earliest - late else earliest + late;
    }

    method RemainingTime(count: nat) returns (remaining: Option<Duration>)
      modifies this
      ensures clock >= old(clock) && asked == old(asked) + [AskRemaining(clock, count, remaining)]
    {
      AwaitUntil(clock);
      var limited: bool := *;
      if limited {
        var left := SomeDuration();
        remaining := Some(left);
      } else {
        remaining := None;
      }
      asked := asked + [AskRemaining(clock, count, remaining)];
    }

    method Sleep(delay: Duration)
      modifies this
      ensures clock >= old(clock) + delay && asked == old(asked) + [AskSleep(clock, delay)]
    {
      AwaitUntil(clock + delay);
      asked := asked + [AskSleep(clock, delay)];
    }

    method Draw() returns (draw: real)
      modifies this`asked
      ensures asked == old(asked) + [AskDraw(draw)]
    {
      draw := *;
      asked := asked + [AskDraw(draw)];
    }

    method OnThrottle(count: nat, given: Error) returns (stop: bool, returned: Error)
      modifies this`asked
      ensures asked == old(asked) + [AskOnThrottle(count, given, stop, returned)]
    {
      stop, returned := *, *;
      asked := asked + [AskOnThrottle(count, given, stop, returned)];
    }

    method Backoff(count: nat) returns (delay: Duration)
      modifies this`asked
      ensures asked == old(asked) + [AskBackoff(count, delay)]
    {
      delay := SomeDuration();
      asked := asked + [AskBackoff(count, delay)];
    }

    method Inner(budget: Option<Duration>) returns (answer: Result<int, Error>)
      modifies this
      ensures clock >= old(clock) && asked == old(asked) + [AskInner(clock, budget, answer)]
    {
      AwaitUntil(clock);
      answer := *;
      asked := asked + [AskInner(clock, budget, answer)];
    }

    method OnError(count: nat, given: Error) returns (flow: RetryResult)
      modifies this`asked
      ensures asked == old(asked) + [AskOnError(count, given, flow)]
    {
      flow := *;
      asked := asked + [AskOnError(count, given, flow)];
    }
  }

  /** The events of a run, what it started from and where it has come to. */
  datatype Trace = Trace(
    start: real, throttler0: Throttler, asked0: seq<Question>, es: seq<Event>,
    loop: Loop, throttler: Throttler, asked: seq<Question>, rounds: nat)
  {
    ghost predicate IsRun() {
      && Valid(throttler0) && Valid(throttler)
      && Legal(start, es) && loop == Exec(start, es)
      && AllGuided(throttler0, es) && throttler == Observed(throttler0, es)
      && asked == asked0 + Questions(es) && rounds == Rounds(es)
    }

    ghost function Then(e: Event): Trace
      requires Enabled(loop, e)
    {
      Trace(start, throttler0, asked0, es + [e], Apply(loop, e), Observe(throttler, e),
            asked + QuestionsOf(e), rounds + if e.RemainingTime? then 1 else 0)
    }

    lemma Append(e: Event)
      requires IsRun() && Enabled(loop, e) && Guides(throttler, e)
      ensures Then(e).IsRun()
    {
      assert (es + [e])[..|es|] == es;
      assert asked0 + (Questions(es) + QuestionsOf(e)) == asked + QuestionsOf(e);
    }

    /** The questions since the start tell what the loop asks and returns. */
    lemma Decides()
      requires IsRun()
      ensures asked0 <= asked && AllAsked(start, asked[|asked0|..])
      ensures Returned(asked[|asked0|..]) == if loop.phase.Done? then Some(loop.phase.result) else None
    {
      QuestionsDecide(start, es);
      assert asked[|asked0|..] == Questions(es);
    }

    /** Both traces started from the same loop start, throttler and questions. */
    predicate SameOrigin(other: Trace) {
      start == other.start && throttler0 == other.throttler0 && asked0 == other.asked0
    }
  }

  /** How a part of a round ends: the loop returns, starts over, or goes on to the attempt. */
  datatype Verdict = Return(result: Result<int, Error>) | Again(attempt: Attempt) | Proceed

  /** The phase a verdict leads to. */
  function Onward(v: Verdict, count: nat, budget: Option<Duration>, clock: real): Phase {
    match v
    case Return(r) => Done(r)
    case Again(a) => Ready(a)
    case Proceed => InFlight(count, budget, clock)
  }

  /** A retry's turn at the throttler, after its sleep. */
  method PassThrottler(env: Environment, throttler: SharedThrottler, attempt: Attempt,
                       budget: Option<Duration>, ghost tr: Trace)
    returns (v: Verdict, ghost e: Event)
    requires Valid(throttler.state) && attempt.Retry?
    requires tr.loop == Loop(tr.start, env.clock, Checking(attempt.count, attempt.previous, budget))
    modifies env`asked
    ensures Enabled(tr.loop, e) && Guides(throttler.state, e) && !e.RemainingTime?
    ensures Apply(tr.loop, e) == Loop(tr.start, env.clock, Onward(v, attempt.count + 1, budget, env.clock))
    ensures Observe(throttler.state, e) == throttler.state
    ensures env.asked == old(env.asked) + QuestionsOf(e)
  {
    var draw := env.Draw();
    var throttle := throttler.ThrottleRetryAttempt(draw);
    if !throttle {
      return Proceed, Admitted(draw);
    }
    var stop, error := env.OnThrottle(attempt.count, attempt.previous);
    if stop {
      return Return(Err(error)), ThrottledOut(draw, attempt.count, attempt.previous, error);
    }
    var delay := env.Backoff(attempt.count);
    v := Again(Retry(attempt.count, delay, error));
    return v, ThrottledOn(draw, attempt.count, attempt.previous, error, delay);
  }

  /** An attempt's questions and the verdict they lead to. */
  predicate Judged(qs: seq<Question>, count: nat, budget: Option<Duration>, v: Verdict) {
    qs != [] && qs[0].AskInner? && qs[0].budget == budget &&
    match qs[0].answer
    case Ok(response) => |qs| == 1 && v == Return(Ok(response))
    case Err(error) =>
      && |qs| == 3 && qs[1].AskOnError? && qs[1].count == count && qs[1].given == error
      && qs[2].AskBackoff? && qs[2].count == count
      && v == (match qs[1].flow
               case Continue(e) => Again(Retry(count, qs[2].delay, e))
               case Stop(e) => Return(Err(e))
               case Permanent(e) => Return(Err(e)))
  }

  /** The attempt itself and what its outcome means. */
  method MakeAttempt(env: Environment, throttler: SharedThrottler, count: nat,
                     budget: Option<Duration>, ghost tr: Trace)
    returns (v: Verdict, ghost e: Event)
    requires Valid(throttler.state)
    requires tr.loop == Loop(tr.start, env.clock, InFlight(count, budget, env.clock))
    modifies env, throttler
    ensures Enabled(tr.loop, e) && Guides(old(throttler.state), e) && !e.RemainingTime? && !v.Proceed?
    ensures Apply(tr.loop, e) == Loop(tr.start, env.clock, Onward(v, count, budget, env.clock))
    ensures Valid(throttler.state) && throttler.state == Observe(old(throttler.state), e)
    ensures env.asked == old(env.asked) + QuestionsOf(e)
    ensures Judged(env.asked[|old(env.asked)|..], count, budget, v)
  {
    var answer := env.Inner(budget);
    match answer {
      case Ok(response) =>
        throttler.RecordSuccess();
        return Return(Ok(response)), Succeeded(env.clock, budget, response);
      case Err(error) =>
        var flow := env.OnError(count, error);
        var delay := env.Backoff(count);
        throttler.RecordRetryFailure(flow);
        v := if flow.Continue? then Again(Retry(count, delay, flow.error)) else Return(Err(flow.error));
        return v, Failed(env.clock, budget, count, error, flow, delay);
    }
  }

  /** The trace belongs to the current clock, throttler and questions. */
  ghost predicate InStep(tr: Trace, env: Environment, throttler: SharedThrottler,
                         phase: Phase)
    reads env, throttler
  {
    tr.IsRun() && tr.loop == Loop(tr.start, env.clock, phase) && tr.throttler == throttler.state &&
    env.asked == tr.asked
  }

  /** `retry_loop`, observed for up to `rounds` rounds; `None` means it is still running. Its events
      are a run of the machine, with the throttler's own verdicts and the environment's answers; it asks
      what the loop is to ask and returns what the answers say. */
  method Run(env: Environment, throttler: SharedThrottler, rounds: nat)
    returns (result: Option<Result<int, Error>>, ghost tr: Trace)
    requires Valid(throttler.state)
    modifies env, throttler
    ensures tr.IsRun() && tr.start == old(env.clock)
    ensures tr.throttler0 == old(throttler.state) && throttler.state == tr.throttler
    ensures tr.asked0 == old(env.asked) && env.asked == tr.asked
    ensures result.Some? ==> tr.loop.phase == Done(result.value)
    ensures result.None? ==> tr.loop.phase.Ready? && tr.rounds == rounds
    ensures old(env.asked) <= env.asked && AllAsked(old(env.clock), env.asked[|old(env.asked)|..])
    ensures result == Returned(env.asked[|old(env.asked)|..])
  {
    var attempt: Attempt := Initial;
    ghost var start, state := env.clock, throttler.state;
    tr := Trace(start, state, env.asked, [], Begin(start), state, env.asked, 0);
    ghost var tr0 := tr;
    var left := rounds;
    while left > 0
      invariant tr.SameOrigin(tr0) && tr.rounds + left == rounds
      invariant InStep(tr, env, throttler, Ready(attempt))
    {
      left := left - 1;
      var v;
      v, tr := RunRound(env, throttler, attempt, tr);
      if v.Return? {
        tr.Decides();
        return Some(v.result), tr;
      }
      attempt := v.attempt;
    }
    tr.Decides();
    return None, tr;
  }

  /** A retry's sleep, then its turn at the throttler. */
  method SleepAndPass(env: Environment, throttler: SharedThrottler, attempt: Attempt,
                      budget: Option<Duration>, ghost tr0: Trace)
    returns (v: Verdict, ghost tr: Trace)
    requires attempt.Retry?
    requires InStep(tr0, env, throttler,
                    Sleeping(attempt.count, attempt.delay, attempt.previous, budget, env.clock))
    modifies env
    ensures tr.rounds == tr0.rounds && tr.SameOrigin(tr0)
    ensures InStep(tr, env, throttler, Onward(v, attempt.count + 1, budget, env.clock))
  {
    env.Sleep(attempt.delay);
    ghost var slept := Slept(env.clock, attempt.delay);
    tr0.Append(slept);
    ghost var tr1 := tr0.Then(slept);
    ghost var e;
    v, e := PassThrottler(env, throttler, attempt, budget, tr1);
    tr1.Append(e);
    tr := tr1.Then(e);
  }

  /** An attempt, recorded in the trace. */
  method AttemptAndJudge(env: Environment, throttler: SharedThrottler, count: nat,
                         budget: Option<Duration>, ghost tr0: Trace)
    returns (v: Verdict, ghost tr: Trace)
    requires InStep(tr0, env, throttler, InFlight(count, budget, env.clock))
    modifies env, throttler
    ensures !v.Proceed? && tr.rounds == tr0.rounds && tr.SameOrigin(tr0)
    ensures InStep(tr, env, throttler, Onward(v, 0, None, 0.0))
  {
    ghost var e;
    v, e := MakeAttempt(env, throttler, count, budget, tr0);
    tr0.Append(e);
    tr := tr0.Then(e);
  }

  /** One round of the loop. */
  method RunRound(env: Environment, throttler: SharedThrottler, attempt: Attempt,
                  ghost tr0: Trace)
    returns (v: Verdict, ghost tr: Trace)
    requires InStep(tr0, env, throttler, Ready(attempt))
    modifies env, throttler
    ensures !v.Proceed? && tr.rounds == tr0.rounds + 1
    ensures tr.SameOrigin(tr0)
    ensures InStep(tr, env, throttler, Onward(v, 0, None, 0.0))
  {
    var count := attempt.Count();
    var remaining := env.RemainingTime(count);
    ghost var asking := Event.RemainingTime(env.clock, count, remaining);
    tr0.Append(asking);
    tr := tr0.Then(asking);
    if attempt.Retry? {
      if remaining.Some? && remaining.value < attempt.delay {
        return Return(Err(Exhausted(attempt.previous))), tr;
      }
      v, tr := SleepAndPass(env, throttler, attempt, remaining, tr);
      if !v.Proceed? {
        return v, tr;
      }
    }
    v, tr := AttemptAndJudge(env, throttler, count + 1, remaining, tr);
  }
}
