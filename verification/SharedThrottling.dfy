/** Any number of retry loops that share one throttler, interleaved event by event. */
module SharedThrottling {
  import opened Resources
  import opened RetryThrottler
  import opened RetryLoop

  datatype System = System(throttler: Throttler, loops: seq<Loop>)

  /** A new request starts its loop, or the loop of request `id` meets its environment. */
  datatype Move = Launch(at: real) | Do(id: nat, event: Event)

  predicate CanMove(s: System, m: Move)
    requires Valid(s.throttler)
  {
    match m
    case Launch(_) => true
    case Do(id, e) => id < |s.loops| && RetryLoop.Enabled(s.loops[id], e) && Guides(s.throttler, e)
  }

  function Make(s: System, m: Move): (s': System)
    requires Valid(s.throttler) && CanMove(s, m)
    ensures Valid(s'.throttler)
  {
    match m
    case Launch(at) => s.(loops := s.loops + [Begin(at)])
    case Do(id, e) =>
      System(Observe(s.throttler, e), s.loops[id := RetryLoop.Apply(s.loops[id], e)])
  }

  predicate Possible(t: Throttler, moves: seq<Move>)
    requires Valid(t)
    decreases |moves|, 0
  {
    moves == [] ||
    (var n := |moves| - 1; Possible(t, moves[..n]) && CanMove(Reach(t, moves[..n]), moves[n]))
  }

  function Reach(t: Throttler, moves: seq<Move>): (s: System)
    requires Valid(t) && Possible(t, moves)
    ensures Valid(s.throttler)
    decreases |moves|, 1
  {
    if moves == [] then System(t, []) else var n := |moves| - 1; Make(Reach(t, moves[..n]), moves[n])
  }

  /** What a move contributes to the events of request `id`. */
  function Share(m: Move, id: nat): seq<Event> {
    if m.Do? && m.id == id then [m.event] else []
  }

  /** The events of request `id`. */
  function EventsOf(moves: seq<Move>, id: nat): seq<Event> {
    if moves == [] then []
    else EventsOf(moves[..|moves| - 1], id) + Share(moves[|moves| - 1], id)
  }

  predicate IsRun(l: Loop, es: seq<Event>) {
    RetryLoop.Legal(l.start, es) && RetryLoop.Exec(l.start, es) == l
  }

  lemma MoveExtendsRun(s: System, m: Move, id: nat, es: seq<Event>)
    requires Valid(s.throttler) && CanMove(s, m) && id < |s.loops| && IsRun(s.loops[id], es)
    ensures IsRun(Make(s, m).loops[id], es + Share(m, id))
  {
    if m.Do? && m.id == id {
      RetryLoop.Extend(s.loops[id].start, es, m.event);
    } else {
      assert es + Share(m, id) == es;
    }
  }

  /** Whatever the others do to the throttler, the loop of each request is a run of its own, so what
      holds of every run of one loop holds of each of them. */
  lemma {:induction false} EachLoopIsARun(t: Throttler, moves: seq<Move>, id: nat)
    requires Valid(t) && Possible(t, moves) && id < |Reach(t, moves).loops|
    ensures IsRun(Reach(t, moves).loops[id], EventsOf(moves, id))
  {
    var n := |moves| - 1;
    if id < |Reach(t, moves[..n]).loops| {
      EachLoopIsARun(t, moves[..n], id);
      MoveExtendsRun(Reach(t, moves[..n]), moves[n], id, EventsOf(moves[..n], id));
    } else {
      NoEventsBeforeLaunch(t, moves[..n], id);
      assert EventsOf(moves, id) == [];
    }
  }

  lemma {:induction false} NoEventsBeforeLaunch(t: Throttler, moves: seq<Move>, id: nat)
    requires Valid(t) && Possible(t, moves) && |Reach(t, moves).loops| <= id
    ensures EventsOf(moves, id) == []
  {
    if moves != [] {
      NoEventsBeforeLaunch(t, moves[..|moves| - 1], id);
    }
  }

  /** How many moves of a run satisfy `p`. */
  function Tally(moves: seq<Move>, p: Move -> bool): nat {
    if moves == [] then 0
    else Tally(moves[..|moves| - 1], p) + if p(moves[|moves| - 1]) then 1 else 0
  }

  predicate IsCompleted(m: Move) {
    m.Do? && (m.event.Succeeded? || m.event.Failed?)
  }

  predicate IsAccepted(m: Move) {
    m.Do? && (m.event.Succeeded? || (m.event.Failed? && m.event.flow.Permanent?))
  }

  /** A retry, not a first attempt, that failed with Continue or Exhausted. */
  predicate IsFailedRetry(m: Move) {
    m.Do? && m.event.Failed? && m.event.count >= 2 && !m.event.flow.Permanent?
  }

  /** In any interleaving the adaptive throttler counts exactly the completed attempts and the
      accepted ones, throttled rounds count for neither, and its rejection probability stays in
      [0, 1). */
  lemma {:induction false} AdaptiveCountsAttempts(factor: real, moves: seq<Move>)
    requires Possible(ClampAdaptive(factor), moves)
    ensures Reach(ClampAdaptive(factor), moves).throttler ==
      Adaptive(Tally(moves, IsAccepted) as real, Tally(moves, IsCompleted) as real,
               ClampAdaptive(factor).factor)
    ensures 0.0 <= RejectProbability(Reach(ClampAdaptive(factor), moves).throttler) < 1.0
  {
    if moves != [] {
      AdaptiveCountsAttempts(factor, moves[..|moves| - 1]);
    }
    RejectProbabilityInRange(Reach(ClampAdaptive(factor), moves).throttler);
  }

  // ----- which retries are throttled

  predicate IsAdmitted(m: Move) {
    m.Do? && m.event.Admitted?
  }

  predicate IsThrottled(m: Move) {
    m.Do? && (m.event.ThrottledOut? || m.event.ThrottledOn?)
  }

  lemma {:induction false} PossiblePrefix(t: Throttler, moves: seq<Move>, n: nat)
    requires Valid(t) && Possible(t, moves) && n <= |moves|
    ensures Possible(t, moves[..n]) && (n < |moves| ==> CanMove(Reach(t, moves[..n]), moves[n]))
    decreases |moves|
  {
    if n == |moves| {
      assert moves[..n] == moves;
    } else {
      var m := |moves| - 1;
      assert moves[..m][..n] == moves[..n];
      if n < m {
        PossiblePrefix(t, moves[..m], n);
      }
    }
  }

  /** `n` completed and `a` accepted attempts, weighted by `factor`, reject the draw. */
  predicate CountsReject(factor: real, n: nat, a: nat, draw: real) {
    draw <= 0.0 || draw * (n as real + 1.0) <= n as real - factor * a as real
  }

  lemma CountsDecide(factor: real, n: nat, a: nat, draw: real)
    requires factor >= 0.0 && a <= n
    ensures Throttles(Adaptive(a as real, n as real, factor), draw) <==> CountsReject(factor, n, a, draw)
  {
    ThrottlesIffRejects(Adaptive(a as real, n as real, factor), draw);
  }

  /** In any interleaving a retry passes the adaptive throttler with draw d > 0 exactly if
      d * (n + 1) > n - factor * a, where n attempts have completed and a of them were accepted so far; a
      negative factor counts as zero. */
  lemma AdaptiveVerdicts(factor: real, moves: seq<Move>, i: nat)
    requires Possible(ClampAdaptive(factor), moves) && i < |moves|
    ensures var n, a := Tally(moves[..i], IsCompleted), Tally(moves[..i], IsAccepted);
      var f := if factor < 0.0 then 0.0 else factor;
      && (IsAdmitted(moves[i]) ==> !CountsReject(f, n, a, moves[i].event.draw))
      && (IsThrottled(moves[i]) ==> CountsReject(f, n, a, moves[i].event.draw))
  {
    PossiblePrefix(ClampAdaptive(factor), moves, i);
    AdaptiveCountsAttempts(factor, moves[..i]);
    if IsAdmitted(moves[i]) || IsThrottled(moves[i]) {
      CountsDecide(ClampAdaptive(factor).factor, Tally(moves[..i], IsCompleted), Tally(moves[..i], IsAccepted),
                   moves[i].event.draw);
    }
  }

  lemma NoDrawRejected(factor: real, n: nat, a: nat, draw: real)
    requires n as real <= factor * a as real && draw > 0.0
    ensures !CountsReject(factor, n, a, draw)
  {
    assert draw * (n as real + 1.0) > 0.0;
  }

  lemma SomeDrawRejected(factor: real, n: nat, a: nat) returns (draw: real)
    requires n as real > factor * a as real
    ensures draw > 0.0 && CountsReject(factor, n, a, draw)
  {
    var excess := n as real - factor * a as real;
    draw := excess / (n as real + 1.0);
    assert draw * (n as real + 1.0) == excess;
  }

  lemma AcceptsNeverRejectMore(factor: real, n: nat, a: nat, more: nat, draw: real)
    requires factor >= 0.0 && a <= more
    ensures CountsReject(factor, n, more, draw) ==> CountsReject(factor, n, a, draw)
  {
    assert factor * (more as real - a as real) >= 0.0;
  }

  /** What the adaptive throttler says after a run. */
  predicate ThrottlesAfter(factor: real, moves: seq<Move>, draw: real)
    requires Possible(ClampAdaptive(factor), moves)
  {
    Throttles(Reach(ClampAdaptive(factor), moves).throttler, draw)
  }

  lemma CountsDecideAfter(factor: real, moves: seq<Move>, draw: real)
    requires Possible(ClampAdaptive(factor), moves)
    ensures ThrottlesAfter(factor, moves, draw) <==>
      CountsReject(ClampAdaptive(factor).factor, Tally(moves, IsCompleted), Tally(moves, IsAccepted), draw)
  {
    AdaptiveCountsAttempts(factor, moves);
    CountsDecide(ClampAdaptive(factor).factor, Tally(moves, IsCompleted), Tally(moves, IsAccepted), draw);
  }

  /** In any interleaving no draw above zero is throttled if and only if the completed attempts are at most
      factor times the accepted ones. */
  lemma NothingThrottledIff(factor: real, moves: seq<Move>)
    requires Possible(ClampAdaptive(factor), moves)
    ensures (forall draw :: draw > 0.0 ==> !ThrottlesAfter(factor, moves, draw)) <==>
      Tally(moves, IsCompleted) as real <= (if factor < 0.0 then 0.0 else factor) * Tally(moves, IsAccepted) as real
  {
    var f, n, a := ClampAdaptive(factor).factor, Tally(moves, IsCompleted), Tally(moves, IsAccepted);
    if n as real <= f * a as real {
      forall draw | draw > 0.0
        ensures !ThrottlesAfter(factor, moves, draw)
      {
        CountsDecideAfter(factor, moves, draw);
        NoDrawRejected(f, n, a, draw);
      }
    } else {
      var draw := SomeDrawRejected(f, n, a);
      CountsDecideAfter(factor, moves, draw);
    }
  }

  /** More accepted attempts never throttle more: of two runs with as many completed attempts, the one with
      more accepted ones throttles no draw that the other does not. */
  lemma AcceptsNeverThrottleMore(factor: real, moves: seq<Move>, better: seq<Move>, draw: real)
    requires Possible(ClampAdaptive(factor), moves) && Possible(ClampAdaptive(factor), better)
    requires Tally(moves, IsCompleted) == Tally(better, IsCompleted)
    requires Tally(moves, IsAccepted) <= Tally(better, IsAccepted)
    ensures ThrottlesAfter(factor, better, draw) ==> ThrottlesAfter(factor, moves, draw)
  {
    CountsDecideAfter(factor, moves, draw);
    CountsDecideAfter(factor, better, draw);
    AcceptsNeverRejectMore(ClampAdaptive(factor).factor, Tally(moves, IsCompleted), Tally(moves, IsAccepted),
                           Tally(better, IsAccepted), draw);
  }

  /** A failure a circuit breaker charges for. */
  predicate IsCharged(m: Move) {
    m.Do? && m.event.Failed? && !m.event.flow.Permanent?
  }

  lemma {:induction false} BreakerKeepsSettings(t: Throttler, moves: seq<Move>)
    requires Valid(t) && t.Breaker? && Possible(t, moves)
    ensures var r := Reach(t, moves).throttler; r.Breaker? && r == t.(curTokens := r.curTokens)
  {
    if moves != [] {
      BreakerKeepsSettings(t, moves[..|moves| - 1]);
    }
  }

  /** The tokens of a circuit breaker after the moves. */
  function Tokens(t: Throttler, moves: seq<Move>): (n: nat)
    requires Valid(t) && t.Breaker? && Possible(t, moves)
    ensures n <= t.maxTokens
  {
    BreakerKeepsSettings(t, moves);
    Reach(t, moves).throttler.curTokens
  }

  lemma TokensStep(t: Throttler, moves: seq<Move>)
    requires Valid(t) && t.Breaker? && Possible(t, moves) && moves != []
    ensures var n := |moves| - 1; var cur := Tokens(t, moves[..n]);
      Tokens(t, moves) ==
        if IsAccepted(moves[n]) then (if cur < t.maxTokens then cur + 1 else t.maxTokens)
        else if IsCharged(moves[n]) then (if cur < t.errorCost then 0 else cur - t.errorCost)
        else cur
  {
    BreakerKeepsSettings(t, moves[..|moves| - 1]);
  }

  /** Over any stretch of any interleaving: without an accepted attempt the breaker pays error_cost for
      every other failure until it is empty. */
  lemma {:induction false} BreakerDrains(t: Throttler, pre: seq<Move>, post: seq<Move>)
    requires Valid(t) && t.Breaker? && Possible(t, pre) && Possible(t, pre + post)
    requires Tally(post, IsAccepted) == 0
    ensures var paid := t.errorCost * Tally(post, IsCharged);
      Tokens(t, pre + post) == if Tokens(t, pre) < paid then 0 else Tokens(t, pre) - paid
    decreases |post|
  {
    if post == [] {
      assert pre + post == pre;
    } else {
      var n := |post| - 1;
      assert (pre + post)[..|pre + post| - 1] == pre + post[..n];
      BreakerDrains(t, pre, post[..n]);
      TokensStep(t, pre + post);
      CostStep(t.errorCost, Tally(post[..n], IsCharged));
    }
  }

  /** And without such a failure it earns one token per accepted attempt until it is full. */
  lemma {:induction false} BreakerRecovers(t: Throttler, pre: seq<Move>, post: seq<Move>)
    requires Valid(t) && t.Breaker? && Possible(t, pre) && Possible(t, pre + post)
    requires Tally(post, IsCharged) == 0
    ensures var earned := Tally(post, IsAccepted);
      Tokens(t, pre + post) == if Tokens(t, pre) + earned < t.maxTokens then Tokens(t, pre) + earned else t.maxTokens
    decreases |post|
  {
    if post == [] {
      assert pre + post == pre;
    } else {
      var n := |post| - 1;
      assert (pre + post)[..|pre + post| - 1] == pre + post[..n];
      BreakerRecovers(t, pre, post[..n]);
      TokensStep(t, pre + post);
    }
  }

  /** In any interleaving a retry passes the breaker exactly if more than min_tokens are left. */
  lemma BreakerVerdicts(tokens: nat, minTokens: nat, cost: nat, moves: seq<Move>, i: nat)
    requires Possible(ClampBreaker(tokens, minTokens, cost), moves) && i < |moves|
    ensures Possible(ClampBreaker(tokens, minTokens, cost), moves[..i])
    ensures var left := Tokens(ClampBreaker(tokens, minTokens, cost), moves[..i]);
      && (IsAdmitted(moves[i]) ==> left > minTokens)
      && (IsThrottled(moves[i]) ==> left <= minTokens)
      && (Tally(moves[..i], IsAccepted) == 0 ==>
            var paid := cost * Tally(moves[..i], IsCharged);
            left == if tokens < paid then 0 else tokens - paid)
  {
    var t := ClampBreaker(tokens, minTokens, cost);
    PossiblePrefix(t, moves, i);
    BreakerKeepsSettings(t, moves[..i]);
    assert [] + moves[..i] == moves[..i];
    if Tally(moves[..i], IsAccepted) == 0 {
      BreakerDrains(t, [], moves[..i]);
    }
  }

  // ----- the retry budget of a circuit breaker

  /** Requests run one at a time: each starts after the ones before it returned. */
  predicate OneAtATime(t: Throttler, moves: seq<Move>)
    requires Valid(t) && Possible(t, moves)
  {
    moves == [] ||
    (var n := |moves| - 1;
     OneAtATime(t, moves[..n]) &&
     (moves[n].Launch? ==>
        forall i :: 0 <= i < |Reach(t, moves[..n]).loops| ==>
          Reach(t, moves[..n]).loops[i].phase.Done?))
  }

  /** The request is past its first failure and may still retry. */
  predicate Retrying(l: Loop) {
    match l.phase
    case Ready(a) => a.Retry?
    case Sleeping(_, _, _, _, _) => true
    case Checking(_, _, _) => true
    case InFlight(count, _, _) => count >= 2
    case Done(_) => false
  }

  /** Only the first attempt has no attempt before it. */
  predicate Counted(p: Phase) {
    match p
    case Ready(a) => a.Retry? ==> a.count >= 1
    case Sleeping(count, _, _, _, _) => count >= 1
    case Checking(count, _, _) => count >= 1
    case InFlight(count, _, _) => count >= 1
    case Done(_) => true
  }

  /** Tokens left and failed retries are covered by the initial tokens and what was earned since.
      A retrying request holds the price of its first failure in reserve, unless the breaker is
      empty, in which case it gets no further retry. */
  predicate BudgetInv(max: nat, cost: nat, min: nat, s: System, retries: nat, accepted: nat) {
    && s.throttler.Breaker? && s.throttler.maxTokens == max && s.throttler.errorCost == cost
    && s.throttler.minTokens == min && s.throttler.curTokens <= max
    && (forall i :: 0 <= i < |s.loops| - 1 ==> s.loops[i].phase.Done?)
    && (forall i :: 0 <= i < |s.loops| ==> Counted(s.loops[i].phase))
    && cost * retries <= max + accepted
    && (if s.loops != [] && Retrying(s.loops[|s.loops| - 1]) then
          && (s.throttler.curTokens > 0 ==> cost * (retries + 1) + s.throttler.curTokens <= max + accepted)
          && (s.loops[|s.loops| - 1].phase.InFlight? ==> s.throttler.curTokens > 0)
        else
          cost * retries + s.throttler.curTokens <= max + accepted)
  }

  lemma CostStep(cost: nat, n: nat)
    ensures cost * (n + 1) == cost * n + cost
  {
  }

  lemma MoveKeepsBudget(max: nat, cost: nat, min: nat, s: System, m: Move, retries: nat, accepted: nat)
    requires BudgetInv(max, cost, min, s, retries, accepted) && Valid(s.throttler) && CanMove(s, m)
    requires m.Launch? ==> forall i :: 0 <= i < |s.loops| ==> s.loops[i].phase.Done?
    ensures BudgetInv(max, cost, min, Make(s, m),
                      retries + (if IsFailedRetry(m) then 1 else 0),
                      accepted + (if IsAccepted(m) then 1 else 0))
  {
    CostStep(cost, retries);
    CostStep(cost, retries + 1);
    if m.Do? {
      assert m.id == |s.loops| - 1;
    }
  }

  lemma {:induction false} ReachKeepsBudget(max: nat, min: nat, cost: nat, moves: seq<Move>)
    requires min <= max && Possible(Breaker(max, min, max, cost), moves)
    requires OneAtATime(Breaker(max, min, max, cost), moves)
    ensures BudgetInv(max, cost, min, Reach(Breaker(max, min, max, cost), moves),
                      Tally(moves, IsFailedRetry), Tally(moves, IsAccepted))
  {
    var t := Breaker(max, min, max, cost);
    if moves != [] {
      var n := |moves| - 1;
      ReachKeepsBudget(max, min, cost, moves[..n]);
      MoveKeepsBudget(max, cost, min, Reach(t, moves[..n]), moves[n],
                      Tally(moves[..n], IsFailedRetry), Tally(moves[..n], IsAccepted));
    }
  }

  /** Retry budget: for requests run one at a time on one circuit breaker, however it was built and with
      any parameters, the price of all failed retries is covered by the initial tokens plus one per
      success or permanent error. */
  lemma RetryBudget(tokens: nat, minTokens: nat, cost: nat, moves: seq<Move>)
    requires Possible(ClampBreaker(tokens, minTokens, cost), moves)
    requires OneAtATime(ClampBreaker(tokens, minTokens, cost), moves)
    ensures cost * Tally(moves, IsFailedRetry) <= tokens + Tally(moves, IsAccepted)
  {
    ReachKeepsBudget(tokens, ClampBreaker(tokens, minTokens, cost).minTokens, cost, moves);
  }

  // ----- requests side by side

  predicate InFlightRetry(l: Loop) {
    l.phase.InFlight? && l.phase.count >= 2
  }

  /** The requests with a retry, not a first attempt, in flight, and how many they are. */
  function FlyingSet(loops: seq<Loop>): set<nat> {
    set i: nat | i < |loops| && InFlightRetry(loops[i])
  }

  function Flying(loops: seq<Loop>): nat {
    |FlyingSet(loops)|
  }

  lemma FlyingUpdate(loops: seq<Loop>, i: nat, l: Loop)
    requires i < |loops|
    ensures Flying(loops[i := l]) + (if InFlightRetry(loops[i]) then 1 else 0) ==
            Flying(loops) + if InFlightRetry(l) then 1 else 0
  {
    var others := FlyingSet(loops) - {i};
    assert FlyingSet(loops) == if InFlightRetry(loops[i]) then others + {i} else others;
    assert FlyingSet(loops[i := l]) == if InFlightRetry(l) then others + {i} else others;
  }

  lemma FlyingAppend(loops: seq<Loop>, l: Loop)
    ensures Flying(loops + [l]) == Flying(loops) + if InFlightRetry(l) then 1 else 0
  {
    assert FlyingSet(loops + [l]) ==
      if InFlightRetry(l) then FlyingSet(loops) + {|loops|} else FlyingSet(loops);
  }

  /** At no point of the run are more than `k` retries in flight. */
  predicate AtMostInFlight(t: Throttler, moves: seq<Move>, k: nat)
    requires Valid(t) && Possible(t, moves)
  {
    && Flying(Reach(t, moves).loops) <= k
    && (moves != [] ==> AtMostInFlight(t, moves[..|moves| - 1], k))
  }

  predicate ConcurrentRun(t: Throttler, moves: seq<Move>, k: nat)
    requires Valid(t)
  {
    Possible(t, moves) && AtMostInFlight(t, moves, k)
  }

  /** `full` counts the failures that found their whole price in the breaker. While the breaker holds
      less than one price no retry is admitted, so the retries still in flight were there when the
      last full price was paid. */
  predicate OverlapInv(k: nat, max: nat, cost: nat, min: nat, s: System, full: nat, retries: nat,
                       accepted: nat)
  {
    && s.throttler.Breaker? && s.throttler.maxTokens == max && s.throttler.errorCost == cost
    && s.throttler.minTokens == min && s.throttler.curTokens <= max
    && (forall i :: 0 <= i < |s.loops| ==> Counted(s.loops[i].phase))
    && Flying(s.loops) <= k
    && cost * full + s.throttler.curTokens <= max + accepted
    && retries + (if s.throttler.curTokens < cost then Flying(s.loops) else 0) <= k * full
  }

  /** How a move changes the number of retries in flight. */
  lemma MoveFlies(s: System, m: Move)
    requires Valid(s.throttler) && CanMove(s, m)
    requires forall i :: 0 <= i < |s.loops| ==> Counted(s.loops[i].phase)
    ensures forall i :: 0 <= i < |Make(s, m).loops| ==> Counted(Make(s, m).loops[i].phase)
    ensures IsFailedRetry(m) ==> Flying(Make(s, m).loops) + 1 == Flying(s.loops)
    ensures !(m.Do? && m.event.Admitted?) ==> Flying(Make(s, m).loops) <= Flying(s.loops)
  {
    match m
    case Launch(at) => FlyingAppend(s.loops, Begin(at));
    case Do(id, e) =>
      assert Counted(s.loops[id].phase);
      FlyingUpdate(s.loops, id, RetryLoop.Apply(s.loops[id], e));
  }

  /** The failure is paid for in full. */
  predicate PaysInFull(t: Throttler, m: Move) {
    t.Breaker? && t.errorCost <= t.curTokens && m.Do? && m.event.Failed? && !m.event.flow.Permanent?
  }

  lemma MoveKeepsOverlap(k: nat, max: nat, cost: nat, min: nat, s: System, m: Move, full: nat,
                         retries: nat, accepted: nat)
    requires OverlapInv(k, max, cost, min, s, full, retries, accepted) && cost <= min + 1
    requires Valid(s.throttler) && CanMove(s, m) && Flying(Make(s, m).loops) <= k
    ensures OverlapInv(k, max, cost, min, Make(s, m), full + (if PaysInFull(s.throttler, m) then 1 else 0),
                       retries + (if IsFailedRetry(m) then 1 else 0),
                       accepted + (if IsAccepted(m) then 1 else 0))
  {
    MoveFlies(s, m);
    CostStep(cost, full);
    CostStep(k, full);
  }

  lemma {:induction false} OverlapIsBounded(t: Throttler, moves: seq<Move>, k: nat) returns (full: nat)
    requires t.Breaker? && t.curTokens == t.maxTokens && t.minTokens <= t.maxTokens
    requires Possible(t, moves) && AtMostInFlight(t, moves, k) && t.errorCost <= t.minTokens + 1
    ensures OverlapInv(k, t.maxTokens, t.errorCost, t.minTokens, Reach(t, moves), full,
                       Tally(moves, IsFailedRetry), Tally(moves, IsAccepted))
  {
    if moves == [] {
      full := 0;
    } else {
      var n := |moves| - 1;
      var before := OverlapIsBounded(t, moves[..n], k);
      var s := Reach(t, moves[..n]);
      MoveKeepsOverlap(k, t.maxTokens, t.errorCost, t.minTokens, s, moves[n], before,
                       Tally(moves[..n], IsFailedRetry), Tally(moves[..n], IsAccepted));
      full := before + if PaysInFull(s.throttler, moves[n]) then 1 else 0;
    }
  }

  lemma ScaledBound(k: nat, cost: nat, full: nat, retries: nat, paid: nat)
    requires retries <= k * full && cost * full <= paid
    ensures cost * retries <= k * paid
  {
    assert cost * retries <= cost * (k * full) by {
      assert cost * (k * full - retries) >= 0;
    }
    assert cost * (k * full) == k * (cost * full);
    assert k * (paid - cost * full) >= 0;
  }

  /** With min_tokens at the maximum no retry is ever admitted. */
  lemma {:induction false} ClosedBreakerAdmitsNothing(t: Throttler, moves: seq<Move>)
    requires t.Breaker? && t.curTokens == t.maxTokens == t.minTokens && Possible(t, moves)
    ensures var s := Reach(t, moves);
      && s.throttler.Breaker? && s.throttler.maxTokens == s.throttler.minTokens == t.maxTokens
      && (forall i :: 0 <= i < |s.loops| ==> Counted(s.loops[i].phase))
      && Flying(s.loops) == 0 && Tally(moves, IsFailedRetry) == 0
  {
    if moves != [] {
      var n := |moves| - 1;
      ClosedBreakerAdmitsNothing(t, moves[..n]);
      MoveFlies(Reach(t, moves[..n]), moves[n]);
    }
  }

  /** A request that backed off after its `count`-th attempt, and the same with its next attempt made. */
  function Backed(count: nat): Loop {
    Loop(0.0, 0.0, Ready(Retry(count, 0.0, Other(0))))
  }

  function Airborne(count: nat): Loop {
    Loop(0.0, 0.0, InFlight(count + 1, None, 0.0))
  }

  /** The run never has more than `k` retries in flight and leads to `s` with these tallies. */
  predicate Leads(t: Throttler, k: nat, moves: seq<Move>, s: System, retries: nat, accepted: nat)
    requires Valid(t)
  {
    && ConcurrentRun(t, moves, k) && Reach(t, moves) == s
    && Tally(moves, IsFailedRetry) == retries && Tally(moves, IsAccepted) == accepted
  }

  /** Some run does. */
  ghost predicate Attainable(t: Throttler, k: nat, s: System, retries: nat, accepted: nat)
    requires Valid(t)
  {
    exists moves :: Leads(t, k, moves, s, retries, accepted)
  }

  /** Of the first `k` requests the first `n` are at `next` and the others at `rest`; no other request
      has a retry in flight. */
  predicate Staged(t: Throttler, k: nat, s: System, cur: nat, n: nat, next: Loop, rest: Loop) {
    && t.Breaker? && s.throttler == t.(curTokens := cur)
    && n <= k <= |s.loops|
    && (forall i :: 0 <= i < n ==> s.loops[i] == next)
    && (forall i :: n <= i < k ==> s.loops[i] == rest)
    && Flying(s.loops) == (if InFlightRetry(next) then n else 0) + if InFlightRetry(rest) then k - n else 0
  }

  lemma TallyAppend(moves: seq<Move>, m: Move, p: Move -> bool)
    ensures Tally(moves + [m], p) == Tally(moves, p) + if p(m) then 1 else 0
  {
    assert (moves + [m])[..|moves|] == moves;
  }

  lemma RunAppend(t: Throttler, moves: seq<Move>, m: Move, k: nat)
    requires Valid(t) && ConcurrentRun(t, moves, k) && CanMove(Reach(t, moves), m)
    requires Flying(Make(Reach(t, moves), m).loops) <= k
    ensures ConcurrentRun(t, moves + [m], k) && Reach(t, moves + [m]) == Make(Reach(t, moves), m)
  {
    assert (moves + [m])[..|moves|] == moves;
  }

  lemma Go(t: Throttler, k: nat, s: System, m: Move, retries: nat, accepted: nat) returns (s': System)
    requires Valid(t) && Attainable(t, k, s, retries, accepted)
    requires Valid(s.throttler) && CanMove(s, m) && Flying(Make(s, m).loops) <= k
    ensures s' == Make(s, m)
    ensures Attainable(t, k, s', retries + (if IsFailedRetry(m) then 1 else 0),
                       accepted + if IsAccepted(m) then 1 else 0)
  {
    s' := Make(s, m);
    var moves :| Leads(t, k, moves, s, retries, accepted);
    TallyAppend(moves, m, IsFailedRetry);
    TallyAppend(moves, m, IsAccepted);
    RunAppend(t, moves, m, k);
    assert Leads(t, k, moves + [m], s', retries + (if IsFailedRetry(m) then 1 else 0),
                 accepted + if IsAccepted(m) then 1 else 0);
  }

  /** Where the loop of a new request ends up after its first attempt. */
  function AfterFirst(outcome: Event): Loop {
    if outcome.Succeeded? then Loop(0.0, 0.0, Done(Ok(0))) else Backed(1)
  }

  /** A new request starts and its first attempt ends with `outcome`. */
  lemma FirstAttempt(t: Throttler, k: nat, s: System, outcome: Event, retries: nat, accepted: nat)
    returns (s': System)
    requires Valid(t) && Attainable(t, k, s, retries, accepted) && Valid(s.throttler) && Flying(s.loops) <= k
    requires outcome == Succeeded(0.0, None, 0) ||
             outcome == Failed(0.0, None, 1, Other(0), Continue(Other(0)), 0.0)
    ensures s' == System(Observe(s.throttler, outcome), s.loops + [AfterFirst(outcome)])
    ensures Attainable(t, k, s', retries, accepted + if outcome.Succeeded? then 1 else 0)
    ensures Valid(s'.throttler) && Flying(s'.loops) == Flying(s.loops)
  {
    var id, asked := |s.loops|, Loop(0.0, 0.0, InFlight(1, None, 0.0));
    FlyingAppend(s.loops, Begin(0.0));
    FlyingAppend(s.loops, asked);
    FlyingAppend(s.loops, AfterFirst(outcome));
    var s1 := Go(t, k, s, Launch(0.0), retries, accepted);
    assert s1.loops[id := asked] == s.loops + [asked];
    var s2 := Go(t, k, s1, Do(id, RemainingTime(0.0, 0, None)), retries, accepted);
    assert s2.loops[id := AfterFirst(outcome)] == s.loops + [AfterFirst(outcome)];
    s' := Go(t, k, s2, Do(id, outcome), retries, accepted);
  }

  /** After `n` first failures, at least one token each, all requests back off. */
  lemma {:induction false} Drain(t: Throttler, k: nat, n: nat) returns (s: System)
    requires Valid(t) && t.Breaker? && t.errorCost >= 1
    ensures Attainable(t, k, s, 0, 0)
    ensures |s.loops| == n && (forall i :: 0 <= i < n ==> s.loops[i] == Backed(1)) && Flying(s.loops) == 0
    ensures s.throttler.Breaker? && s.throttler == t.(curTokens := s.throttler.curTokens)
    ensures s.throttler.curTokens == 0 || s.throttler.curTokens + n <= t.curTokens
  {
    if n == 0 {
      s := System(t, []);
      assert Leads(t, k, [], s, 0, 0);
    } else {
      var before := Drain(t, k, n - 1);
      s := FirstAttempt(t, k, before, Failed(0.0, None, 1, Other(0), Continue(Other(0)), 0.0), 0, 0);
    }
  }

  /** `n` new requests succeed and pay one token each. */
  lemma {:induction false} Earn(t: Throttler, k: nat, s: System, n: nat, l: Loop, retries: nat, accepted: nat)
    returns (s': System)
    requires Valid(t) && Attainable(t, k, s, retries, accepted)
    requires Staged(t, k, s, 0, 0, l, l) && n <= t.maxTokens
    ensures Attainable(t, k, s', retries, accepted + n) && Staged(t, k, s', n, 0, l, l)
  {
    if n == 0 {
      s' := s;
    } else {
      var before := Earn(t, k, s, n - 1, l, retries, accepted);
      s' := FirstAttempt(t, k, before, Succeeded(0.0, None, 0), retries, accepted + n - 1);
    }
  }

  /** Request `n` goes from `from` to `to` in an event the throttler is not told of. */
  lemma StepRequest(t: Throttler, k: nat, s: System, n: nat, e: Event, to: Loop, retries: nat, accepted: nat)
    returns (s': System)
    requires Valid(t) && Attainable(t, k, s, retries, accepted) && Valid(s.throttler) && n < |s.loops|
    requires RetryLoop.Enabled(s.loops[n], e) && RetryLoop.Apply(s.loops[n], e) == to
    requires !e.Succeeded? && !e.Failed? && Guides(s.throttler, e)
    requires Flying(s.loops) + (if InFlightRetry(to) then 1 else 0) <= k
    ensures Attainable(t, k, s', retries, accepted) && s' == s.(loops := s.loops[n := to])
    ensures Flying(s'.loops) + (if InFlightRetry(s.loops[n]) then 1 else 0) ==
            Flying(s.loops) + if InFlightRetry(to) then 1 else 0
  {
    FlyingUpdate(s.loops, n, to);
    s' := Go(t, k, s, Do(n, e), retries, accepted);
  }

  /** Request `n` wakes from its back-off and goes to the throttler. */
  lemma WakeOne(t: Throttler, k: nat, s: System, n: nat, count: nat, retries: nat, accepted: nat)
    returns (s': System)
    requires Valid(t) && Attainable(t, k, s, retries, accepted) && n < |s.loops| && s.loops[n] == Backed(count)
    ensures Attainable(t, k, s', retries, accepted) && s'.throttler == s.throttler
    ensures s'.loops == s.loops[n := Loop(0.0, 0.0, Checking(count, Other(0), None))]
    ensures Flying(s'.loops) == Flying(s.loops)
  {
    var sleeping := Loop(0.0, 0.0, Sleeping(count, 0.0, Other(0), None, 0.0));
    var checking := Loop(0.0, 0.0, Checking(count, Other(0), None));
    var s1 := StepRequest(t, k, s, n, RemainingTime(0.0, count, None), sleeping, retries, accepted);
    s' := StepRequest(t, k, s1, n, Slept(0.0, 0.0), checking, retries, accepted);
  }

  /** Request `n` wakes from its back-off and is admitted. */
  lemma AdmitOne(t: Throttler, k: nat, s: System, cur: nat, n: nat, count: nat, retries: nat, accepted: nat)
    returns (s': System)
    requires Valid(t) && Attainable(t, k, s, retries, accepted) && n < k && count >= 1
    requires Staged(t, k, s, cur, n, Airborne(count), Backed(count)) && t.minTokens < cur <= t.maxTokens
    ensures Attainable(t, k, s', retries, accepted)
    ensures Staged(t, k, s', cur, n + 1, Airborne(count), Backed(count))
  {
    var s1 := WakeOne(t, k, s, n, count, retries, accepted);
    s' := StepRequest(t, k, s1, n, Admitted(0.0), Airborne(count), retries, accepted);
    assert s'.loops == s.loops[n := Airborne(count)];
  }

  /** The retry of request `n` fails and leaves the breaker empty. */
  lemma FailOne(t: Throttler, k: nat, s: System, cur: nat, n: nat, count: nat, retries: nat, accepted: nat)
    returns (s': System)
    requires Valid(t) && Attainable(t, k, s, retries, accepted) && n < k && count >= 1
    requires Staged(t, k, s, cur, n, Backed(count + 1), Airborne(count)) && cur <= t.errorCost && cur <= t.maxTokens
    ensures Attainable(t, k, s', retries + 1, accepted)
    ensures Staged(t, k, s', 0, n + 1, Backed(count + 1), Airborne(count))
  {
    FlyingUpdate(s.loops, n, Backed(count + 1));
    var failure := Failed(0.0, None, count + 1, Other(0), Continue(Other(0)), 0.0);
    s' := Go(t, k, s, Do(n, failure), retries, accepted);
  }

  lemma {:induction false} AdmitAll(t: Throttler, k: nat, s: System, cur: nat, n: nat, count: nat,
                                    retries: nat, accepted: nat) returns (s': System)
    requires Valid(t) && Attainable(t, k, s, retries, accepted) && n <= k && count >= 1
    requires Staged(t, k, s, cur, 0, Airborne(count), Backed(count)) && t.minTokens < cur <= t.maxTokens
    ensures Attainable(t, k, s', retries, accepted)
    ensures Staged(t, k, s', cur, n, Airborne(count), Backed(count))
  {
    if n == 0 {
      s' := s;
    } else {
      var before := AdmitAll(t, k, s, cur, n - 1, count, retries, accepted);
      s' := AdmitOne(t, k, before, cur, n - 1, count, retries, accepted);
    }
  }

  lemma {:induction false} FailAll(t: Throttler, k: nat, s: System, cur: nat, n: nat, count: nat,
                                   retries: nat, accepted: nat) returns (s': System)
    requires Valid(t) && Attainable(t, k, s, retries, accepted) && 1 <= n <= k && count >= 1
    requires Staged(t, k, s, cur, 0, Backed(count + 1), Airborne(count)) && cur <= t.errorCost && cur <= t.maxTokens
    ensures Attainable(t, k, s', retries + n, accepted)
    ensures Staged(t, k, s', 0, n, Backed(count + 1), Airborne(count))
  {
    if n == 1 {
      s' := FailOne(t, k, s, cur, 0, count, retries, accepted);
    } else {
      var before := FailAll(t, k, s, cur, n - 1, count, retries, accepted);
      s' := FailOne(t, k, before, 0, n - 1, count, retries + n - 1, accepted);
    }
  }

  /** The breaker earns just enough tokens to open, `k` retries pass on them, and all fail. */
  lemma Overdraw(t: Throttler, k: nat, s: System, count: nat, retries: nat, accepted: nat)
    returns (s': System)
    requires Valid(t) && t.Breaker? && Attainable(t, k, s, retries, accepted) && k >= 1 && count >= 1
    requires Staged(t, k, s, 0, 0, Backed(count), Backed(count))
    requires t.minTokens + 1 < t.errorCost && t.minTokens < t.maxTokens
    ensures Attainable(t, k, s', retries + k, accepted + t.minTokens + 1)
    ensures Staged(t, k, s', 0, 0, Backed(count + 1), Backed(count + 1))
  {
    var open := t.minTokens + 1;
    var s1 := Earn(t, k, s, open, Backed(count), retries, accepted);
    var s2 := AdmitAll(t, k, s1, open, k, count, retries, accepted + open);
    s' := FailAll(t, k, s2, open, k, count, retries, accepted + open);
  }

  lemma {:induction false} OverdrawRepeatedly(t: Throttler, k: nat, n: nat) returns (s: System)
    requires Valid(t) && t.Breaker? && k >= 1
    requires t.minTokens + 1 < t.errorCost && t.minTokens < t.maxTokens
    ensures Attainable(t, k, s, n * k, n * (t.minTokens + 1))
    ensures Staged(t, k, s, 0, 0, Backed(n + 1), Backed(n + 1))
  {
    if n == 0 {
      s := Drain(t, k, t.maxTokens + k);
    } else {
      var before := OverdrawRepeatedly(t, k, n - 1);
      s := Overdraw(t, k, before, n, (n - 1) * k, (n - 1) * (t.minTokens + 1));
    }
  }

  /** The run stays within `k` times the budget. */
  predicate WithinBudget(t: Throttler, moves: seq<Move>, k: nat)
    requires t.Breaker?
  {
    t.errorCost * Tally(moves, IsFailedRetry) <= k * (t.maxTokens + Tally(moves, IsAccepted))
  }

  lemma BudgetSuffices(t: Throttler, moves: seq<Move>, k: nat)
    requires t.Breaker? && t.curTokens == t.maxTokens && t.minTokens <= t.maxTokens
    requires t.errorCost <= t.minTokens + 1 || t.minTokens == t.maxTokens
    requires ConcurrentRun(t, moves, k)
    ensures WithinBudget(t, moves, k)
  {
    if t.minTokens == t.maxTokens {
      ClosedBreakerAdmitsNothing(t, moves);
    } else {
      var full := OverlapIsBounded(t, moves, k);
      ScaledBound(k, t.errorCost, full, Tally(moves, IsFailedRetry), t.maxTokens + Tally(moves, IsAccepted));
    }
  }

  lemma Exceeds(k: nat, cost: nat, open: nat, max: nat, n: nat)
    requires k >= 1 && open + 1 <= cost && n == max + 1
    ensures cost * (n * k) > k * (max + n * open)
  {
    assert cost * n >= (open + 1) * n by {
      assert (cost - (open + 1)) * n >= 0;
    }
    assert cost * n > max + n * open;
    assert k * (cost * n - (max + n * open)) >= 1 by {
      assert (k - 1) * (cost * n - (max + n * open)) >= 0;
    }
    assert cost * (n * k) == k * (cost * n);
  }

  /** Requests side by side: with at most `k` retries in flight at once, the failed retries cost at most
      `k` times the initial tokens plus the earned ones in every run, if and only if an open breaker
      holds the price of a failure (min_tokens + 1 >= error_cost) or never opens at all. */
  lemma ConcurrentBudgetIff(tokens: nat, minTokens: nat, cost: nat, k: nat)
    requires k >= 1
    ensures var t := ClampBreaker(tokens, minTokens, cost);
      (forall moves :: ConcurrentRun(t, moves, k) ==> WithinBudget(t, moves, k))
      <==> cost <= minTokens + 1 || tokens <= minTokens
  {
    var t := ClampBreaker(tokens, minTokens, cost);
    if cost <= minTokens + 1 || tokens <= minTokens {
      forall moves | ConcurrentRun(t, moves, k)
        ensures WithinBudget(t, moves, k)
      {
        BudgetSuffices(t, moves, k);
      }
    } else {
      var n := tokens + 1;
      var s := OverdrawRepeatedly(t, k, n);
      var moves :| Leads(t, k, moves, s, n * k, n * (minTokens + 1));
      Exceeds(k, cost, minTokens + 1, tokens, n);
      assert ConcurrentRun(t, moves, k) && !WithinBudget(t, moves, k);
    }
  }
}
