/** The access boundary channel and its `refresh_task` (src/auth/src/access_boundary.rs). */
module BoundaryRefresh {
  import opened Resources
  import TokenCache
  import opened AccessBoundary

  const HOUR: nat := 3600 * TokenCache.SECOND
  const DEFAULT_TTL: nat := 6 * HOUR
  const REFRESH_SLACK: nat := HOUR
  const COOLDOWN_INTERVAL: nat := 15 * 60 * TokenCache.SECOND

  datatype BoundaryValue = BoundaryValue(value: Option<string>, expiresAt: nat)

  datatype Task = Idle | Requesting(since: nat) | Resting(until: nat) | Ended

  /** `failures` counts the failed fetches since the last success; history only. */
  datatype Boundary = Boundary(
    now: nat, value: Option<BoundaryValue>, tag: EntityTag, task: Task, failures: nat)

  datatype Action =
    | Elapse(time: nat)
    | Poll(receivers: bool)                          // top of the loop
    | Fetched(locations: Option<string>, tag: EntityTag)
    | FetchFailed
    | Rested

  /** A new channel shows no boundary under a fresh tag. */
  function Created(tag: EntityTag): Boundary {
    Boundary(0, None, tag, Idle, 0)
  }

  predicate CanAct(b: Boundary, a: Action) {
    match a
    case Elapse(_) => true
    case Poll(_) => b.task.Idle?
    case Fetched(_, _) => b.task.Requesting?
    case FetchFailed => b.task.Requesting?
    case Rested => b.task.Resting? && b.task.until <= b.now
  }

  function Act(b: Boundary, a: Action): Boundary
    requires CanAct(b, a)
  {
    match a
    case Elapse(d) => b.(now := b.now + d)
    case Poll(receivers) => b.(task := if receivers then Requesting(b.now) else Ended)
    case Fetched(v, t) =>
      b.(value := Some(BoundaryValue(v, b.now + DEFAULT_TTL)), tag := t, failures := 0,
         task := Resting(b.now + (DEFAULT_TTL - REFRESH_SLACK)))
    case FetchFailed => b.(task := Resting(b.now + COOLDOWN_INTERVAL), failures := b.failures + 1)
    case Rested => b.(task := Idle)
  }

  predicate Expired(b: Boundary) {
    b.value.Some? && b.value.value.expiresAt < b.now
  }

  /** The header value a boundary stands for while it has not expired. */
  function HeaderOf(v: BoundaryValue): Option<string> {
    if v.value == Some(NO_OP_ENCODED_LOCATIONS) then None else v.value
  }

  /** `latest_header_value_and_entity_tag`: fails open once the value expired. */
  function LatestHeader(b: Boundary): (Option<string>, EntityTag) {
    (if b.value.Some? && b.value.value.expiresAt >= b.now then HeaderOf(b.value.value) else None, b.tag)
  }

  predicate Legal(tag: EntityTag, actions: seq<Action>)
    decreases |actions|, 0
  {
    actions == [] ||
    (var n := |actions| - 1;
     Legal(tag, actions[..n]) && CanAct(Exec(tag, actions[..n]), actions[n]))
  }

  function Exec(tag: EntityTag, actions: seq<Action>): Boundary
    requires Legal(tag, actions)
    decreases |actions|, 1
  {
    if actions == [] then Created(tag)
    else var n := |actions| - 1; Act(Exec(tag, actions[..n]), actions[n])
  }

  /** The channel and its refresher, with the run that led to the current state. */
  class BoundaryChannel {
    var state: Boundary
    ghost const first: EntityTag
    ghost var actions: seq<Action>

    ghost predicate Valid()
      reads this
    {
      Legal(first, actions) && state == Exec(first, actions)
    }

    constructor (tag: EntityTag)
      ensures Valid() && state == Created(tag)
    {
      state, first, actions := Created(tag), tag, [];
    }

    method Become(next: Boundary, ghost a: Action)
      requires Valid() && CanAct(state, a) && next == Act(state, a)
      modifies this
      ensures Valid() && state == next
      ensures Requests(actions) == Requests(old(actions)) + if a.Poll? && a.receivers then 1 else 0
    {
      assert (actions + [a])[..|actions|] == actions;
      state, actions := next, actions + [a];
    }

    /** Some time passes, at least until `earliest`. */
    method Await(earliest: nat)
      requires Valid()
      modifies this
      ensures Valid() && old(state.now) <= state.now && earliest <= state.now
      ensures state == old(state).(now := state.now) && Requests(actions) == Requests(old(actions))
    {
      var late: int := *;
      var d := (if late < 0 then 0 else late) + if state.now < earliest then earliest - state.now else 0;
      Become(state.(now := state.now + d), Elapse(d));
    }

    /** `refresh_task`, observed for up to `rounds` rounds: a fetch that succeeds publishes its value
        with a lifetime of six hours under a new tag and rests for five; one that fails publishes
        nothing and rests for fifteen minutes. */
    method RefreshTask(tags: TagGenerator, rounds: nat)
      requires Valid() && state.task.Idle?
      modifies this, tags
      ensures Valid() && (state.task.Idle? || state.task.Ended?)
      ensures state.task.Idle? ==> Requests(actions) == Requests(old(actions)) + rounds
    {
      var left := rounds;
      while left > 0
        invariant Valid() && state.task.Idle?
        invariant Requests(actions) + left == Requests(old(actions)) + rounds
      {
        left := left - 1;
        var receivers: bool := *;
        if !receivers {
          Become(state.(task := Ended), Poll(false));
          return;
        }
        Become(state.(task := Requesting(state.now)), Poll(true));
        Await(0);
        var fetched: Option<Option<string>> := *;
        var wake: nat;
        if fetched.Some? {
          var tag := tags.Fresh();
          wake := state.now + (DEFAULT_TTL - REFRESH_SLACK);
          Become(state.(value := Some(BoundaryValue(fetched.value, state.now + DEFAULT_TTL)), tag := tag,
                        failures := 0, task := Resting(wake)),
                 Fetched(fetched.value, tag));
        } else {
          wake := state.now + COOLDOWN_INTERVAL;
          Become(state.(task := Resting(wake), failures := state.failures + 1), FetchFailed);
        }
        Await(wake);
        Become(state.(task := Idle), Rested);
      }
    }
  }

  /** Fetches started in a run. */
  function Requests(actions: seq<Action>): nat {
    if actions == [] then 0
    else
      var last := actions[|actions| - 1];
      Requests(actions[..|actions| - 1]) + if last.Poll? && last.receivers then 1 else 0
  }

  // ----- what is published, and how often

  /** The last fetched locations and the instant they were fetched at. */
  function LastFetch(tag: EntityTag, actions: seq<Action>): Option<(Option<string>, nat)>
    requires Legal(tag, actions)
  {
    if actions == [] then None
    else
      var n := |actions| - 1;
      if actions[n].Fetched? then Some((actions[n].locations, Exec(tag, actions[..n]).now))
      else LastFetch(tag, actions[..n])
  }

  /** In every run the channel holds what was fetched last, with a lifetime of six hours from then on. */
  lemma {:induction false} HoldsLastFetch(tag: EntityTag, actions: seq<Action>)
    requires Legal(tag, actions)
    ensures Exec(tag, actions).value == match LastFetch(tag, actions)
      case None => None
      case Some((locations, at)) => Some(BoundaryValue(locations, at + 21_600_000_000_000))
  {
    if actions != [] {
      HoldsLastFetch(tag, actions[..|actions| - 1]);
    }
  }

  lemma PrefixLegal(tag: EntityTag, actions: seq<Action>, n: nat)
    requires n <= |actions| && Legal(tag, actions)
    ensures Legal(tag, actions[..n]) && (n < |actions| ==> CanAct(Exec(tag, actions[..n]), actions[n]))
    decreases |actions|
  {
    if n == |actions| {
      assert actions[..n] == actions;
    } else {
      var m := |actions| - 1;
      assert actions[..m][..n] == actions[..n];
      if n < m {
        PrefixLegal(tag, actions[..m], n);
      }
    }
  }

  /** The instant before the i-th action. */
  function At(tag: EntityTag, actions: seq<Action>, i: nat): nat
    requires Legal(tag, actions) && i <= |actions|
  {
    PrefixLegal(tag, actions, i);
    Exec(tag, actions[..i]).now
  }

  /** How long the refresher rests after a fetch: five hours, or 15 minutes if it failed. */
  function Rest(a: Action): nat {
    match a
    case Fetched(_, _) => 18_000_000_000_000
    case FetchFailed => 900_000_000_000
    case _ => 0
  }

  lemma {:induction false} RestsAfter(tag: EntityTag, actions: seq<Action>, i: nat)
    requires Legal(tag, actions) && i < |actions| && (actions[i].Fetched? || actions[i].FetchFailed?)
    ensures var until := At(tag, actions, i) + Rest(actions[i]); var b := Exec(tag, actions);
      b.now >= until || b.task == Resting(until)
  {
    var n := |actions| - 1;
    if i < n {
      RestsAfter(tag, actions[..n], i);
      assert actions[..n][..i] == actions[..i];
    }
  }

  /** The service is not asked again within five hours of a successful fetch, nor within 15 minutes of a
      failed one. */
  lemma FetchesAreSpaced(tag: EntityTag, actions: seq<Action>, i: nat, j: nat)
    requires Legal(tag, actions) && i < j < |actions| && actions[j].Poll?
    ensures actions[i].Fetched? ==> At(tag, actions, j) >= At(tag, actions, i) + 18_000_000_000_000
    ensures actions[i].FetchFailed? ==> At(tag, actions, j) >= At(tag, actions, i) + 900_000_000_000
  {
    PrefixLegal(tag, actions, j);
    if actions[i].Fetched? || actions[i].FetchFailed? {
      RestsAfter(tag, actions[..j], i);
      assert actions[..j][..i] == actions[..i];
    }
  }

  /** Once nobody receives any more the service is never asked again. */
  lemma {:induction false} EndsOnceAbandoned(tag: EntityTag, actions: seq<Action>, i: nat)
    requires Legal(tag, actions) && i < |actions| && actions[i] == Poll(false)
    ensures Exec(tag, actions).task.Ended?
    ensures forall j :: i < j < |actions| ==> actions[j].Elapse?
  {
    var n := |actions| - 1;
    if i < n {
      EndsOnceAbandoned(tag, actions[..n], i);
      assert forall j :: i < j < n ==> actions[j] == actions[..n][j];
    }
  }

  // ----- when it expires

  /** Fetches last at most `fetch`, sleeps end on time, and at most `streak` fetches in a row
      fail once a boundary has been published. */
  predicate Paced(b: Boundary, a: Action, fetch: nat, streak: nat)
    requires CanAct(b, a)
  {
    && (a.Elapse? ==>
          match b.task {
            case Requesting(since) => b.now + a.time <= since + fetch
            case Resting(until) => b.now + a.time <= until
            case Idle => false
            case Ended => false
          })
    && (a.Poll? ==> a.receivers)
    && (a.FetchFailed? && b.value.Some? ==> b.failures + 1 <= streak)
  }

  predicate AllPaced(tag: EntityTag, actions: seq<Action>, fetch: nat, streak: nat)
    requires Legal(tag, actions)
  {
    actions == [] ||
    (var n := |actions| - 1;
     AllPaced(tag, actions[..n], fetch, streak) &&
     Paced(Exec(tag, actions[..n]), actions[n], fetch, streak))
  }

  /** The longest time from a due refresh to its success after `failures` failed fetches. */
  function Delay(failures: nat, fetch: nat): nat {
    failures * (fetch + COOLDOWN_INTERVAL)
  }

  lemma DelayStep(k: nat, fetch: nat)
    ensures Delay(k + 1, fetch) == Delay(k, fetch) + fetch + COOLDOWN_INTERVAL
  {
  }

  lemma DelayMonotone(j: nat, k: nat, fetch: nat)
    requires j <= k
    ensures Delay(j, fetch) <= Delay(k, fetch)
    decreases k
  {
    if j < k {
      DelayMonotone(j, k - 1, fetch);
      DelayStep(k - 1, fetch);
    }
  }

  /** How late each phase of the refresher can be, counted from the last publication. */
  predicate OnTime(b: Boundary, fetch: nat, streak: nat) {
    b.value.Some? ==>
      && DEFAULT_TTL <= b.value.value.expiresAt
      && b.failures <= streak
      && var due := b.value.value.expiresAt - REFRESH_SLACK + Delay(b.failures, fetch);
      match b.task
      case Idle => b.now <= due
      case Requesting(since) => since <= due && b.now <= since + fetch
      case Resting(until) => b.now <= until <= due
      case Ended => false
  }

  lemma PacedStaysOnTime(b: Boundary, a: Action, fetch: nat, streak: nat)
    requires OnTime(b, fetch, streak) && CanAct(b, a) && Paced(b, a, fetch, streak)
    ensures OnTime(Act(b, a), fetch, streak)
  {
    DelayStep(b.failures, fetch);
  }

  lemma {:induction false} PacedRunIsOnTime(tag: EntityTag, actions: seq<Action>, fetch: nat, streak: nat)
    requires Legal(tag, actions) && AllPaced(tag, actions, fetch, streak)
    ensures OnTime(Exec(tag, actions), fetch, streak)
  {
    if actions != [] {
      var n := |actions| - 1;
      PacedRunIsOnTime(tag, actions[..n], fetch, streak);
      PacedStaysOnTime(Exec(tag, actions[..n]), actions[n], fetch, streak);
    }
  }

  lemma OnTimeIsUnexpired(b: Boundary, fetch: nat, streak: nat)
    requires OnTime(b, fetch, streak) && Delay(streak, fetch) + fetch <= REFRESH_SLACK
    ensures !Expired(b)
  {
    if b.value.Some? {
      DelayMonotone(b.failures, streak, fetch);
    }
  }

  predicate PacedRun(actions: seq<Action>, fetch: nat, streak: nat) {
    Legal(0, actions) && AllPaced(0, actions, fetch, streak)
  }

  lemma Extend(actions: seq<Action>, a: Action, fetch: nat, streak: nat) returns (longer: seq<Action>)
    requires PacedRun(actions, fetch, streak)
    requires CanAct(Exec(0, actions), a) && Paced(Exec(0, actions), a, fetch, streak)
    ensures longer == actions + [a] && PacedRun(longer, fetch, streak)
    ensures Exec(0, longer) == Act(Exec(0, actions), a)
  {
    longer := actions + [a];
    assert longer[..|actions|] == actions;
  }

  /** A boundary is published at once and the next fetch starts on time. */
  lemma FirstRound(fetch: nat, streak: nat) returns (actions: seq<Action>)
    ensures PacedRun(actions, fetch, streak)
    ensures Exec(0, actions) == LateRequest(0, fetch)
  {
    var a1 := Extend([], Poll(true), fetch, streak);
    var a2 := Extend(a1, Fetched(None, 0), fetch, streak);
    var a3 := Extend(a2, Elapse(DEFAULT_TTL - REFRESH_SLACK), fetch, streak);
    var a4 := Extend(a3, Rested, fetch, streak);
    actions := Extend(a4, Poll(true), fetch, streak);
  }

  /** Requesting again after `k` fetches that failed as late as they may. */
  function LateRequest(k: nat, fetch: nat): Boundary {
    var now := DEFAULT_TTL - REFRESH_SLACK + Delay(k, fetch);
    Boundary(now, Some(BoundaryValue(None, DEFAULT_TTL)), 0, Requesting(now), k)
  }

  lemma FailedRound(run: seq<Action>, k: nat, fetch: nat, streak: nat) returns (actions: seq<Action>)
    requires PacedRun(run, fetch, streak) && Exec(0, run) == LateRequest(k, fetch) && k < streak
    ensures PacedRun(actions, fetch, streak) && Exec(0, actions) == LateRequest(k + 1, fetch)
  {
    DelayStep(k, fetch);
    var a1 := Extend(run, Elapse(fetch), fetch, streak);
    var a2 := Extend(a1, FetchFailed, fetch, streak);
    var a3 := Extend(a2, Elapse(COOLDOWN_INTERVAL), fetch, streak);
    var a4 := Extend(a3, Rested, fetch, streak);
    actions := Extend(a4, Poll(true), fetch, streak);
  }

  lemma {:induction false} WorstRun(k: nat, fetch: nat, streak: nat) returns (actions: seq<Action>)
    requires k <= streak
    ensures PacedRun(actions, fetch, streak) && Exec(0, actions) == LateRequest(k, fetch)
  {
    if k == 0 {
      actions := FirstRound(fetch, streak);
    } else {
      var run := WorstRun(k - 1, fetch, streak);
      actions := FailedRound(run, k - 1, fetch, streak);
    }
  }

  /** Exactly when a published boundary never expires: fetches of at most `fetch` and streaks of
      at most `streak` failures keep it unexpired at every instant of every run if and only if
      streak * (fetch + 15 min) + fetch fits into the one-hour refresh slack. */
  lemma UnexpiredIffStreaksFit(fetch: nat, streak: nat)
    ensures (forall actions :: PacedRun(actions, fetch, streak) ==> !Expired(Exec(0, actions)))
            <==> streak * (fetch + 900_000_000_000) + fetch <= 3_600_000_000_000
  {
    if Delay(streak, fetch) + fetch <= REFRESH_SLACK {
      forall actions | PacedRun(actions, fetch, streak)
        ensures !Expired(Exec(0, actions))
      {
        PacedRunIsOnTime(0, actions, fetch, streak);
        OnTimeIsUnexpired(Exec(0, actions), fetch, streak);
      }
    } else {
      var run := WorstRun(streak, fetch, streak);
      var late := Extend(run, Elapse(fetch), fetch, streak);
      assert PacedRun(late, fetch, streak) && Expired(Exec(0, late));
    }
  }
}
