/** `refresh_task` of src/auth/src/token_cache.rs as the loop it is, running in a world where readers,
    other components and the clock act between any two of its actions. */
module TokenRefresher {
  import opened Resources
  import opened TokenCache

  /** The shared state, and the run of the protocol that led to it. */
  class World {
    var state: State
    ghost var steps: seq<Step>

    ghost predicate Valid()
      reads this
    {
      Legal(steps) && state == Exec(steps)
    }

    constructor ()
      ensures Valid() && state == INIT
    {
      state, steps := INIT, [];
    }

    /** The state changes to `next`, which must be what protocol step `step` leads to. */
    method Become(next: State, ghost step: Step)
      requires Valid() && Enabled(state, step) && next == Apply(state, step)
      modifies this
      ensures Valid() && state == next
    {
      Extend(steps, step);
      state, steps := next, steps + [step];
    }

    /** Everything else in the program: any number of steps of readers, other tag users and the clock. */
    method Others()
      requires Valid()
      modifies this
      ensures Valid() && state.refresher == old(state.refresher)
      ensures state.channel == old(state.channel) && old(state.now) <= state.now
      ensures state.timeline == old(state.timeline)
    {
      var count: int := *;
      while count > 0
        invariant Valid() && state.refresher == old(state.refresher)
        invariant state.channel == old(state.channel) && old(state.now) <= state.now
        invariant state.timeline == old(state.timeline)
      {
        var step: Step := *;
        if !OfRefresher(step) && Enabled(state, step) {
          OthersKeepRefresher(state, step);
          Become(Apply(state, step), step);
        }
        count := count - 1;
      }
    }

    /** `sleep_until`: others act until the deadline has passed. */
    method SleepUntil(deadline: nat)
      requires Valid()
      modifies this
      ensures Valid() && state.refresher == old(state.refresher) && state.channel == old(state.channel)
      ensures deadline <= state.now && state.timeline == old(state.timeline)
    {
      Others();
      if state.now < deadline {
        Become(state.(now := deadline), Tick(deadline - state.now));
      }
    }

    /** The provider answers `e`, after which the refresher is at `next`. */
    method Fail(e: CredentialsError, next: Refresher)
      requires Valid() && state.refresher.Fetching? && Apply(state, FetchErr(e)).refresher == next
      modifies this
      ensures Valid() && state == Apply(old(state), FetchErr(e))
      ensures Fetches(state.timeline) == Fetches(old(state.timeline))
    {
      FetchesAppend(state.timeline, FetchFailed(e, state.now));
      Become(state.(refresher := next, timeline := state.timeline + [FetchFailed(e, state.now)]), FetchErr(e));
    }

    /** `tx_token.send` of an error, after which the refresher is at `next`. */
    method SendErr(e: CredentialsError, next: Refresher, ghost step: Step)
      requires Valid() && Enabled(state, step) && Apply(state, step) == SendError(state, e, next)
      modifies this
      ensures Valid() && state == SendError(old(state), e, next)
      ensures Fetches(state.timeline) == Fetches(old(state.timeline))
    {
      FetchesAppend(state.timeline, ErrorPublished(e, state.now));
      Become(state.(channel := Some(Err(e)), version := state.version + 1, refresher := next,
                    timeline := state.timeline + [ErrorPublished(e, state.now)]), step);
    }
  }

  predicate OfRefresher(step: Step) {
    step.Enter? || step.FetchOk? || step.FetchErr? || step.Resume?
  }

  lemma OthersKeepRefresher(s: State, step: Step)
    requires Enabled(s, step) && !OfRefresher(step)
    ensures Apply(s, step).refresher == s.refresher && Apply(s, step).channel == s.channel
    ensures s.now <= Apply(s, step).now && Apply(s, step).timeline == s.timeline
  {
  }

  /** Fetches started so far. */
  function Fetches(timeline: seq<Event>): nat {
    if timeline == [] then 0
    else Fetches(timeline[..|timeline| - 1]) + if timeline[|timeline| - 1].FetchStarted? then 1 else 0
  }

  lemma FetchesAppend(timeline: seq<Event>, e: Event)
    ensures Fetches(timeline + [e]) == Fetches(timeline) + if e.FetchStarted? then 1 else 0
  {
    assert (timeline + [e])[..|timeline|] == timeline;
  }

  /** After a permanent error: wait for the cached token to expire, publish the error and stop. */
  method StopOn(w: World, e: CredentialsError)
    requires w.Valid() && w.state.refresher.Fetching? && !e.transient
    modifies w
    ensures w.Valid() && w.state.refresher.Stopped? && w.state.channel == Some(Err(e))
  {
    w.Fail(e, PermanentFailure(e));
    w.Others();
    var expiration := CurrentExpiration(w.state.channel);
    if expiration.Some? {
      w.Become(w.state.(refresher := AwaitStop(expiration.value, e)), Resume);
      w.SleepUntil(expiration.value);
    }
    w.SendErr(e, Closing, Resume);
    w.Others();
    w.Become(w.state.(refresher := Stopped), Resume);
  }

  /** The error is published once no cached token is usable, unless the token lasts until `short`. */
  method PublishOnceExpired(w: World, e: CredentialsError, short: nat)
    requires w.Valid() && w.state.refresher == TransientFailure(e, short)
    modifies w
    ensures w.Valid() && w.state.refresher == Sleeping(short)
    ensures w.state.channel == Some(Err(e)) ||
      (w.state.channel == old(w.state.channel) && CurrentExpiration(w.state.channel).Some? &&
       CurrentExpiration(w.state.channel).value >= short)
    ensures Fetches(w.state.timeline) == Fetches(old(w.state.timeline))
  {
    var expiration := CurrentExpiration(w.state.channel);
    if expiration.None? || expiration.value < w.state.now {
      w.SendErr(e, Sleeping(short), Resume);
    } else if expiration.value < short {
      w.Become(w.state.(refresher := AwaitExpiry(expiration.value, e, short)), Resume);
      w.SleepUntil(expiration.value);
      w.SendErr(e, Sleeping(short), Resume);
    } else {
      w.Become(w.state.(refresher := Sleeping(short)), Resume);
    }
  }

  /** After a transient error: publish it once no cached token is usable, and pause for 10 s. */
  method PauseOn(w: World, e: CredentialsError)
    requires w.Valid() && w.state.refresher.Fetching? && e.transient
    modifies w
    ensures w.Valid() && w.state.refresher.Top?
    ensures w.state.channel == Some(Err(e)) ||
      (w.state.channel == old(w.state.channel) && CurrentExpiration(w.state.channel).Some? &&
       CurrentExpiration(w.state.channel).value >= old(w.state.now) + 10_000_000_000)
    ensures w.state.now >= old(w.state.now) + 10_000_000_000
    ensures Fetches(w.state.timeline) == Fetches(old(w.state.timeline))
  {
    var short := w.state.now + SHORT_REFRESH_SLACK;
    w.Fail(e, TransientFailure(e, short));
    w.Others();
    PublishOnceExpired(w, e, short);
    w.SleepUntil(short);
    w.Become(w.state.(refresher := Top), Resume);
  }

  /** After a success: publish the token under a new tag; stop if it never expires, or sleep until it
      is due. */
  method Publish(w: World, token: Token) returns (stopped: bool)
    requires w.Valid() && w.state.refresher.Fetching?
    modifies w
    ensures w.Valid() && (if stopped then w.state.refresher.Stopped? else w.state.refresher.Top?)
    ensures w.state.channel == Some(Ok(Tagged(token, old(w.state.nextTag))))
    ensures stopped == token.expiresAt.None?
    ensures Fetches(w.state.timeline) == Fetches(old(w.state.timeline))
  {
    var tagged := Tagged(token, w.state.nextTag);
    FetchesAppend(w.state.timeline, TokenPublished(tagged, w.state.now));
    w.Become(w.state.(channel := Some(Ok(tagged)), version := w.state.version + 1,
                      nextTag := w.state.nextTag + 1,
                      refresher := if token.expiresAt.None? then Closing else Scheduling(token.expiresAt.value),
                      timeline := w.state.timeline + [TokenPublished(tagged, w.state.now)]),
             FetchOk(token));
    w.Others();
    if token.expiresAt.None? {
      w.Become(w.state.(refresher := Stopped), Resume);
      return true;
    }
    var expiry, now := token.expiresAt.value, w.state.now;
    var wake := now + SHORT_REFRESH_SLACK;
    if now <= expiry && expiry - now > NORMAL_REFRESH_SLACK {
      wake := now + (expiry - now - NORMAL_REFRESH_SLACK);
    }
    w.Become(w.state.(refresher := Sleeping(wake)), Resume);
    w.SleepUntil(wake);
    w.Become(w.state.(refresher := Top), Resume);
    return false;
  }

  /** `refresh_task`, observed for up to `rounds` rounds. Whatever the provider answers and the others
      do, what happens is a run of the protocol. */
  method RefreshTask(w: World, rounds: nat) returns (stopped: bool)
    requires w.Valid() && w.state.refresher.Top?
    modifies w
    ensures w.Valid() && (if stopped then w.state.refresher.Stopped? else w.state.refresher.Top?)
    ensures !stopped ==> Fetches(w.state.timeline) == Fetches(old(w.state.timeline)) + rounds
  {
    var left := rounds;
    stopped := false;
    while left > 0 && !stopped
      invariant w.Valid() && (if stopped then w.state.refresher.Stopped? else w.state.refresher.Top?)
      invariant !stopped ==> Fetches(w.state.timeline) + left == Fetches(old(w.state.timeline)) + rounds
      decreases left
    {
      left := left - 1;
      w.Others();
      if !w.state.cacheAlive {
        w.Become(w.state.(refresher := Stopped), Enter);
        return true;
      }
      FetchesAppend(w.state.timeline, FetchStarted(w.state.now));
      w.Become(w.state.(refresher := Fetching,
                        timeline := w.state.timeline + [FetchStarted(w.state.now)]), Enter);
      w.Others();
      var fetched: Result<Token, CredentialsError> := *;
      match fetched {
        case Ok(token) => stopped := Publish(w, token);
        case Err(e) =>
          if e.transient {
            PauseOn(w, e);
          } else {
            StopOn(w, e);
            stopped := true;
          }
      }
    }
  }
}
