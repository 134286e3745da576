/** The token cache protocol (src/auth/src/token_cache.rs): one background refresher publishes
    into a watch channel, any number of readers borrow from it or wait on it, and the clock
    advances in between. Every atomic action is one `Step`; a run is a sequence of steps. */
module TokenCache {
  import opened Resources

  /** Instants and durations count nanoseconds. */
  const SECOND: nat := 1_000_000_000
  const NORMAL_REFRESH_SLACK: nat := 240 * SECOND
  const SHORT_REFRESH_SLACK: nat := 10 * SECOND

  datatype Token = Token(token: string, tokenType: string, expiresAt: Option<nat>)

  /** A published token with its entity tag. */
  datatype Tagged = Tagged(token: Token, tag: EntityTag)

  type Published = Option<Result<Tagged, CredentialsError>>

  /** Where `refresh_task` is. `AwaitStop` and `AwaitExpiry` sleep until the cached token
      expires before publishing the error they carry. */
  datatype Refresher =
    | Top
    | Fetching
    | Scheduling(expiry: nat)
    | Sleeping(until: nat)
    | PermanentFailure(error: CredentialsError)
    | AwaitStop(deadline: nat, error: CredentialsError)
    | TransientFailure(error: CredentialsError, short: nat)
    | AwaitExpiry(deadline: nat, error: CredentialsError, short: nat)
    | Closing
    | Stopped

  /** Where one call of `latest_token_and_entity_tag` is. `seen` is the channel version its
      receiver has marked as seen. */
  datatype Reader =
    | Borrowed(value: Published, seen: nat)
    | Waiting(seen: nat)
    | Awake(seen: nat)
    | Finished(result: Result<Tagged, CredentialsError>)
    | Panicked

  /** What the refresher did and when; history only, no step reads it. */
  datatype Event =
    | FetchStarted(at: nat)
    | FetchFailed(error: CredentialsError, at: nat)
    | TokenPublished(tagged: Tagged, at: nat)
    | ErrorPublished(error: CredentialsError, at: nat)

  datatype State = State(
    now: nat,
    nextTag: nat,
    channel: Published,
    version: nat,
    refresher: Refresher,
    cacheAlive: bool,
    readers: map<nat, Reader>,
    timeline: seq<Event>)

  datatype Step =
    | Tick(elapsed: nat)
    | DrawTag                                    // another component calls EntityTag::new
    | Enter                                      // top of the loop: receiver_count check
    | FetchOk(token: Token)
    | FetchErr(error: CredentialsError)
    | Resume                                     // the refresher's next action that is not a fetch
    | DropCache
    | StartRead(id: nat)
    | Decide(id: nat)
    | Wake(id: nat)
    | Take(id: nat)

  const INIT := State(0, 0, None, 0, Top, true, map[], [])

  predicate Active(r: Reader) {
    r.Borrowed? || r.Waiting? || r.Awake?
  }

  /** `current_expiration` */
  function CurrentExpiration(channel: Published): Option<nat> {
    if channel.Some? && channel.value.Ok? then channel.value.value.token.expiresAt else None
  }

  /** The value after which the refresher may close the channel. */
  predicate Final(channel: Published) {
    channel.Some? && (channel.value.Err? || channel.value.value.token.expiresAt.None?)
  }

  /** The instant a sleeping refresher wakes at. */
  function WakeAt(r: Refresher): Option<nat> {
    match r
    case Sleeping(until) => Some(until)
    case AwaitStop(d, _) => Some(d)
    case AwaitExpiry(d, _, _) => Some(d)
    case _ => None
  }

  function SendError(s: State, e: CredentialsError, next: Refresher): State {
    s.(channel := Some(Err(e)), version := s.version + 1, refresher := next,
       timeline := s.timeline + [ErrorPublished(e, s.now)])
  }

  function SendToken(s: State, t: Token): State {
    var tagged := Tagged(t, s.nextTag);
    s.(channel := Some(Ok(tagged)), version := s.version + 1, nextTag := s.nextTag + 1,
       refresher := match t.expiresAt { case None => Closing case Some(e) => Scheduling(e) },
       timeline := s.timeline + [TokenPublished(tagged, s.now)])
  }

  predicate Enabled(s: State, step: Step) {
    match step
    case Tick(_) => true
    case DrawTag => true
    case Enter => s.refresher.Top?
    case FetchOk(_) => s.refresher.Fetching?
    case FetchErr(_) => s.refresher.Fetching?
    case Resume =>
      match s.refresher {
        case Top => false
        case Fetching => false
        case Stopped => false
        case r => WakeAt(r).Some? ==> WakeAt(r).value <= s.now
      }
    case DropCache => s.cacheAlive && forall id :: id in s.readers ==> !Active(s.readers[id])
    case StartRead(id) => s.cacheAlive && id !in s.readers
    case Decide(id) => id in s.readers && s.readers[id].Borrowed?
    case Wake(id) =>
      id in s.readers && s.readers[id].Waiting? &&
      (s.version != s.readers[id].seen || s.refresher.Stopped?)
    case Take(id) => id in s.readers && s.readers[id].Awake?
  }

  function ResumeRefresher(s: State): State
    requires Enabled(s, Resume)
  {
    match s.refresher
    case Scheduling(expiry) =>
      if s.now <= expiry && expiry - s.now > NORMAL_REFRESH_SLACK then
        s.(refresher := Sleeping(s.now + (expiry - s.now - NORMAL_REFRESH_SLACK)))
      else
        s.(refresher := Sleeping(s.now + SHORT_REFRESH_SLACK))
    case Sleeping(_) => s.(refresher := Top)
    case PermanentFailure(e) =>
      (match CurrentExpiration(s.channel)
       case None => SendError(s, e, Closing)
       case Some(d) => s.(refresher := AwaitStop(d, e)))
    case AwaitStop(_, e) => SendError(s, e, Closing)
    case TransientFailure(e, short) =>
      (match CurrentExpiration(s.channel)
       case None => SendError(s, e, Sleeping(short))
       case Some(d) =>
         if d < s.now then SendError(s, e, Sleeping(short))
         else if d < short then s.(refresher := AwaitExpiry(d, e, short))
         else s.(refresher := Sleeping(short)))
    case AwaitExpiry(_, e, short) => SendError(s, e, Sleeping(short))
    case Closing => s.(refresher := Stopped)
  }

  /** `latest_token_and_entity_tag` after the borrow: return, or go and wait. */
  function DecideReader(r: Reader, now: nat): Reader
    requires r.Borrowed?
  {
    match r.value
    case None => Waiting(r.seen)
    case Some(Err(e)) => Finished(Err(e))
    case Some(Ok(t)) =>
      match t.token.expiresAt
      case None => Finished(Ok(t))
      case Some(e) => if e < now then Waiting(r.seen) else Finished(Ok(t))
  }

  function Apply(s: State, step: Step): State
    requires Enabled(s, step)
  {
    match step
    case Tick(d) => s.(now := s.now + d)
    case DrawTag => s.(nextTag := s.nextTag + 1)
    case Enter =>
      if !s.cacheAlive then s.(refresher := Stopped)
      else s.(refresher := Fetching, timeline := s.timeline + [FetchStarted(s.now)])
    case FetchOk(t) => SendToken(s, t)
    case FetchErr(e) =>
      s.(refresher := if e.transient then TransientFailure(e, s.now + SHORT_REFRESH_SLACK) else PermanentFailure(e),
         timeline := s.timeline + [FetchFailed(e, s.now)])
    case Resume => ResumeRefresher(s)
    case DropCache => s.(cacheAlive := false)
    case StartRead(id) => s.(readers := s.readers[id := Borrowed(s.channel, s.version)])
    case Decide(id) => s.(readers := s.readers[id := DecideReader(s.readers[id], s.now)])
    case Wake(id) =>
      // changed() reports a new version first and a closed channel second; unwrap panics then
      s.(readers := s.readers[id :=
           if s.version != s.readers[id].seen then Awake(s.readers[id].seen) else Panicked])
    case Take(id) =>
      s.(readers := s.readers[id :=
           if s.channel.Some? then Finished(s.channel.value) else Panicked])
  }

  /** Every step of the run is enabled in the state the steps before it lead to. */
  predicate Legal(steps: seq<Step>)
    decreases |steps|, 0
  {
    steps == [] ||
    (var n := |steps| - 1; Legal(steps[..n]) && Enabled(Exec(steps[..n]), steps[n]))
  }

  function Exec(steps: seq<Step>): State
    requires Legal(steps)
    decreases |steps|, 1
  {
    if steps == [] then INIT
    else var n := |steps| - 1; Apply(Exec(steps[..n]), steps[n])
  }

  /** The last token a timeline published. */
  function LatestToken(timeline: seq<Event>): Option<Tagged> {
    if timeline == [] then None
    else
      var last := timeline[|timeline| - 1];
      if last.TokenPublished? then Some(last.tagged) else LatestToken(timeline[..|timeline| - 1])
  }

  predicate ExpiredBy(t: Tagged, at: nat) {
    t.token.expiresAt.Some? && t.token.expiresAt.value <= at
  }

  // ----- the invariant of every reachable state

  predicate ChannelInv(s: State) {
    && (s.version == 0 <==> s.channel.None?)
    && (match s.channel
        case None => LatestToken(s.timeline).None?
        case Some(Ok(t)) => LatestToken(s.timeline) == Some(t)
        case Some(Err(_)) =>
          LatestToken(s.timeline).Some? ==> ExpiredBy(LatestToken(s.timeline).value, s.now))
  }

  predicate RefresherInv(s: State) {
    match s.refresher
    case Closing => Final(s.channel)
    case Stopped => Final(s.channel) || !s.cacheAlive
    case Scheduling(e) => CurrentExpiration(s.channel) == Some(e)
    case AwaitStop(d, _) => CurrentExpiration(s.channel) == Some(d)
    case AwaitExpiry(d, _, _) => CurrentExpiration(s.channel) == Some(d)
    case _ => s.channel.None? || s.channel.value.Err? || CurrentExpiration(s.channel).Some?
  }

  predicate ReaderInv(s: State, r: Reader) {
    && !r.Panicked?
    && (Active(r) ==> s.cacheAlive && r.seen <= s.version)
    && (r.Borrowed? && r.seen == s.version ==> r.value == s.channel)
    && (r.Waiting? && r.seen == s.version ==> !Final(s.channel))
    && (r.Awake? ==> r.seen < s.version)
  }

  predicate ReadersInv(s: State) {
    forall id :: id in s.readers ==> ReaderInv(s, s.readers[id])
  }

  /** Whatever was published as an error found no usable token in the channel. */
  predicate TimelineInv(timeline: seq<Event>) {
    forall j :: 0 <= j < |timeline| && timeline[j].ErrorPublished? ==>
      var latest := LatestToken(timeline[..j]);
      latest.Some? ==> ExpiredBy(latest.value, timeline[j].at)
  }

  predicate Inv(s: State) {
    ChannelInv(s) && RefresherInv(s) && ReadersInv(s) && TimelineInv(s.timeline)
  }

  lemma TimelineAppend(timeline: seq<Event>, e: Event)
    requires TimelineInv(timeline)
    requires e.ErrorPublished? ==>
      (LatestToken(timeline).Some? ==> ExpiredBy(LatestToken(timeline).value, e.at))
    ensures TimelineInv(timeline + [e])
    ensures LatestToken(timeline + [e]) ==
      if e.TokenPublished? then Some(e.tagged) else LatestToken(timeline)
  {
    var longer := timeline + [e];
    assert longer[..|timeline|] == timeline;
    forall j | 0 <= j < |longer| && longer[j].ErrorPublished?
      ensures LatestToken(longer[..j]).Some? ==> ExpiredBy(LatestToken(longer[..j]).value, longer[j].at)
    {
      if j < |timeline| {
        assert longer[..j] == timeline[..j];
      }
    }
  }

  lemma EventKeepsChannelInv(s: State, s': State, e: Event)
    requires ChannelInv(s) && TimelineInv(s.timeline) && s'.now == s.now
    requires s'.timeline == s.timeline + [e] && e.at == s.now
    requires match e
      case FetchStarted(_) => s'.channel == s.channel && s'.version == s.version
      case FetchFailed(_, _) => s'.channel == s.channel && s'.version == s.version
      case TokenPublished(t, _) => s'.channel == Some(Ok(t)) && s'.version == s.version + 1
      case ErrorPublished(_, _) =>
        && s'.channel.Some? && s'.channel.value.Err? && s'.version == s.version + 1
        && (LatestToken(s.timeline).Some? ==> ExpiredBy(LatestToken(s.timeline).value, s.now))
    ensures ChannelInv(s') && TimelineInv(s'.timeline)
  {
    TimelineAppend(s.timeline, e);
  }

  lemma StepKeepsTimeline(s: State, step: Step)
    requires Inv(s) && Enabled(s, step)
    ensures ChannelInv(Apply(s, step)) && TimelineInv(Apply(s, step).timeline)
  {
    var s' := Apply(s, step);
    match step
    case Enter =>
      if s.cacheAlive {
        EventKeepsChannelInv(s, s', FetchStarted(s.now));
      }
    case FetchOk(t) => EventKeepsChannelInv(s, s', TokenPublished(Tagged(t, s.nextTag), s.now));
    case FetchErr(e) => EventKeepsChannelInv(s, s', FetchFailed(e, s.now));
    case Resume =>
      if s'.version != s.version {
        EventKeepsChannelInv(s, s', ErrorPublished(s'.channel.value.error, s.now));
      }
    case _ =>
  }

  lemma StepKeepsRefresher(s: State, step: Step)
    requires Inv(s) && Enabled(s, step)
    ensures RefresherInv(Apply(s, step))
  {
  }

  lemma StepKeepsReader(s: State, step: Step, id: nat)
    requires Inv(s) && Enabled(s, step) && id in Apply(s, step).readers
    ensures ReaderInv(Apply(s, step), Apply(s, step).readers[id])
  {
    assert id in s.readers ==> ReaderInv(s, s.readers[id]);
  }

  lemma StepKeepsInv(s: State, step: Step)
    requires Inv(s) && Enabled(s, step)
    ensures Inv(Apply(s, step))
  {
    StepKeepsTimeline(s, step);
    StepKeepsRefresher(s, step);
    forall id | id in Apply(s, step).readers
      ensures ReaderInv(Apply(s, step), Apply(s, step).readers[id])
    {
      StepKeepsReader(s, step, id);
    }
  }

  lemma {:induction false} ReachableInv(steps: seq<Step>)
    requires Legal(steps)
    ensures Inv(Exec(steps))
  {
    if steps != [] {
      var n := |steps| - 1;
      ReachableInv(steps[..n]);
      StepKeepsInv(Exec(steps[..n]), steps[n]);
    }
  }

  // ----- what callers may rely on, over every run

  /** A token that is still usable is what the channel holds: no error and no older value
      displaces it, and every error on record found only expired tokens before it. */
  lemma {:induction false} ErrorsNeverDisplaceUsableTokens(steps: seq<Step>)
    requires Legal(steps)
    ensures var s := Exec(steps);
      && (forall j :: 0 <= j < |s.timeline| && s.timeline[j].ErrorPublished? ==>
            var latest := LatestToken(s.timeline[..j]);
            latest.Some? ==> ExpiredBy(latest.value, s.timeline[j].at))
      && (LatestToken(s.timeline).Some? && !ExpiredBy(LatestToken(s.timeline).value, s.now) ==>
            s.channel == Some(Ok(LatestToken(s.timeline).value)))
  {
    ReachableInv(steps);
  }

  lemma PrefixOf(whole: seq<Step>, n: nat)
    requires n <= |whole| && Legal(whole)
    ensures Legal(whole[..n])
    decreases |whole|
  {
    if n < |whole| {
      assert whole[..|whole| - 1][..n] == whole[..n];
      PrefixOf(whole[..|whole| - 1], n);
    } else {
      assert whole[..n] == whole;
    }
  }

  lemma Extend(steps: seq<Step>, step: Step)
    requires Legal(steps) && Enabled(Exec(steps), step)
    ensures Legal(steps + [step]) && Exec(steps + [step]) == Apply(Exec(steps), step)
  {
    assert (steps + [step])[..|steps|] == steps;
  }

  lemma LastStep(init: seq<Step>, step: Step)
    requires Legal(init + [step])
    ensures Legal(init) && Enabled(Exec(init), step)
    ensures Exec(init + [step]) == Apply(Exec(init), step)
  {
    assert (init + [step])[..|init|] == init;
  }

  lemma StepKeepsBorrow(s: State, step: Step, id: nat)
    requires Enabled(s, step) && step != Decide(id)
    requires id in s.readers && s.readers[id].Borrowed?
    ensures id in Apply(s, step).readers && Apply(s, step).readers[id] == s.readers[id]
    ensures s.now <= Apply(s, step).now
  {
  }

  /** A reader that has borrowed keeps what it borrowed until it decides, and time only grows. */
  lemma {:induction false} BorrowIsStable(pre: seq<Step>, mid: seq<Step>, id: nat)
    requires Legal(pre + mid) && Decide(id) !in mid
    requires Legal(pre) && id in Exec(pre).readers && Exec(pre).readers[id].Borrowed?
    ensures id in Exec(pre + mid).readers && Exec(pre + mid).readers[id] == Exec(pre).readers[id]
    ensures Exec(pre).now <= Exec(pre + mid).now
    decreases |mid|
  {
    if mid == [] {
      assert pre + mid == pre;
    } else {
      var n := |mid| - 1;
      assert pre + mid == (pre + mid[..n]) + [mid[n]];
      LastStep(pre + mid[..n], mid[n]);
      BorrowIsStable(pre, mid[..n], id);
      StepKeepsBorrow(Exec(pre + mid[..n]), mid[n], id);
    }
  }

  /** The run a read's result is taken from: the one before its start if it decides without waiting,
      the one before its last step if it waited. */
  function ReadAfter(pre: seq<Step>, mid: seq<Step>, last: Step, id: nat): seq<Step> {
    if last == Decide(id) then pre else pre + [StartRead(id)] + mid
  }

  lemma DecidesBeforeExpiry(pre: seq<Step>, mid: seq<Step>, id: nat)
    requires Legal(pre + [StartRead(id)] + mid + [Decide(id)]) && Decide(id) !in mid
    requires Legal(pre) && LatestToken(Exec(pre).timeline).Some?
    requires !ExpiredBy(LatestToken(Exec(pre).timeline).value,
                        Exec(pre + [StartRead(id)] + mid + [Decide(id)]).now)
    ensures var end := Exec(pre + [StartRead(id)] + mid + [Decide(id)]);
      id in end.readers && end.readers[id] == Finished(Ok(LatestToken(Exec(pre).timeline).value))
  {
    var borrowed := pre + [StartRead(id)];
    LastStep(borrowed + mid, Decide(id));
    assert (borrowed + mid)[..|borrowed|] == borrowed;
    PrefixOf(borrowed + mid, |borrowed|);
    LastStep(pre, StartRead(id));
    BorrowIsStable(borrowed, mid, id);
    ReachableInv(pre);
  }

  /** A read that ends strictly before the latest published token expires returns exactly that token,
      whatever the refresher, the clock and other readers do meanwhile: the latest when it started if it
      decides at once, the latest when it ends if it had to wait. */
  lemma ReadBeforeExpirySucceeds(pre: seq<Step>, mid: seq<Step>, id: nat, last: Step)
    requires last == Decide(id) || last == Take(id)
    requires last == Decide(id) ==> last !in mid
    requires Legal(pre + [StartRead(id)] + mid + [last])
    requires Legal(ReadAfter(pre, mid, last, id))
    requires var latest := LatestToken(Exec(ReadAfter(pre, mid, last, id)).timeline);
      latest.Some? && !ExpiredBy(latest.value, Exec(pre + [StartRead(id)] + mid + [last]).now)
    ensures var end := Exec(pre + [StartRead(id)] + mid + [last]);
      id in end.readers &&
      end.readers[id] == Finished(Ok(LatestToken(Exec(ReadAfter(pre, mid, last, id)).timeline).value))
  {
    if last == Decide(id) {
      DecidesBeforeExpiry(pre, mid, id);
    } else {
      LastStep(pre + [StartRead(id)] + mid, last);
      ErrorsNeverDisplaceUsableTokens(pre + [StartRead(id)] + mid);
    }
  }

  /** A reader's result comes from what it borrowed, or from the channel as it is. */
  predicate ReaderMoves(r: Reader, r': Reader, channel: Published) {
    || r' == r || r'.Waiting? || r'.Awake? || r'.Panicked?
    || (r'.Finished? && r.Borrowed? && r.value == Some(r'.result))
    || (r'.Finished? && channel == Some(r'.result))
  }

  lemma StepMovesReader(s: State, step: Step, id: nat)
    requires Enabled(s, step) && id in s.readers
    ensures id in Apply(s, step).readers
    ensures ReaderMoves(s.readers[id], Apply(s, step).readers[id], s.channel)
  {
  }

  /** After `n` steps of the run the channel held `v`. */
  predicate Held(steps: seq<Step>, n: int, v: Published) {
    0 <= n <= |steps| && Legal(steps[..n]) && Exec(steps[..n]).channel == v
  }

  lemma HeldStays(steps: seq<Step>, longer: seq<Step>, n: int, v: Published)
    requires Held(steps, n, v) && steps <= longer
    ensures Held(longer, n, v)
  {
    assert longer[..n] == steps[..n];
  }

  /** What the reader has borrowed or returned was in the channel after `from` steps or later. */
  ghost predicate ReadLive(r: Reader, steps: seq<Step>, from: nat) {
    && (r.Borrowed? ==> exists n :: from <= n && Held(steps, n, r.value))
    && (r.Finished? ==> exists n :: from <= n && Held(steps, n, Some(r.result)))
  }

  lemma ReadStaysLive(r: Reader, steps: seq<Step>, longer: seq<Step>, from: nat)
    requires ReadLive(r, steps, from) && steps <= longer
    ensures ReadLive(r, longer, from)
  {
    if r.Borrowed? {
      var n :| from <= n && Held(steps, n, r.value);
      HeldStays(steps, longer, n, r.value);
    } else if r.Finished? {
      var n :| from <= n && Held(steps, n, Some(r.result));
      HeldStays(steps, longer, n, Some(r.result));
    }
  }

  lemma StepKeepsReadLive(steps: seq<Step>, step: Step, id: nat, from: nat)
    requires Legal(steps) && Enabled(Exec(steps), step) && from <= |steps|
    requires id in Exec(steps).readers && ReadLive(Exec(steps).readers[id], steps, from)
    ensures var s' := Apply(Exec(steps), step);
      id in s'.readers && ReadLive(s'.readers[id], steps + [step], from)
  {
    var s := Exec(steps);
    StepMovesReader(s, step, id);
    ReadStaysLive(s.readers[id], steps, steps + [step], from);
    assert steps[..|steps|] == steps;
    assert Held(steps, |steps|, s.channel);
    HeldStays(steps, steps + [step], |steps|, s.channel);
  }

  /** Reads are linearizable: whatever a read returns, waiting or not, is what the channel held at some
      instant between its start and its return. */
  lemma {:induction false} ReadsAreLinearizable(pre: seq<Step>, id: nat, mid: seq<Step>)
    requires Legal(pre + [StartRead(id)] + mid)
    ensures var steps := pre + [StartRead(id)] + mid; var s := Exec(steps);
      && id in s.readers
      && ReadLive(s.readers[id], steps, |pre|)
      && (s.readers[id].Finished? ==>
            exists n :: |pre| <= n <= |steps| && Held(steps, n, Some(s.readers[id].result)))
    decreases |mid|
  {
    if mid == [] {
      assert pre + [StartRead(id)] + mid == pre + [StartRead(id)];
      LastStep(pre, StartRead(id));
      assert (pre + [StartRead(id)])[..|pre|] == pre;
      assert Held(pre + [StartRead(id)], |pre|, Exec(pre).channel);
    } else {
      var n := |mid| - 1;
      var before := pre + [StartRead(id)] + mid[..n];
      assert pre + [StartRead(id)] + mid == before + [mid[n]];
      LastStep(before, mid[n]);
      ReadsAreLinearizable(pre, id, mid[..n]);
      StepKeepsReadLive(before, mid[n], id, |pre|);
    }
  }

  /** Neither the unwrap nor the expect of `wait_for_next_token` can fire: no reader has
      panicked, a reader with nothing new to see waits on a channel whose refresher still runs,
      and a reader that `changed()` released finds a value newer than the one it saw. */
  lemma {:induction false} ReadersNeverPanic(steps: seq<Step>, id: nat)
    requires Legal(steps) && id in Exec(steps).readers
    ensures var s := Exec(steps); var r := s.readers[id];
      && !r.Panicked?
      && (r.Waiting? && r.seen == s.version ==> !s.refresher.Closing? && !s.refresher.Stopped?)
      && (r.Waiting? && Enabled(s, Wake(id)) ==>
            Apply(s, Wake(id)).readers[id] == Awake(r.seen))
      && (r.Awake? ==> s.channel.Some? && r.seen < s.version)
      && (r.Awake? ==> Apply(s, Take(id)).readers[id] == Finished(s.channel.value))
  {
    ReachableInv(steps);
  }

  /** A token without expiry is never replaced. */
  lemma {:induction false} NeverExpiringTokenStays(pre: seq<Step>, post: seq<Step>)
    requires Legal(pre) && Legal(pre + post)
    requires Exec(pre).channel.Some? && Exec(pre).channel.value.Ok?
    requires Exec(pre).channel.value.value.token.expiresAt.None?
    ensures Exec(pre + post).channel == Exec(pre).channel
    ensures Exec(pre + post).version == Exec(pre).version
  {
    if post == [] {
      assert pre + post == pre;
    } else {
      var n := |post| - 1;
      assert pre + post == (pre + post[..n]) + [post[n]];
      LastStep(pre + post[..n], post[n]);
      NeverExpiringTokenStays(pre, post[..n]);
      ReachableInv(pre + post[..n]);
    }
  }

  // ----- what the refresher does when

  /** When the fetch after a publication is due: 240 s before expiry if that is still ahead,
      10 s after the publication otherwise. */
  function Due(expiry: nat, published: nat): nat {
    if expiry > published + 240_000_000_000 then expiry - 240_000_000_000
    else published + 10_000_000_000
  }

  /** When the fetch after a failure is due. */
  function RetryDue(failed: nat): nat {
    failed + 10_000_000_000
  }

  /** `at`, or the expiry of the token on show if that is later. */
  function Later(expiry: Option<nat>, at: nat): nat {
    if expiry.Some? && at < expiry.value then expiry.value else at
  }

  /** An ideal clock: time passes only while the refresher awaits the provider or a deadline it
      has not reached, so sleeps end exactly on time. */
  predicate IdealTick(s: State, step: Step) {
    step.Tick? ==>
      s.refresher.Fetching? || s.refresher.Stopped? ||
      (WakeAt(s.refresher).Some? && s.now + step.elapsed <= WakeAt(s.refresher).value)
  }

  predicate Ideal(steps: seq<Step>)
    requires Legal(steps)
  {
    steps == [] ||
    (var n := |steps| - 1; Ideal(steps[..n]) && IdealTick(Exec(steps[..n]), steps[n]))
  }

  /** What the events so far show in the channel. */
  function Shown(timeline: seq<Event>): Published {
    if timeline == [] then None
    else
      var n := |timeline| - 1;
      match timeline[n]
      case TokenPublished(t, _) => Some(Ok(t))
      case ErrorPublished(e, _) => Some(Err(e))
      case _ => Shown(timeline[..n])
  }

  /** No earlier than `due`, and exactly then under an ideal clock. */
  predicate OnTime(at: nat, due: nat, ideal: bool) {
    due <= at && (ideal ==> at == due)
  }

  /** What may come next after the events `before`, and when. A fetch ends in a token or a failure. A
      token with an expiry is followed by the next fetch. A failure is followed by its publication, once
      no token on show is usable; a transient one by the next fetch instead if the token on show lasts
      that long. A published transient error is followed by the next fetch, 10 s after the failure. */
  predicate Follows(before: seq<Event>, next: Event, ideal: bool) {
    if before == [] then next.FetchStarted?
    else
      var n := |before| - 1;
      var expiry := CurrentExpiration(Shown(before));
      match before[n]
      case FetchStarted(_) => next.FetchFailed? || next.TokenPublished?
      case TokenPublished(t, at) =>
        && t.token.expiresAt.Some? && next.FetchStarted?
        && OnTime(next.at, Due(t.token.expiresAt.value, at), ideal)
      case FetchFailed(e, at) =>
        if next.ErrorPublished? then
          && next.error == e && OnTime(next.at, Later(expiry, at), ideal)
          && (ideal && e.transient && expiry.Some? ==> expiry.value < RetryDue(at))
        else
          && e.transient && next.FetchStarted? && OnTime(next.at, RetryDue(at), ideal)
          && expiry.Some? && RetryDue(at) <= expiry.value
      case ErrorPublished(e, _) =>
        && n > 0 && before[n - 1].FetchFailed? && before[n - 1].error == e
        && e.transient && next.FetchStarted? && OnTime(next.at, RetryDue(before[n - 1].at), ideal)
  }

  predicate AllFollow(timeline: seq<Event>, ideal: bool) {
    timeline == [] ||
    (var n := |timeline| - 1; AllFollow(timeline[..n], ideal) && Follows(timeline[..n], timeline[n], ideal))
  }

  predicate InOrder(timeline: seq<Event>, now: nat) {
    forall i, j :: 0 <= i <= j < |timeline| ==> timeline[i].at <= timeline[j].at <= now
  }

  /** Asleep until `due`, or back at the top of the loop since, or stopped there. */
  predicate AwaitsFetch(r: Refresher, now: nat, due: nat, ideal: bool) {
    match r
    case Sleeping(until) => until == due && (ideal ==> now <= until)
    case Top => OnTime(now, due, ideal)
    case Stopped => true
    case _ => false
  }

  /** What the refresher may be doing after its failure at `at`. */
  predicate AfterFailure(r: Refresher, now: nat, e: CredentialsError, at: nat, expiry: Option<nat>, ideal: bool) {
    match r
    case PermanentFailure(e') => e' == e && !e.transient && OnTime(now, at, ideal)
    case AwaitStop(d, e') =>
      e' == e && !e.transient && expiry == Some(d) && at <= now && (ideal ==> now <= Later(expiry, at))
    case TransientFailure(e', short) => e' == e && e.transient && short == RetryDue(at) && OnTime(now, at, ideal)
    case AwaitExpiry(d, e', short) =>
      && e' == e && e.transient && short == RetryDue(at) && expiry == Some(d) && d < short && at <= now
      && (ideal ==> now <= d)
    case _ =>
      e.transient && expiry.Some? && RetryDue(at) <= expiry.value && AwaitsFetch(r, now, RetryDue(at), ideal)
  }

  /** What the refresher may be doing after the events so far. */
  predicate Pending(r: Refresher, now: nat, timeline: seq<Event>, ideal: bool) {
    if timeline == [] then r.Top? || r.Stopped?
    else
      var n := |timeline| - 1;
      match timeline[n]
      case FetchStarted(_) => r.Fetching?
      case TokenPublished(t, at) =>
        (match t.token.expiresAt
         case None => r.Closing? || r.Stopped?
         case Some(e) =>
           if r.Scheduling? then r.expiry == e && OnTime(now, at, ideal)
           else if r.Sleeping? then Due(e, at) <= r.until && (ideal ==> r.until == Due(e, at) && now <= r.until)
           else AwaitsFetch(r, now, Due(e, at), ideal))
      case FetchFailed(e, at) => AfterFailure(r, now, e, at, CurrentExpiration(Shown(timeline)), ideal)
      case ErrorPublished(e, at) =>
        && n > 0 && timeline[n - 1].FetchFailed? && timeline[n - 1].error == e
        && (if e.transient then AwaitsFetch(r, now, RetryDue(timeline[n - 1].at), ideal)
            else r.Closing? || r.Stopped?)
  }

  predicate ScheduleInv(s: State, ideal: bool) {
    && InOrder(s.timeline, s.now)
    && AllFollow(s.timeline, ideal)
    && s.channel == Shown(s.timeline)
    && Pending(s.refresher, s.now, s.timeline, ideal)
  }

  lemma ShownAppend(timeline: seq<Event>, e: Event)
    ensures Shown(timeline + [e]) == match e
      case TokenPublished(t, _) => Some(Ok(t))
      case ErrorPublished(err, _) => Some(Err(err))
      case _ => Shown(timeline)
  {
    assert (timeline + [e])[..|timeline|] == timeline;
  }

  /** A refresher that pends as the events ask for keeps doing so, or does what may follow them. */
  ghost predicate Proceeds(s: State, s': State, ideal: bool) {
    if s'.timeline == s.timeline then
      s'.channel == s.channel && s.now <= s'.now && Pending(s'.refresher, s'.now, s.timeline, ideal)
    else
      && s'.now == s.now && |s'.timeline| == |s.timeline| + 1
      && var e := s'.timeline[|s.timeline|];
      && s'.timeline == s.timeline + [e] && e.at == s.now && Follows(s.timeline, e, ideal)
      && s'.channel == Shown(s'.timeline) && Pending(s'.refresher, s.now, s'.timeline, ideal)
  }

  lemma PublishingProceeds(s: State, e: CredentialsError, next: Refresher, ideal: bool)
    requires s.timeline != [] && s.timeline[|s.timeline| - 1].FetchFailed?
    requires s.timeline[|s.timeline| - 1].error == e
    requires Follows(s.timeline, ErrorPublished(e, s.now), ideal)
    requires if e.transient then AwaitsFetch(next, s.now, RetryDue(s.timeline[|s.timeline| - 1].at), ideal)
             else next.Closing?
    ensures Proceeds(s, SendError(s, e, next), ideal)
  {
    ShownAppend(s.timeline, ErrorPublished(e, s.now));
  }

  lemma PermanentProceeds(s: State, ideal: bool)
    requires s.channel == Shown(s.timeline) && Pending(s.refresher, s.now, s.timeline, ideal)
    requires s.refresher.PermanentFailure? || s.refresher.AwaitStop?
    requires Enabled(s, Resume) && s.timeline != [] && s.timeline[|s.timeline| - 1].FetchFailed?
    ensures Proceeds(s, ResumeRefresher(s), ideal)
  {
    var e := s.refresher.error;
    if s.refresher.AwaitStop? || CurrentExpiration(s.channel).None? {
      PublishingProceeds(s, e, Closing, ideal);
    }
  }

  lemma TransientProceeds(s: State, ideal: bool)
    requires s.channel == Shown(s.timeline) && Pending(s.refresher, s.now, s.timeline, ideal)
    requires s.refresher.TransientFailure? || s.refresher.AwaitExpiry?
    requires Enabled(s, Resume) && s.timeline != [] && s.timeline[|s.timeline| - 1].FetchFailed?
    ensures Proceeds(s, ResumeRefresher(s), ideal)
  {
    var e, short, d := s.refresher.error, s.refresher.short, CurrentExpiration(s.channel);
    if s.refresher.AwaitExpiry? || d.None? || d.value < s.now {
      PublishingProceeds(s, e, Sleeping(short), ideal);
    }
  }

  /** Only a failure is dealt with in these states. */
  lemma DealsWithFailure(s: State, ideal: bool)
    requires Pending(s.refresher, s.now, s.timeline, ideal)
    requires s.refresher.PermanentFailure? || s.refresher.AwaitStop? || s.refresher.TransientFailure? ||
             s.refresher.AwaitExpiry?
    ensures s.timeline != [] && s.timeline[|s.timeline| - 1].FetchFailed?
  {
  }

  lemma RestProceeds(s: State, ideal: bool)
    requires s.channel == Shown(s.timeline) && Pending(s.refresher, s.now, s.timeline, ideal)
    requires Enabled(s, Resume) && (s.refresher.Scheduling? || s.refresher.Sleeping? || s.refresher.Closing?)
    ensures Proceeds(s, ResumeRefresher(s), ideal)
  {
  }

  lemma ResumeProceeds(s: State, ideal: bool)
    requires s.channel == Shown(s.timeline) && Pending(s.refresher, s.now, s.timeline, ideal)
    requires Enabled(s, Resume)
    ensures Proceeds(s, ResumeRefresher(s), ideal)
  {
    if s.refresher.Scheduling? || s.refresher.Sleeping? || s.refresher.Closing? {
      RestProceeds(s, ideal);
    } else {
      DealsWithFailure(s, ideal);
      if s.refresher.PermanentFailure? || s.refresher.AwaitStop? {
        PermanentProceeds(s, ideal);
      } else {
        TransientProceeds(s, ideal);
      }
    }
  }

  lemma FetchProceeds(s: State, step: Step, ideal: bool)
    requires s.channel == Shown(s.timeline) && Pending(s.refresher, s.now, s.timeline, ideal)
    requires Enabled(s, step) && (step.Enter? || step.FetchOk? || step.FetchErr?)
    ensures Proceeds(s, Apply(s, step), ideal)
  {
    match step
    case Enter => ShownAppend(s.timeline, FetchStarted(s.now));
    case FetchOk(t) => ShownAppend(s.timeline, TokenPublished(Tagged(t, s.nextTag), s.now));
    case FetchErr(e) => ShownAppend(s.timeline, FetchFailed(e, s.now));
  }

  /** Time passes as the clock allows. */
  lemma TickPends(s: State, elapsed: nat, ideal: bool)
    requires Pending(s.refresher, s.now, s.timeline, ideal) && (ideal ==> IdealTick(s, Tick(elapsed)))
    ensures Pending(s.refresher, s.now + elapsed, s.timeline, ideal)
  {
  }

  lemma TickKeepsSchedule(s: State, elapsed: nat, ideal: bool)
    requires ScheduleInv(s, ideal) && (ideal ==> IdealTick(s, Tick(elapsed)))
    ensures ScheduleInv(s.(now := s.now + elapsed), ideal)
  {
    TickPends(s, elapsed, ideal);
  }

  lemma OthersProceed(s: State, step: Step, ideal: bool)
    requires Pending(s.refresher, s.now, s.timeline, ideal) && Enabled(s, step)
    requires !step.Tick? && !step.Enter? && !step.FetchOk? && !step.FetchErr? && !step.Resume?
    ensures Proceeds(s, Apply(s, step), ideal)
  {
    var s' := Apply(s, step);
    assert s'.refresher == s.refresher && s'.timeline == s.timeline && s'.now == s.now;
  }

  lemma StepProceeds(s: State, step: Step, ideal: bool)
    requires s.channel == Shown(s.timeline) && Pending(s.refresher, s.now, s.timeline, ideal)
    requires Enabled(s, step) && !step.Tick?
    ensures Proceeds(s, Apply(s, step), ideal)
  {
    match step
    case Resume => ResumeProceeds(s, ideal);
    case Enter => FetchProceeds(s, step, ideal);
    case FetchOk(_) => FetchProceeds(s, step, ideal);
    case FetchErr(_) => FetchProceeds(s, step, ideal);
    case _ => OthersProceed(s, step, ideal);
  }

  lemma AppendFollows(timeline: seq<Event>, e: Event, now: nat, ideal: bool)
    requires InOrder(timeline, now) && AllFollow(timeline, ideal) && Follows(timeline, e, ideal) && e.at == now
    ensures InOrder(timeline + [e], now) && AllFollow(timeline + [e], ideal)
  {
    assert (timeline + [e])[..|timeline|] == timeline;
  }

  lemma ProceedingKeepsSchedule(s: State, s': State, ideal: bool)
    requires ScheduleInv(s, ideal) && Proceeds(s, s', ideal)
    ensures ScheduleInv(s', ideal)
  {
    if s'.timeline == s.timeline {
      assert InOrder(s'.timeline, s'.now);
    } else {
      var e := s'.timeline[|s.timeline|];
      AppendFollows(s.timeline, e, s.now, ideal);
      assert s'.timeline == s.timeline + [e];
    }
  }

  lemma StepKeepsSchedule(s: State, step: Step, ideal: bool)
    requires ScheduleInv(s, ideal) && Enabled(s, step) && (ideal ==> IdealTick(s, step))
    ensures ScheduleInv(Apply(s, step), ideal)
  {
    if step.Tick? {
      TickKeepsSchedule(s, step.elapsed, ideal);
    } else {
      StepProceeds(s, step, ideal);
      ProceedingKeepsSchedule(s, Apply(s, step), ideal);
    }
  }

  lemma {:induction false} ReachableSchedule(steps: seq<Step>, ideal: bool)
    requires Legal(steps) && (ideal ==> Ideal(steps))
    ensures ScheduleInv(Exec(steps), ideal)
  {
    if steps != [] {
      var n := |steps| - 1;
      ReachableSchedule(steps[..n], ideal);
      StepKeepsSchedule(Exec(steps[..n]), steps[n], ideal);
    }
  }

  lemma {:induction false} FollowsAt(timeline: seq<Event>, ideal: bool, i: nat)
    requires AllFollow(timeline, ideal) && i < |timeline|
    ensures Follows(timeline[..i], timeline[i], ideal)
  {
    var n := |timeline| - 1;
    if i < n {
      FollowsAt(timeline[..n], ideal, i);
      assert timeline[..n][..i] == timeline[..i];
    }
  }

  /** In every run each event of the refresher is one that may follow the events before it, no earlier
      than it is due and, under an ideal clock, exactly then. */
  lemma EventsFollow(steps: seq<Step>, ideal: bool, i: nat)
    requires Legal(steps) && (ideal ==> Ideal(steps)) && i < |Exec(steps).timeline|
    ensures Follows(Exec(steps).timeline[..i], Exec(steps).timeline[i], ideal)
    ensures Exec(steps).channel == Shown(Exec(steps).timeline)
  {
    ReachableSchedule(steps, ideal);
    FollowsAt(Exec(steps).timeline, ideal, i);
  }

  /** In every run a published token is followed by a fetch that starts no earlier than it is
      due; under an ideal clock it starts exactly then, so exactly 240 s before the expiry of a
      token that outlives its publication by more than 240 s. */
  lemma RefetchIsDue(steps: seq<Step>, ideal: bool, i: nat)
    requires Legal(steps) && (ideal ==> Ideal(steps))
    requires i + 1 < |Exec(steps).timeline| && Exec(steps).timeline[i].TokenPublished?
    ensures var s := Exec(steps); var e := s.timeline[i].tagged.token.expiresAt;
      && e.Some? && s.timeline[i + 1].FetchStarted?
      && Due(e.value, s.timeline[i].at) <= s.timeline[i + 1].at
      && (ideal && e.value > s.timeline[i].at + 240_000_000_000 ==>
            s.timeline[i + 1].at == e.value - 240_000_000_000)
      && (ideal && e.value <= s.timeline[i].at + 240_000_000_000 ==>
            s.timeline[i + 1].at == s.timeline[i].at + 10_000_000_000)
  {
    EventsFollow(steps, ideal, i + 1);
  }

  /** The next fetch after a failure comes next, or after the publication of the error. */
  lemma FetchAfterFailure(timeline: seq<Event>, ideal: bool, i: nat)
    requires AllFollow(timeline, ideal) && i + 1 < |timeline| && timeline[i].FetchFailed?
    ensures timeline[i + 1].FetchStarted? || timeline[i + 1].ErrorPublished?
    ensures var k := if timeline[i + 1].FetchStarted? then i + 1 else i + 2;
      k < |timeline| ==>
        timeline[k].FetchStarted? && timeline[i].error.transient &&
        OnTime(timeline[k].at, RetryDue(timeline[i].at), ideal)
  {
    FollowsAt(timeline, ideal, i + 1);
    if !timeline[i + 1].FetchStarted? && i + 2 < |timeline| {
      FollowsAt(timeline, ideal, i + 2);
      assert timeline[..i + 2][i] == timeline[i];
    }
  }

  lemma FirstFetchAfter(timeline: seq<Event>, ideal: bool, i: nat, j: nat)
    requires AllFollow(timeline, ideal) && i < j < |timeline|
    requires timeline[i].FetchFailed? && timeline[j].FetchStarted?
    requires forall k :: i < k < j ==> !timeline[k].FetchStarted?
    ensures timeline[i].error.transient && OnTime(timeline[j].at, RetryDue(timeline[i].at), ideal)
  {
    FetchAfterFailure(timeline, ideal, i);
  }

  /** The refresher pauses after a failure: the next fetch starts 10 s after it or later, and exactly then
      under an ideal clock, whether or not the error was published in between. */
  lemma FailureIsFollowedByPause(steps: seq<Step>, ideal: bool, i: nat, j: nat)
    requires Legal(steps) && (ideal ==> Ideal(steps)) && i < j < |Exec(steps).timeline|
    requires var tl := Exec(steps).timeline;
      tl[i].FetchFailed? && tl[j].FetchStarted? && forall k :: i < k < j ==> !tl[k].FetchStarted?
    ensures var tl := Exec(steps).timeline;
      && tl[i].error.transient && tl[j].at >= tl[i].at + 10_000_000_000
      && (ideal ==> tl[j].at == tl[i].at + 10_000_000_000)
  {
    ReachableSchedule(steps, ideal);
    FirstFetchAfter(Exec(steps).timeline, ideal, i, j);
  }

  lemma FetchesApart(timeline: seq<Event>, now: nat, i: nat, j: nat)
    requires AllFollow(timeline, false) && InOrder(timeline, now) && i < j < |timeline|
    requires timeline[i].FetchStarted? && timeline[j].FetchStarted?
    requires forall k :: i < k < j ==> !timeline[k].TokenPublished?
    ensures timeline[j].at >= RetryDue(timeline[i].at)
  {
    FollowsAt(timeline, false, i + 1);
    assert timeline[i + 1].FetchFailed? && i + 1 < j;
    FetchAfterFailure(timeline, false, i + 1);
    var k := if timeline[i + 2].FetchStarted? then i + 2 else i + 3;
    assert k <= j && timeline[i].at <= timeline[i + 1].at && timeline[k].at <= timeline[j].at;
  }

  /** The refresher does not spin on a failing provider: two fetches with no token published between
      them are at least 10 s apart. */
  lemma FailingFetchesArePaced(steps: seq<Step>, i: nat, j: nat)
    requires Legal(steps) && i < j < |Exec(steps).timeline|
    requires var tl := Exec(steps).timeline;
      tl[i].FetchStarted? && tl[j].FetchStarted? && forall k :: i < k < j ==> !tl[k].TokenPublished?
    ensures Exec(steps).timeline[j].at >= Exec(steps).timeline[i].at + 10_000_000_000
  {
    ReachableSchedule(steps, false);
    FetchesApart(Exec(steps).timeline, Exec(steps).now, i, j);
  }

  /** What a failure leads to. Its error is published, no earlier than the token on show expires and, under
      an ideal clock, exactly then, or at once if there is no usable token; or, for a transient error, the
      token on show outlasts the pause and stays. */
  lemma FailureIsFollowedUp(steps: seq<Step>, ideal: bool, i: nat)
    requires Legal(steps) && (ideal ==> Ideal(steps))
    requires i + 1 < |Exec(steps).timeline| && Exec(steps).timeline[i].FetchFailed?
    ensures var tl := Exec(steps).timeline; var expiry := CurrentExpiration(Shown(tl[..i]));
      var next := tl[i + 1];
      if next.ErrorPublished? then
        && next.error == tl[i].error && next.at >= tl[i].at && (expiry.Some? ==> next.at >= expiry.value)
        && (ideal && next.at != tl[i].at ==> expiry == Some(next.at))
        && (ideal && tl[i].error.transient ==> next.at < tl[i].at + 10_000_000_000)
      else
        next.FetchStarted? && tl[i].error.transient && expiry.Some? && expiry.value >= tl[i].at + 10_000_000_000
  {
    var tl := Exec(steps).timeline;
    EventsFollow(steps, ideal, i + 1);
    assert tl[..i + 1] == tl[..i] + [tl[i]];
    ShownAppend(tl[..i], tl[i]);
  }

  /** The refresher cannot spin on a repeated token: of two successive publications with the same
      expiry, at least one is followed by a pause of 10 s or more. */
  lemma NoSpinOnRepeatedExpiry(steps: seq<Step>, i: nat, j: nat)
    requires Legal(steps) && i < j && j + 1 < |Exec(steps).timeline|
    requires var tl := Exec(steps).timeline;
      tl[i].TokenPublished? && tl[j].TokenPublished? &&
      tl[i].tagged.token.expiresAt == tl[j].tagged.token.expiresAt
    ensures var tl := Exec(steps).timeline;
      tl[i + 1].at - tl[i].at >= 10_000_000_000 || tl[j + 1].at - tl[j].at >= 10_000_000_000
  {
    ReachableSchedule(steps, false);
    RefetchIsDue(steps, false, i);
    RefetchIsDue(steps, false, j);
    assert Exec(steps).timeline[i + 1].at <= Exec(steps).timeline[j].at;
  }

  /** Once the cache is dropped no fetch starts any more. */
  lemma {:induction false} NoFetchOnceDropped(pre: seq<Step>, post: seq<Step>, i: nat)
    requires Legal(pre) && !Exec(pre).cacheAlive && Legal(pre + post)
    requires i < |Exec(pre + post).timeline| && Exec(pre + post).timeline[i].FetchStarted?
    ensures !Exec(pre + post).cacheAlive && i < |Exec(pre).timeline|
  {
    if post == [] {
      assert pre + post == pre;
    } else {
      var n := |post| - 1;
      assert pre + post == (pre + post[..n]) + [post[n]];
      LastStep(pre + post[..n], post[n]);
      DroppedStays(pre, post[..n]);
      StepExtendsRecord(Exec(pre + post[..n]), post[n]);
      if i < |Exec(pre + post[..n]).timeline| {
        NoFetchOnceDropped(pre, post[..n], i);
      }
    }
  }

  lemma {:induction false} DroppedStays(pre: seq<Step>, post: seq<Step>)
    requires Legal(pre) && !Exec(pre).cacheAlive && Legal(pre + post)
    ensures !Exec(pre + post).cacheAlive
  {
    if post == [] {
      assert pre + post == pre;
    } else {
      var n := |post| - 1;
      assert pre + post == (pre + post[..n]) + [post[n]];
      LastStep(pre + post[..n], post[n]);
      DroppedStays(pre, post[..n]);
    }
  }

  // ----- which token a tag stands for

  predicate OnRecord(timeline: seq<Event>, t: Tagged) {
    exists i :: 0 <= i < |timeline| && timeline[i].TokenPublished? && timeline[i].tagged == t
  }

  predicate ResultOnRecord(timeline: seq<Event>, v: Published) {
    v.Some? && v.value.Ok? ==> OnRecord(timeline, v.value.value)
  }

  ghost predicate TagsUnique(timeline: seq<Event>, nextTag: nat) {
    && (forall t :: OnRecord(timeline, t) ==> t.tag < nextTag)
    && (forall t, t' :: OnRecord(timeline, t) && OnRecord(timeline, t') && t.tag == t'.tag ==> t == t')
  }

  /** Every token the channel or a reader holds was published, under a tag of its own. */
  ghost predicate TagInv(s: State) {
    && TagsUnique(s.timeline, s.nextTag)
    && ResultOnRecord(s.timeline, s.channel)
    && (forall id :: id in s.readers ==> ReaderOnRecord(s.timeline, s.readers[id]))
  }

  predicate ReaderOnRecord(timeline: seq<Event>, r: Reader) {
    && (r.Borrowed? ==> ResultOnRecord(timeline, r.value))
    && (r.Finished? ==> ResultOnRecord(timeline, Some(r.result)))
  }

  lemma RecordGrows(timeline: seq<Event>, longer: seq<Event>)
    requires timeline <= longer
    ensures forall t :: OnRecord(timeline, t) ==> OnRecord(longer, t)
  {
    forall t | OnRecord(timeline, t)
      ensures OnRecord(longer, t)
    {
      var i :| 0 <= i < |timeline| && timeline[i].TokenPublished? && timeline[i].tagged == t;
      assert longer[i] == timeline[i];
    }
  }

  lemma StepExtendsRecord(s: State, step: Step)
    requires Enabled(s, step)
    ensures s.timeline <= Apply(s, step).timeline
    ensures forall t :: OnRecord(Apply(s, step).timeline, t) ==>
              OnRecord(s.timeline, t) || (step.FetchOk? && t == Tagged(step.token, s.nextTag))
    ensures step.FetchOk? ==> OnRecord(Apply(s, step).timeline, Tagged(step.token, s.nextTag))
    ensures s.nextTag + (if step.FetchOk? then 1 else 0) <= Apply(s, step).nextTag
    ensures Apply(s, step).channel == s.channel || Apply(s, step).channel.value.Err? || step.FetchOk?
  {
    var s' := Apply(s, step);
    assert s.timeline <= s'.timeline;
    if step.FetchOk? {
      assert s'.timeline[|s.timeline|].tagged == Tagged(step.token, s.nextTag);
    }
  }

  lemma StepKeepsReaderOnRecord(s: State, step: Step, id: nat)
    requires TagInv(s) && Enabled(s, step) && id in Apply(s, step).readers
    requires forall t :: OnRecord(s.timeline, t) ==> OnRecord(Apply(s, step).timeline, t)
    ensures ReaderOnRecord(Apply(s, step).timeline, Apply(s, step).readers[id])
  {
    assert id in s.readers ==> ReaderOnRecord(s.timeline, s.readers[id]);
  }

  lemma StepKeepsTagInv(s: State, step: Step)
    requires TagInv(s) && Enabled(s, step)
    ensures TagInv(Apply(s, step))
    ensures s.timeline <= Apply(s, step).timeline
    ensures forall t :: OnRecord(Apply(s, step).timeline, t) ==>
              OnRecord(s.timeline, t) || t.tag == s.nextTag
  {
    StepExtendsRecord(s, step);
    RecordGrows(s.timeline, Apply(s, step).timeline);
    forall id | id in Apply(s, step).readers
      ensures ReaderOnRecord(Apply(s, step).timeline, Apply(s, step).readers[id])
    {
      StepKeepsReaderOnRecord(s, step, id);
    }
  }

  lemma {:induction false} ReachableTags(steps: seq<Step>)
    requires Legal(steps)
    ensures TagInv(Exec(steps))
  {
    if steps != [] {
      var n := |steps| - 1;
      ReachableTags(steps[..n]);
      StepKeepsTagInv(Exec(steps[..n]), steps[n]);
    }
  }

  /** A read decides to wait exactly if it found nothing or a token that has expired, and returns what it
      found otherwise. */
  lemma DecisionIsExact(s: State, id: nat)
    requires Enabled(s, Decide(id))
    ensures var found, r := s.readers[id].value, Apply(s, Decide(id)).readers[id];
      && (r.Waiting? <==>
            found.None? ||
            (found.value.Ok? && found.value.value.token.expiresAt.Some? &&
             found.value.value.token.expiresAt.value < s.now))
      && (!r.Waiting? ==> r.Finished? && found == Some(r.result))
  {
  }

  /** A read that returns without waiting returns a token the refresher published, under a tag no other
      token has, and that has not expired at that instant, or the error it found; it waits exactly if it
      found nothing or a token that has expired. */
  lemma DecidedReadsAreValid(steps: seq<Step>, id: nat)
    requires Legal(steps) && Enabled(Exec(steps), Decide(id))
    ensures var s := Exec(steps); var found, r := s.readers[id].value, Apply(s, Decide(id)).readers[id];
      && (r.Finished? && r.result.Ok? ==>
            var t := r.result.value;
            && OnRecord(s.timeline, t)
            && (forall t' :: OnRecord(s.timeline, t') && t'.tag == t.tag ==> t' == t)
            && (t.token.expiresAt.Some? ==> s.now <= t.token.expiresAt.value))
      && (r.Waiting? <==>
            found.None? ||
            (found.value.Ok? && found.value.value.token.expiresAt.Some? &&
             found.value.value.token.expiresAt.value < s.now))
      && (!r.Waiting? ==> r.Finished? && found == Some(r.result))
  {
    ReachableTags(steps);
    DecisionIsExact(Exec(steps), id);
    assert ReaderOnRecord(Exec(steps).timeline, Exec(steps).readers[id]);
  }
}
