/** The whole credential stack as the providers compose it: a token cache, the headers built from
    its tokens, and the access boundary layer on top, with one tag counter and one clock. */
module CredentialStack {
  import opened Resources
  import TC = TokenCache
  import opened AuthHeaders
  import opened AccessBoundary
  import BR = BoundaryRefresh

  /** A `headers` call that holds the cache lock while token reader `reader` runs for it. */
  datatype Pending = Pending(callerTag: Option<EntityTag>, reader: nat)

  datatype Stack = Stack(
    token: TC.State,
    boundary: BR.Boundary,
    history: History,
    call: Option<Pending>)

  datatype Step =
    | Pass(time: nat)                              // time passes for every component
    | OfToken(step: TC.Step)
    | OfBoundary(action: BR.Action)
    | StartCall(callerTag: Option<EntityTag>, reader: nat)
    | FinishCall

  /** The boundary channel draws the first tag. */
  const INIT := Stack(TC.INIT.(nextTag := 1), BR.Created(0), START.(layer := Layer(EMPTY, 1)), None)

  /** `TokenCache::token` for a caller that presents `tag`. */
  function TokenAnswer(tag: Option<EntityTag>, r: Result<TC.Tagged, CredentialsError>)
    : Result<CacheableResource<TC.Token>, CredentialsError>
  {
    match r
    case Err(e) => Err(e)
    case Ok(t) => Ok(if tag == Some(t.tag) then NotModified else New(t.tag, t.token))
  }

  /** The inner credentials' `headers`: the token cache's answer turned into headers. */
  function InnerHeaders(b: Builder, tag: Option<EntityTag>, r: Result<TC.Tagged, CredentialsError>)
    : Result<CacheableResource<HeaderMap>, CredentialsError>
  {
    match TokenAnswer(tag, r)
    case Err(e) => Err(e)
    case Ok(token) => Build(b, token)
  }

  /** What the layer's call meets once its token reader has finished: `query_credentials` passes
      the cached credentials tag on and never the caller's. */
  function CallOf(b: Builder, s: Stack): Call
    requires CanFinish(s)
  {
    var r := s.token.readers[s.call.value.reader].result;
    Call(s.call.value.callerTag, InnerHeaders(b, s.history.layer.cache.credsTag, r),
         BR.LatestHeader(s.boundary))
  }

  predicate CanFinish(s: Stack) {
    s.call.Some? && s.call.value.reader in s.token.readers &&
    s.token.readers[s.call.value.reader].Finished?
  }

  predicate Enabled(s: Stack, step: Step) {
    match step
    case Pass(_) => true
    case OfToken(t) => !t.Tick? && TC.Enabled(s.token, t)
    case OfBoundary(a) =>
      !a.Elapse? && BR.CanAct(s.boundary, a) && (a.Fetched? ==> a.tag == s.token.nextTag)
    case StartCall(_, id) => s.call.None? && TC.Enabled(s.token, TC.StartRead(id))
    case FinishCall => CanFinish(s)
  }

  function Draw(h: History, n: int): History {
    if n <= 0 then h else Advance(h, DrawTags(n))
  }

  function Apply(b: Builder, s: Stack, step: Step): Stack
    requires Enabled(s, step)
  {
    match step
    case Pass(d) =>
      s.(token := TC.Apply(s.token, TC.Tick(d)), boundary := BR.Act(s.boundary, BR.Elapse(d)))
    case OfToken(t) =>
      var token := TC.Apply(s.token, t);
      s.(token := token, history := Draw(s.history, token.nextTag - s.token.nextTag))
    case OfBoundary(a) =>
      var n := if a.Fetched? then 1 else 0;
      s.(boundary := BR.Act(s.boundary, a), history := Draw(s.history, n),
         token := s.token.(nextTag := s.token.nextTag + n))
    case StartCall(tag, id) =>
      s.(token := TC.Apply(s.token, TC.StartRead(id)), call := Some(Pending(tag, id)))
    case FinishCall =>
      var h := Advance(s.history, Serve(CallOf(b, s)));
      s.(history := h, call := None, token := s.token.(nextTag := h.layer.nextTag))
  }

  /** What the token reader of a finishing call returned. */
  function ReaderResult(s: Stack): Result<TC.Tagged, CredentialsError>
    requires CanFinish(s)
  {
    s.token.readers[s.call.value.reader].result
  }

  /** How a finishing call ends. */
  function Outcome(b: Builder, s: Stack): AccessBoundary.Outcome
    requires CanFinish(s)
  {
    Apply(b, s, FinishCall).history.served[|s.history.served|].outcome
  }

  predicate Legal(b: Builder, steps: seq<Step>)
    decreases |steps|, 0
  {
    steps == [] ||
    (var n := |steps| - 1; Legal(b, steps[..n]) && Enabled(Exec(b, steps[..n]), steps[n]))
  }

  function Exec(b: Builder, steps: seq<Step>): Stack
    requires Legal(b, steps)
    decreases |steps|, 1
  {
    if steps == [] then INIT
    else var n := |steps| - 1; Apply(b, Exec(b, steps[..n]), steps[n])
  }

  // ----- the invariant

  /** The cached credentials are the headers of the token their tag was published for. */
  ghost predicate CredsInv(b: Builder, s: Stack) {
    var c := s.history.layer.cache;
    c.credsTag.Some? && c.credsData.Some? ==>
      && c.credsTag.value < s.token.nextTag
      && (forall t :: TC.OnRecord(s.token.timeline, t) && t.tag == c.credsTag.value ==>
            HeadersOf(b, t.token) == Ok(c.credsData.value))
  }

  /** A cached boundary under the current boundary tag is the published value, or nothing if it
      was read after the value had expired. */
  predicate BoundaryInv(s: Stack) {
    var c := s.history.layer.cache;
    && s.boundary.tag < s.token.nextTag
    && (c.boundaryTag.Some? ==> c.boundaryTag.value < s.token.nextTag)
    && (c.boundaryTag == Some(s.boundary.tag) && c.boundaryData.Some? ==>
          match s.boundary.value {
            case None => c.boundaryData.value == None
            case Some(v) =>
              c.boundaryData.value == BR.HeaderOf(v) ||
              (c.boundaryData.value == None && BR.Expired(s.boundary))
          })
  }

  ghost predicate Inv(b: Builder, s: Stack) {
    && TC.Inv(s.token) && TC.TagInv(s.token)
    && s.token.now == s.boundary.now && s.token.nextTag == s.history.layer.nextTag
    && HistoryInv(s.history)
    && CredsInv(b, s) && BoundaryInv(s)
  }

  lemma TokenStepKeepsInv(b: Builder, s: Stack, t: TC.Step)
    requires Inv(b, s) && Enabled(s, OfToken(t))
    ensures Inv(b, Apply(b, s, OfToken(t)))
  {
    TC.StepKeepsInv(s.token, t);
    TC.StepKeepsTagInv(s.token, t);
    if t.FetchOk? || t.DrawTag? {
      DrawKeepsHistoryInv(s.history, 1);
    }
  }

  lemma BoundaryStepKeepsInv(b: Builder, s: Stack, a: BR.Action)
    requires Inv(b, s) && Enabled(s, OfBoundary(a))
    ensures Inv(b, Apply(b, s, OfBoundary(a)))
  {
    if a.Fetched? {
      DrawKeepsHistoryInv(s.history, 1);
      assert TC.Inv(s.token.(nextTag := s.token.nextTag + 1)) by {
        TC.StepKeepsInv(s.token, TC.DrawTag);
      }
      TC.StepKeepsTagInv(s.token, TC.DrawTag);
    }
  }

  lemma FinishKeepsInv(b: Builder, s: Stack)
    requires Inv(b, s) && Enabled(s, FinishCall)
    ensures InnerContract(s.history.layer.cache, CallOf(b, s))
    ensures Inv(b, Apply(b, s, FinishCall))
  {
    var call := CallOf(b, s);
    ServeKeepsHistoryInv(s.history, call);
    var s' := Apply(b, s, FinishCall);
    assert s'.token == s.token || s'.token == TC.Apply(s.token, TC.DrawTag);
    TC.StepKeepsInv(s.token, TC.DrawTag);
    TC.StepKeepsTagInv(s.token, TC.DrawTag);
    assert CredsInv(b, s') by {
      var r := s.token.readers[s.call.value.reader];
      assert TC.ReaderOnRecord(s.token.timeline, r);
    }
  }

  lemma StepKeepsInv(b: Builder, s: Stack, step: Step)
    requires Inv(b, s) && Enabled(s, step)
    ensures Inv(b, Apply(b, s, step))
  {
    match step
    case Pass(d) =>
      TC.StepKeepsInv(s.token, TC.Tick(d));
      TC.StepKeepsTagInv(s.token, TC.Tick(d));
    case OfToken(t) => TokenStepKeepsInv(b, s, t);
    case OfBoundary(a) => BoundaryStepKeepsInv(b, s, a);
    case StartCall(_, id) =>
      TC.StepKeepsInv(s.token, TC.StartRead(id));
      TC.StepKeepsTagInv(s.token, TC.StartRead(id));
    case FinishCall => FinishKeepsInv(b, s);
  }

  lemma {:induction false} ReachableInv(b: Builder, steps: seq<Step>)
    requires Legal(b, steps)
    ensures Inv(b, Exec(b, steps))
  {
    if steps != [] {
      var n := |steps| - 1;
      ReachableInv(b, steps[..n]);
      StepKeepsInv(b, Exec(b, steps[..n]), steps[n]);
    }
  }

  // ----- the token cache inside the stack

  /** What a stack step is to the token cache; draws of other components are `DrawTag`. */
  function TokenSteps(b: Builder, s: Stack, step: Step): seq<TC.Step>
    requires Enabled(s, step)
  {
    match step
    case Pass(d) => [TC.Tick(d)]
    case OfToken(t) => [t]
    case OfBoundary(a) => if a.Fetched? then [TC.DrawTag] else []
    case StartCall(_, id) => [TC.StartRead(id)]
    case FinishCall =>
      if After(s.history.layer, CallOf(b, s)) == s.history.layer then [] else [TC.DrawTag]
  }

  /** The token cache's own view of a stack run. */
  function TokenView(b: Builder, steps: seq<Step>): seq<TC.Step>
    requires Legal(b, steps)
  {
    if steps == [] then [TC.DrawTag]
    else
      var n := |steps| - 1;
      TokenView(b, steps[..n]) + TokenSteps(b, Exec(b, steps[..n]), steps[n])
  }

  lemma StepIsTokenStep(b: Builder, s: Stack, step: Step)
    requires Enabled(s, step) && s.token.nextTag == s.history.layer.nextTag
    ensures var v := TokenSteps(b, s, step);
      && |v| <= 1
      && (v == [] ==> Apply(b, s, step).token == s.token)
      && (v != [] ==> TC.Enabled(s.token, v[0]) && Apply(b, s, step).token == TC.Apply(s.token, v[0]))
  {
    if step.FinishCall? {
      AfterIsFresh(s.history.layer, CallOf(b, s));
    }
  }

  /** The token cache of a stack run is in a state of a legal run of its own, so everything proved
      of token cache runs holds inside the stack. */
  lemma {:induction false} StackRefinesTokenCache(b: Builder, steps: seq<Step>)
    requires Legal(b, steps)
    ensures TC.Legal(TokenView(b, steps))
    ensures TC.Exec(TokenView(b, steps)) == Exec(b, steps).token
  {
    if steps == [] {
      TC.Extend([], TC.DrawTag);
      assert [] + [TC.DrawTag] == [TC.DrawTag];
    } else {
      var n := |steps| - 1;
      StackRefinesTokenCache(b, steps[..n]);
      ReachableInv(b, steps[..n]);
      var view := TokenView(b, steps[..n]);
      var s := Exec(b, steps[..n]);
      var v := TokenSteps(b, s, steps[n]);
      StepIsTokenStep(b, s, steps[n]);
      if v == [] {
        assert view + v == view;
      } else {
        TC.Extend(view, v[0]);
        assert v == [v[0]];
      }
    }
  }

  // ----- every answer against an uncached call

  /** What a call without any cache would build from a token and a boundary. */
  function Uncached(b: Builder, r: Result<TC.Tagged, CredentialsError>, boundary: Option<string>)
    : Result<HeaderMap, CredentialsError>
  {
    match r
    case Err(e) => Err(e)
    case Ok(t) =>
      match HeadersOf(b, t.token)
      case Err(e) => Err(e)
      case Ok(h) => WithBoundary(h, boundary)
  }

  /** The caller presents no tag, or one it was given with headers `d`. */
  ghost predicate Holds(h: History, callerTag: Option<EntityTag>, d: HeaderMap) {
    callerTag.Some? ==> exists i :: IssuedAt(h, i, callerTag.value, d)
  }

  /** The headers (or the error) an outcome leaves with a caller that holds `d` under its tag. */
  function Stands(o: Outcome, d: HeaderMap): Option<Result<HeaderMap, CredentialsError>> {
    match o
    case Answer(New(_, h)) => Some(Ok(h))
    case Answer(NotModified) => Some(Ok(d))
    case Failure(e) => Some(Err(e))
    case Panic => None
  }

  /** The cache still carries a boundary that has expired since it was read. */
  predicate Stale(s: Stack) {
    var c := s.history.layer.cache;
    BR.Expired(s.boundary) && c.boundaryTag == Some(s.boundary.tag) &&
    c.boundaryData.Some? && c.boundaryData.value.Some?
  }

  /** The credentials part of a finishing call: an error, or the headers of its token. */
  function CredsPart(b: Builder, s: Stack): Result<HeaderMap, CredentialsError>
    requires CanFinish(s)
  {
    Uncached(b, ReaderResult(s), None)
  }

  /** A call combines the headers of the token it was handed with the boundary its cache holds
      after `query_boundary`. */
  lemma CallCombines(b: Builder, s: Stack, d: HeaderMap)
    requires Inv(b, s) && CanFinish(s) && Holds(s.history, s.call.value.callerTag, d)
    ensures var after := After(s.history.layer, CallOf(b, s)).cache;
      var boundary := if after.boundaryData.Some? then after.boundaryData.value else None;
      Stands(Ends(s.history.layer, CallOf(b, s)), d) ==
        Some(match CredsPart(b, s) case Err(e) => Err(e) case Ok(h) => WithBoundary(h, boundary))
  {
    var r := s.token.readers[s.call.value.reader];
    assert TC.ReaderOnRecord(s.token.timeline, r);
    var tag := s.call.value.callerTag;
    if Ends(s.history.layer, CallOf(b, s)) == Answer(NotModified) {
      var i :| IssuedAt(s.history, i, tag.value, d);
      assert Combine(s.history.layer.cache, tag.value) == Answer(New(tag.value, d));
    }
  }

  /** What the cache holds for the boundary is what the channel shows, unless it is stale. */
  lemma CachedBoundary(b: Builder, s: Stack)
    requires Inv(b, s) && CanFinish(s) && CredsPart(b, s).Ok?
    ensures var after := After(s.history.layer, CallOf(b, s)).cache;
      && after.boundaryData.Some?
      && (!Stale(s) ==> after.boundaryData.value == BR.LatestHeader(s.boundary).0)
      && (Stale(s) ==> after.boundaryData.value.Some? && BR.LatestHeader(s.boundary).0 == None)
  {
  }

  lemma BoundaryHeaderShows(b: Builder, s: Stack, v: string)
    requires CanFinish(s) && CredsPart(b, s).Ok?
    ensures WithBoundary(CredsPart(b, s).value, Some(v)) != Ok(CredsPart(b, s).value)
  {
    assert |TRUST_BOUNDARY_HEADER| != |AUTHORIZATION| && |TRUST_BOUNDARY_HEADER| != |API_KEY_HEADER_KEY|;
    assert |TRUST_BOUNDARY_HEADER| != |QUOTA_PROJECT_KEY|;
    assert TRUST_BOUNDARY_HEADER !in CredsPart(b, s).value;
  }

  /** End to end, in every run and for every caller that presents only tags it was given: a call
      leaves its caller with exactly the headers (or the error) an uncached call would build from
      the token it was handed and the boundary the channel shows, if and only if its credentials
      part fails or its cached boundary is not stale. */
  lemma {:induction false} AnswersEqualUncached(b: Builder, steps: seq<Step>, d: HeaderMap)
    requires Legal(b, steps) && CanFinish(Exec(b, steps))
    requires Holds(Exec(b, steps).history, Exec(b, steps).call.value.callerTag, d)
    ensures var s := Exec(b, steps);
      Stands(Outcome(b, s), d) ==
        Some(Uncached(b, ReaderResult(s), BR.LatestHeader(s.boundary).0))
      <==> (CredsPart(b, s).Err? || !Stale(s))
  {
    ReachableInv(b, steps);
    var s := Exec(b, steps);
    CallCombines(b, s, d);
    if CredsPart(b, s).Ok? {
      CachedBoundary(b, s);
      var cached := After(s.history.layer, CallOf(b, s)).cache.boundaryData.value;
      if Stale(s) {
        BoundaryHeaderShows(b, s, cached.value);
      }
    }
  }

  // ----- what the answer says, entry by entry

  /** The last fetched locations of a run and the instant they were fetched at. */
  function LastFetch(b: Builder, steps: seq<Step>): Option<(Option<string>, nat)>
    requires Legal(b, steps)
  {
    if steps == [] then None
    else
      var n := |steps| - 1;
      if steps[n].OfBoundary? && steps[n].action.Fetched? then
        Some((steps[n].action.locations, Exec(b, steps[..n]).token.now))
      else LastFetch(b, steps[..n])
  }

  lemma {:induction false} HoldsLastFetch(b: Builder, steps: seq<Step>)
    requires Legal(b, steps)
    ensures Exec(b, steps).boundary.value == match LastFetch(b, steps)
      case None => None
      case Some((locations, at)) => Some(BR.BoundaryValue(locations, at + 21_600_000_000_000))
  {
    if steps != [] {
      HoldsLastFetch(b, steps[..|steps| - 1]);
      ReachableInv(b, steps[..|steps| - 1]);
    }
  }

  /** Location `v` is in force: it was fetched last, is not the value that stands for no restriction, and
      was fetched at most six hours ago or stays in the cache although it has expired. */
  predicate InForce(b: Builder, steps: seq<Step>, v: string)
    requires Legal(b, steps)
  {
    var last := LastFetch(b, steps);
    last.Some? && last.value.0 == Some(v) && v != "0x0" &&
    (Exec(b, steps).token.now <= last.value.1 + 21_600_000_000_000 || Stale(Exec(b, steps)))
  }

  /** The entries a call must answer with for token `t`. */
  predicate IsEntry(b: Builder, steps: seq<Step>, t: TC.Token, name: string, text: string)
    requires Legal(b, steps)
  {
    IsHeader(b, t, name, text) || (name == "x-goog-allowed-locations" && InForce(b, steps, text))
  }

  /** The boundary a finishing call combines with its credentials. */
  function BoundaryUsed(b: Builder, s: Stack): Option<string>
    requires CanFinish(s)
  {
    var data := After(s.history.layer, CallOf(b, s)).cache.boundaryData;
    if data.Some? then data.value else None
  }

  lemma UsedIffInForce(b: Builder, steps: seq<Step>, v: string)
    requires Legal(b, steps) && CanFinish(Exec(b, steps)) && CredsPart(b, Exec(b, steps)).Ok?
    ensures InForce(b, steps, v) <==> BoundaryUsed(b, Exec(b, steps)) == Some(v)
  {
    HoldsLastFetch(b, steps);
    ReachableInv(b, steps);
    CachedBoundary(b, Exec(b, steps));
  }

  /** Adding the boundary header to the headers of a token, entry by entry. */
  lemma WithBoundaryIsExact(b: Builder, steps: seq<Step>, t: TC.Token, used: Option<string>)
    requires Legal(b, steps) && HeadersOf(b, t).Ok?
    requires forall v :: InForce(b, steps, v) <==> used == Some(v)
    ensures var u := WithBoundary(HeadersOf(b, t).value, used);
      && (u.Ok? <==> forall name, text :: IsEntry(b, steps, t, name, text) ==> ValidHeaderValue(text))
      && (u.Ok? ==> forall name, text ::
            IsEntry(b, steps, t, name, text) <==> name in u.value && u.value[name] == text)
  {
    HeadersAreExact(b, t);
    assert |TRUST_BOUNDARY_HEADER| == 24;
    if used.Some? {
      assert IsEntry(b, steps, t, TRUST_BOUNDARY_HEADER, used.value);
    }
  }

  /** In every run a call leaves its caller with the error its token reader returned, or, for a token, with
      exactly the entries that token, the settings and the location in force call for; it fails on a token
      exactly if one of them is not a valid header value. */
  lemma AnswersAreExact(b: Builder, steps: seq<Step>, d: HeaderMap)
    requires Legal(b, steps) && CanFinish(Exec(b, steps))
    requires Holds(Exec(b, steps).history, Exec(b, steps).call.value.callerTag, d)
    ensures var s := Exec(b, steps); var left := Stands(Outcome(b, s), d);
      && left.Some?
      && match ReaderResult(s)
         case Err(e) => left.value == Err(e)
         case Ok(t) =>
           && (left.value.Ok? <==>
                 (forall name, text :: IsHeader(b, t.token, name, text) ==> ValidHeaderValue(text)) &&
                 (forall v :: InForce(b, steps, v) ==> ValidHeaderValue(v)))
           && (left.value.Ok? ==>
                 forall name, text :: IsEntry(b, steps, t.token, name, text) <==>
                   name in left.value.value && left.value.value[name] == text)
  {
    var s := Exec(b, steps);
    ReachableInv(b, steps);
    CallCombines(b, s, d);
    if ReaderResult(s).Ok? {
      var t := ReaderResult(s).value.token;
      HeadersAreExact(b, t);
      if CredsPart(b, s).Ok? {
        forall v
          ensures InForce(b, steps, v) <==> BoundaryUsed(b, s) == Some(v)
        {
          UsedIffInForce(b, steps, v);
        }
        WithBoundaryIsExact(b, steps, t, BoundaryUsed(b, s));
        assert forall v :: InForce(b, steps, v) ==> IsEntry(b, steps, t, TRUST_BOUNDARY_HEADER, v);
        assert forall name, text :: IsHeader(b, t, name, text) ==> IsEntry(b, steps, t, name, text);
      }
    }
  }

  // ----- when a call answers NotModified

  /** The last call that gave out headers: under which tag, for which token, and whether no boundary was
      published since. */
  datatype Given = Given(tag: EntityTag, token: TC.Tagged, current: bool)

  function LastGiven(b: Builder, steps: seq<Step>): Option<Given>
    requires Legal(b, steps)
  {
    if steps == [] then None
    else
      var n := |steps| - 1;
      var s, before := Exec(b, steps[..n]), LastGiven(b, steps[..n]);
      match steps[n]
      case FinishCall => Give(before, Outcome(b, s), ReaderResult(s))
      case OfBoundary(a) => if a.Fetched? && before.Some? then Some(before.value.(current := false)) else before
      case _ => before
  }

  function Give(before: Option<Given>, o: AccessBoundary.Outcome, r: Result<TC.Tagged, CredentialsError>)
    : Option<Given>
  {
    if o.Answer? && o.resource.New? && r.Ok? then Some(Given(o.resource.entityTag, r.value, true)) else before
  }

  /** The cache is as the last call that gave out headers left it, or it has not taken in the current
      boundary, or that boundary is not a valid header value. */
  ghost predicate GivenInv(s: Stack, last: Option<Given>) {
    var c := s.history.layer.cache;
    && GivenOutInv(s.history)
    && (if last.Some? && last.value.current then
          && c.tag == Some(last.value.tag) && c.credsTag == Some(last.value.token.tag)
          && c.boundaryTag == Some(s.boundary.tag) && Combines(c)
          && TC.OnRecord(s.token.timeline, last.value.token)
        else c.boundaryTag == Some(s.boundary.tag) ==> !Combines(c))
  }

  lemma FinishKeepsGiven(b: Builder, s: Stack, last: Option<Given>)
    requires Inv(b, s) && GivenInv(s, last) && CanFinish(s)
    ensures GivenInv(Apply(b, s, FinishCall), Give(last, Outcome(b, s), ReaderResult(s)))
  {
    FinishKeepsInv(b, s);
    ServeKeepsGivenOut(s.history, CallOf(b, s));
    AfterIsFresh(s.history.layer, CallOf(b, s));
    assert TC.ReaderOnRecord(s.token.timeline, s.token.readers[s.call.value.reader]);
  }

  lemma StepKeepsGiven(b: Builder, s: Stack, step: Step, last: Option<Given>)
    requires Inv(b, s) && GivenInv(s, last) && Enabled(s, step) && !step.FinishCall?
    ensures GivenInv(Apply(b, s, step),
                     if step.OfBoundary? && step.action.Fetched? && last.Some?
                     then Some(last.value.(current := false)) else last)
  {
    DrawKeepsGivenOut(s.history, 1);
    if step.OfToken? {
      TC.StepExtendsRecord(s.token, step.step);
      TC.RecordGrows(s.token.timeline, Apply(b, s, step).token.timeline);
    }
  }

  lemma {:induction false} ReachableGiven(b: Builder, steps: seq<Step>)
    requires Legal(b, steps)
    ensures GivenInv(Exec(b, steps), LastGiven(b, steps))
  {
    if steps != [] {
      var n := |steps| - 1;
      ReachableInv(b, steps[..n]);
      ReachableGiven(b, steps[..n]);
      if steps[n].FinishCall? {
        FinishKeepsGiven(b, Exec(b, steps[..n]), LastGiven(b, steps[..n]));
      } else {
        StepKeepsGiven(b, Exec(b, steps[..n]), steps[n], LastGiven(b, steps[..n]));
      }
    }
  }

  /** Nothing has changed since the last call that gave out headers: its token is the one the reader of the
      finishing call returned, and no boundary was published since. */
  predicate Unchanged(b: Builder, steps: seq<Step>)
    requires Legal(b, steps) && CanFinish(Exec(b, steps))
  {
    var last := LastGiven(b, steps);
    last.Some? && last.value.current && ReaderResult(Exec(b, steps)) == Ok(last.value.token)
  }

  lemma UnchangedIffSourcesSay(b: Builder, steps: seq<Step>)
    requires Legal(b, steps) && CanFinish(Exec(b, steps))
    requires var c := Exec(b, steps).history.layer.cache; Combines(c)
    ensures var s := Exec(b, steps); var call := CallOf(b, s);
      Unchanged(b, steps) <==>
        call.creds == Ok(NotModified) && s.history.layer.cache.boundaryTag == Some(s.boundary.tag)
  {
    ReachableInv(b, steps);
    ReachableGiven(b, steps);
    var s := Exec(b, steps);
    assert TC.ReaderOnRecord(s.token.timeline, s.token.readers[s.call.value.reader]);
  }

  /** In every run, a call whose caller presents no tag or one that was given out answers NotModified if
      and only if nothing has changed since the last call that gave out headers and the caller presents
      the tag of that call. Any other successful call gives out headers: under that same tag if nothing has
      changed, and otherwise under a tag that was never given out before. */
  lemma NotModifiedIffUnchanged(b: Builder, steps: seq<Step>)
    requires Legal(b, steps) && CanFinish(Exec(b, steps))
    requires var s := Exec(b, steps); var tag := s.call.value.callerTag;
      tag.Some? ==> GivenOut(s.history, |s.history.served|, tag.value)
    ensures var s := Exec(b, steps); var o, last := Outcome(b, s), LastGiven(b, steps);
      && (o == Answer(NotModified) <==>
            Unchanged(b, steps) && s.call.value.callerTag == Some(last.value.tag))
      && (o.Answer? && o.resource.New? ==>
            if Unchanged(b, steps) then o.resource.entityTag == last.value.tag
            else !GivenOut(s.history, |s.history.served|, o.resource.entityTag))
  {
    ReachableInv(b, steps);
    ReachableGiven(b, steps);
    var s := Exec(b, steps);
    if Combines(s.history.layer.cache) {
      UnchangedIffSourcesSay(b, steps);
    }
  }

  // ----- a stale boundary is reachable

  lemma Extend(b: Builder, steps: seq<Step>, step: Step) returns (longer: seq<Step>)
    requires Legal(b, steps) && Enabled(Exec(b, steps), step)
    ensures longer == steps + [step] && Legal(b, longer)
    ensures Exec(b, longer) == Apply(b, Exec(b, steps), step)
  {
    longer := steps + [step];
    assert longer[..|steps|] == steps;
  }

  /** A token that never expires. */
  const TOKEN := TC.Token("t", "Bearer", None)

  predicate ValidQuota(b: Builder) {
    b.quotaProjectId.Some? ==> ValidHeaderValue(b.quotaProjectId.value)
  }

  /** A boundary and a token are published. */
  lemma BothPublished(b: Builder, v: string) returns (steps: seq<Step>)
    ensures Legal(b, steps)
    ensures var s := Exec(b, steps);
      && s.token.channel == Some(Ok(TC.Tagged(TOKEN, 2))) && s.token.nextTag == 3 && s.token.now == 0
      && s.token.readers == map[] && s.token.cacheAlive && s.call.None?
      && s.boundary.now == 0 && s.boundary.tag == 1
      && s.boundary.value == Some(BR.BoundaryValue(Some(v), BR.DEFAULT_TTL))
      && s.history.layer == Layer(EMPTY, 3)
  {
    var s1 := Extend(b, [], OfBoundary(BR.Poll(true)));
    var s2 := Extend(b, s1, OfBoundary(BR.Fetched(Some(v), 1)));
    var s3 := Extend(b, s2, OfToken(TC.Enter));
    steps := Extend(b, s3, OfToken(TC.FetchOk(TOKEN)));
  }

  /** Reader `id` runs for a call that presents no tag, and returns the token. */
  lemma CallReads(b: Builder, before: seq<Step>, id: nat) returns (steps: seq<Step>)
    requires Legal(b, before)
    requires var s := Exec(b, before);
      s.call.None? && s.token.channel == Some(Ok(TC.Tagged(TOKEN, 2))) && s.token.cacheAlive && id !in s.token.readers
    ensures Legal(b, steps)
    ensures var s0 := Exec(b, before); var s := Exec(b, steps);
      && s.call == Some(Pending(None, id)) && s.boundary == s0.boundary && s.history == s0.history
      && s.token == s0.token.(readers := s0.token.readers[id := TC.Finished(Ok(TC.Tagged(TOKEN, 2)))])
  {
    var s0 := Exec(b, before);
    var s1 := Extend(b, before, StartCall(None, id));
    steps := Extend(b, s1, OfToken(TC.Decide(id)));
    assert Exec(b, steps).token.readers == s0.token.readers[id := TC.Finished(Ok(TC.Tagged(TOKEN, 2)))];
  }

  lemma TokenBuilds(b: Builder)
    requires ValidQuota(b)
    ensures HeadersOf(b, TOKEN).Ok?
  {
    assert CredentialText(b, TOKEN) == if b.headerType.Bearer? then "Bearer t" else "t";
  }

  /** A call caches the boundary, and the boundary then expires with nothing new published. */
  lemma BoundaryExpires(b: Builder, v: string) returns (steps: seq<Step>)
    requires ValidQuota(b) && v != NO_OP_ENCODED_LOCATIONS
    ensures Legal(b, steps)
    ensures var s := Exec(b, steps); var c := s.history.layer.cache;
      && s.call.None? && s.token.channel == Some(Ok(TC.Tagged(TOKEN, 2))) && s.token.cacheAlive
      && 1 !in s.token.readers && BR.Expired(s.boundary)
      && c.boundaryTag == Some(s.boundary.tag) && c.boundaryData == Some(Some(v))
  {
    var s1 := BothPublished(b, v);
    var s2 := CallReads(b, s1, 0);
    TokenBuilds(b);
    var s3 := Extend(b, s2, FinishCall);
    steps := Extend(b, s3, Pass(BR.DEFAULT_TTL + 1));
  }

  /** The run `steps` ends where a call is about to finish with a stale boundary, and to leave a caller
      without a tag with other headers than an uncached call. */
  ghost predicate EndsStale(b: Builder, steps: seq<Step>) {
    && Legal(b, steps) && CanFinish(Exec(b, steps)) && Stale(Exec(b, steps))
    && var s := Exec(b, steps);
    s.call.value.callerTag.None? &&
    Stands(Outcome(b, s), map[]) !=
      Some(Uncached(b, ReaderResult(s), BR.LatestHeader(s.boundary).0))
  }

  /** The failing case is reached: whatever the settings and the boundary, some run ends in it. */
  lemma StaleBoundaryIsReachable(b: Builder, v: string)
    requires ValidQuota(b) && v != NO_OP_ENCODED_LOCATIONS
    ensures exists steps :: EndsStale(b, steps)
  {
    var before := BoundaryExpires(b, v);
    var steps := CallReads(b, before, 1);
    TokenBuilds(b);
    AnswersEqualUncached(b, steps, map[]);
    assert EndsStale(b, steps);
  }

  // ----- which token an answer stands for

  /** After `n` steps of the run the token channel held `v`. */
  predicate Held(b: Builder, steps: seq<Step>, n: int, v: TC.Published) {
    0 <= n <= |steps| && Legal(b, steps[..n]) && Exec(b, steps[..n]).token.channel == v
  }

  /** What the reader has borrowed or returned was in the token channel after `from` steps or later. */
  ghost predicate ReadLive(b: Builder, r: TC.Reader, steps: seq<Step>, from: nat) {
    && (r.Borrowed? ==> exists n :: from <= n && Held(b, steps, n, r.value))
    && (r.Finished? ==> exists n :: from <= n && Held(b, steps, n, Some(r.result)))
  }

  lemma HeldStays(b: Builder, steps: seq<Step>, longer: seq<Step>)
    requires steps <= longer
    ensures forall n, v :: Held(b, steps, n, v) ==> Held(b, longer, n, v)
  {
    forall n, v | Held(b, steps, n, v)
      ensures Held(b, longer, n, v)
    {
      assert longer[..n] == steps[..n];
    }
  }

  lemma LastStep(b: Builder, init: seq<Step>, step: Step)
    requires Legal(b, init + [step])
    ensures Legal(b, init) && Enabled(Exec(b, init), step)
    ensures Exec(b, init + [step]) == Apply(b, Exec(b, init), step)
  {
    assert (init + [step])[..|init|] == init;
  }

  lemma StepKeepsReadLive(b: Builder, steps: seq<Step>, step: Step, id: nat, from: nat)
    requires Legal(b, steps) && Enabled(Exec(b, steps), step) && from <= |steps|
    requires id in Exec(b, steps).token.readers && ReadLive(b, Exec(b, steps).token.readers[id], steps, from)
    ensures var s' := Apply(b, Exec(b, steps), step);
      id in s'.token.readers && ReadLive(b, s'.token.readers[id], steps + [step], from)
  {
    var s := Exec(b, steps);
    ReachableInv(b, steps);
    StepIsTokenStep(b, s, step);
    var v := TokenSteps(b, s, step);
    if v != [] {
      TC.StepMovesReader(s.token, v[0], id);
    }
    HeldStays(b, steps, steps + [step]);
    assert steps[..|steps|] == steps;
    assert Held(b, steps, |steps|, s.token.channel);
  }

  lemma StepKeepsCall(b: Builder, s: Stack, step: Step)
    requires Enabled(s, step) && s.call.Some? && !step.FinishCall?
    ensures Apply(b, s, step).call == s.call
  {
  }

  /** A call in progress stays that call, and its reader sees only what the channel holds meanwhile. */
  lemma {:induction false} CallReadsLive(b: Builder, pre: seq<Step>, tag: Option<EntityTag>, id: nat,
                                         mid: seq<Step>)
    requires Legal(b, pre + [StartCall(tag, id)] + mid) && FinishCall !in mid
    ensures var steps := pre + [StartCall(tag, id)] + mid; var s := Exec(b, steps);
      && s.call == Some(Pending(tag, id)) && id in s.token.readers
      && ReadLive(b, s.token.readers[id], steps, |pre|)
    decreases |mid|
  {
    var started := pre + [StartCall(tag, id)];
    if mid == [] {
      assert started + mid == started;
      LastStep(b, pre, StartCall(tag, id));
      assert started[..|pre|] == pre;
      assert Held(b, started, |pre|, Exec(b, pre).token.channel);
    } else {
      var n := |mid| - 1;
      var before := started + mid[..n];
      assert started + mid == before + [mid[n]];
      LastStep(b, before, mid[n]);
      CallReadsLive(b, pre, tag, id, mid[..n]);
      StepKeepsCall(b, Exec(b, before), mid[n]);
      StepKeepsReadLive(b, before, mid[n], id, |pre|);
    }
  }

  /** Calls are linearizable: a call whose cached boundary is not stale leaves its caller with exactly
      what an uncached call would build from the token or error that the token channel held at some
      instant between the call's start and its end, and the boundary shown at its end. */
  lemma CallsAreLinearizable(b: Builder, pre: seq<Step>, tag: Option<EntityTag>, id: nat, mid: seq<Step>,
                             d: HeaderMap)
    requires Legal(b, pre + [StartCall(tag, id)] + mid) && FinishCall !in mid
    requires var s := Exec(b, pre + [StartCall(tag, id)] + mid);
      CanFinish(s) && !Stale(s) && Holds(s.history, tag, d)
    ensures var steps := pre + [StartCall(tag, id)] + mid; var s := Exec(b, steps);
      exists n, r :: |pre| <= n <= |steps| && Held(b, steps, n, Some(r)) &&
        Stands(Outcome(b, s), d) ==
          Some(Uncached(b, r, BR.LatestHeader(s.boundary).0))
  {
    var steps := pre + [StartCall(tag, id)] + mid;
    CallReadsLive(b, pre, tag, id, mid);
    AnswersEqualUncached(b, steps, d);
    var r := Exec(b, steps).token.readers[id].result;
    var n :| |pre| <= n && Held(b, steps, n, Some(r));
  }

  /** Boundary fetches of a stack run are paced as `BoundaryRefresh` describes. */
  predicate Paced(s: Stack, step: Step, fetch: nat, streak: nat)
    requires Enabled(s, step)
  {
    match step
    case Pass(d) => BR.Paced(s.boundary, BR.Elapse(d), fetch, streak)
    case OfBoundary(a) => BR.Paced(s.boundary, a, fetch, streak)
    case _ => true
  }

  predicate AllPaced(b: Builder, steps: seq<Step>, fetch: nat, streak: nat)
    requires Legal(b, steps)
  {
    steps == [] ||
    (var n := |steps| - 1;
     AllPaced(b, steps[..n], fetch, streak) && Paced(Exec(b, steps[..n]), steps[n], fetch, streak))
  }

  lemma {:induction false} PacedStackIsOnTime(b: Builder, steps: seq<Step>, fetch: nat, streak: nat)
    requires Legal(b, steps) && AllPaced(b, steps, fetch, streak)
    ensures BR.OnTime(Exec(b, steps).boundary, fetch, streak)
  {
    if steps != [] {
      var n := |steps| - 1;
      PacedStackIsOnTime(b, steps[..n], fetch, streak);
      var s := Exec(b, steps[..n]);
      match steps[n]
      case Pass(d) => BR.PacedStaysOnTime(s.boundary, BR.Elapse(d), fetch, streak);
      case OfBoundary(a) => BR.PacedStaysOnTime(s.boundary, a, fetch, streak);
      case _ =>
    }
  }

  /** While boundary fetches last at most `fetch` and fail at most `streak` times in a row, with
      both fitting into the refresh slack, every call of every run equals the uncached call. */
  lemma PacedStackNeverStale(b: Builder, steps: seq<Step>, d: HeaderMap, fetch: nat, streak: nat)
    requires Legal(b, steps) && CanFinish(Exec(b, steps))
    requires Holds(Exec(b, steps).history, Exec(b, steps).call.value.callerTag, d)
    requires AllPaced(b, steps, fetch, streak)
    requires streak * (fetch + 900_000_000_000) + fetch <= 3_600_000_000_000
    ensures var s := Exec(b, steps);
      Stands(Outcome(b, s), d) ==
        Some(Uncached(b, ReaderResult(s), BR.LatestHeader(s.boundary).0))
  {
    PacedStackIsOnTime(b, steps, fetch, streak);
    BR.OnTimeIsUnexpired(Exec(b, steps).boundary, fetch, streak);
    AnswersEqualUncached(b, steps, d);
  }
}
