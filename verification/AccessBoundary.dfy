/** Credentials decorated with an access boundary (src/auth/src/access_boundary.rs): a second,
    tag-based cache that combines two independently changing sources under tags of its own. */
module AccessBoundary {
  import opened Resources
  import opened AuthHeaders

  const TRUST_BOUNDARY_HEADER := "x-goog-allowed-locations"
  const NO_OP_ENCODED_LOCATIONS := "0x0"

  /** The contents of an `EntityTagCache`. */
  datatype Cache = Cache(
    tag: Option<EntityTag>,
    credsTag: Option<EntityTag>,
    credsData: Option<HeaderMap>,
    boundaryTag: Option<EntityTag>,
    boundaryData: Option<Option<string>>)

  const EMPTY := Cache(None, None, None, None, None)

  /** How a call ends: an answer, an error, or one of the two `expect`s firing. */
  datatype Outcome =
    | Answer(resource: CacheableResource<HeaderMap>)
    | Failure(error: CredentialsError)
    | Panic

  /** Headers with the boundary header added when there is a boundary. */
  function WithBoundary(headers: HeaderMap, boundary: Option<string>)
    : Result<HeaderMap, CredentialsError>
  {
    match boundary
    case None => Ok(headers)
    case Some(v) =>
      if ValidHeaderValue(v) then Ok(headers[TRUST_BOUNDARY_HEADER := v]) else Err(INVALID_HEADER)
  }

  /** `combine`, answering under `tag`. */
  function Combine(c: Cache, tag: EntityTag): Outcome {
    if c.credsData.None? then Panic
    else
      var boundary := if c.boundaryData.Some? then c.boundaryData.value else None;
      match WithBoundary(c.credsData.value, boundary)
      case Ok(h) => Answer(New(tag, h))
      case Err(e) => Failure(e)
  }

  /** `query_boundary`: `latest` is what the boundary channel shows now. */
  function QueryBoundary(innerTag: Option<EntityTag>, latest: (Option<string>, EntityTag))
    : CacheableResource<Option<string>>
  {
    if innerTag == Some(latest.1) then NotModified else New(latest.1, latest.0)
  }

  /** What one call of `headers` meets: the tag the caller presents, the answer of the inner
      credentials to the cached credentials tag, and what the boundary channel shows. */
  datatype Call = Call(
    callerTag: Option<EntityTag>,
    creds: Result<CacheableResource<HeaderMap>, CredentialsError>,
    latest: (Option<string>, EntityTag))

  /** The cache and the next unused tag. */
  datatype Layer = Layer(cache: Cache, nextTag: nat)

  /** The cache after a source changed, before its new tag is drawn. */
  function Refreshed(c: Cache, creds: CacheableResource<HeaderMap>,
                     boundary: CacheableResource<Option<string>>): Cache
  {
    var c1 := match creds
      case NotModified => c
      case New(t, h) => c.(credsTag := Some(t), credsData := Some(h));
    match boundary
    case NotModified => c1
    case New(t, v) => c1.(boundaryTag := Some(t), boundaryData := Some(v))
  }

  /** The layer after a call of `headers` with the boundary feature enabled. */
  function After(l: Layer, call: Call): Layer {
    match call.creds
    case Err(_) => l
    case Ok(creds) =>
      var boundary := QueryBoundary(l.cache.boundaryTag, call.latest);
      if creds.NotModified? && boundary.NotModified? then l
      else Layer(Refreshed(l.cache, creds, boundary).(tag := Some(l.nextTag)), l.nextTag + 1)
  }

  /** How that call ends. */
  function Ends(l: Layer, call: Call): Outcome {
    match call.creds
    case Err(e) => Failure(e)
    case Ok(creds) =>
      var boundary := QueryBoundary(l.cache.boundaryTag, call.latest);
      if creds.NotModified? && boundary.NotModified? then
        if call.callerTag.Some? && call.callerTag == l.cache.tag then Answer(NotModified)
        else if l.cache.tag.None? then Panic
        else Combine(l.cache, l.cache.tag.value)
      else Combine(After(l, call).cache, l.nextTag)
  }

  /** The cache object behind the mutex; `headers` holds the lock from end to end. */
  class EntityTagCache {
    var tag: Option<EntityTag>
    var credsTag: Option<EntityTag>
    var credsData: Option<HeaderMap>
    var boundaryTag: Option<EntityTag>
    var boundaryData: Option<Option<string>>

    function Contents(): Cache
      reads this
    {
      Cache(tag, credsTag, credsData, boundaryTag, boundaryData)
    }

    constructor ()
      ensures Contents() == EMPTY
    {
      tag, credsTag, credsData, boundaryTag, boundaryData := None, None, None, None, None;
    }

    method CombineData(answerTag: EntityTag) returns (o: Outcome)
      ensures o == Combine(Contents(), answerTag)
    {
      if credsData.None? {
        return Panic;
      }
      var headers := credsData.value;
      if boundaryData.Some? && boundaryData.value.Some? {
        if !ValidHeaderValue(boundaryData.value.value) {
          return Failure(INVALID_HEADER);
        }
        headers := headers[TRUST_BOUNDARY_HEADER := boundaryData.value.value];
      }
      return Answer(New(answerTag, headers));
    }

    method UpdateResource(tags: TagGenerator) returns (o: Outcome)
      modifies this`tag, tags
      ensures tags.next == old(tags.next) + 1
      ensures Contents() == old(Contents()).(tag := Some(old(tags.next)))
      ensures o == Combine(Contents(), old(tags.next))
    {
      var newTag := tags.Fresh();
      tag := Some(newTag);
      o := CombineData(newTag);
    }

    method UpdateCredentials(t: EntityTag, data: HeaderMap, tags: TagGenerator) returns (o: Outcome)
      modifies this`tag, this`credsTag, this`credsData, tags
      ensures tags.next == old(tags.next) + 1
      ensures Contents() == old(Contents()).(credsTag := Some(t), credsData := Some(data),
                                             tag := Some(old(tags.next)))
      ensures o == Combine(Contents(), old(tags.next))
    {
      credsTag, credsData := Some(t), Some(data);
      o := UpdateResource(tags);
    }

    method UpdateBoundary(t: EntityTag, data: Option<string>, tags: TagGenerator) returns (o: Outcome)
      modifies this`tag, this`boundaryTag, this`boundaryData, tags
      ensures tags.next == old(tags.next) + 1
      ensures Contents() == old(Contents()).(boundaryTag := Some(t), boundaryData := Some(data),
                                             tag := Some(old(tags.next)))
      ensures o == Combine(Contents(), old(tags.next))
    {
      boundaryTag, boundaryData := Some(t), Some(data);
      o := UpdateResource(tags);
    }

    method UpdateBoth(ct: EntityTag, creds: HeaderMap, bt: EntityTag, boundary: Option<string>,
                      tags: TagGenerator) returns (o: Outcome)
      modifies this, tags
      ensures tags.next == old(tags.next) + 1
      ensures Contents() ==
        Cache(Some(old(tags.next)), Some(ct), Some(creds), Some(bt), Some(boundary))
      ensures o == Combine(Contents(), old(tags.next))
    {
      credsTag, credsData := Some(ct), Some(creds);
      boundaryTag, boundaryData := Some(bt), Some(boundary);
      o := UpdateResource(tags);
    }

    /** `headers`; without the boundary feature the inner answer passes through. */
    method Headers(enabled: bool, call: Call, tags: TagGenerator) returns (o: Outcome)
      modifies this, tags
      ensures enabled ==> Layer(Contents(), tags.next) == After(old(Layer(Contents(), tags.next)), call)
      ensures enabled ==> o == Ends(old(Layer(Contents(), tags.next)), call)
      ensures !enabled ==> Contents() == old(Contents()) && tags.next == old(tags.next)
      ensures !enabled ==> o == if call.creds.Ok? then Answer(call.creds.value) else Failure(call.creds.error)
    {
      if call.creds.Err? {
        return Failure(call.creds.error);
      }
      if !enabled {
        return Answer(call.creds.value);
      }
      var boundary := QueryBoundary(boundaryTag, call.latest);
      match (call.creds.value, boundary)
      case (NotModified, NotModified) =>
        if call.callerTag.Some? && call.callerTag == tag {
          o := Answer(NotModified);
        } else if tag.None? {
          o := Panic;
        } else {
          o := CombineData(tag.value);
        }
      case (New(t, h), NotModified) => o := UpdateCredentials(t, h, tags);
      case (NotModified, New(t, v)) => o := UpdateBoundary(t, v, tags);
      case (New(ct, h), New(bt, v)) => o := UpdateBoth(ct, h, bt, v, tags);
    }
  }

  // ----- runs of calls

  /** Between calls other components may draw any number of tags. */
  datatype Move = DrawTags(count: nat) | Serve(call: Call)

  datatype Served = Served(call: Call, before: Cache, outcome: Outcome)

  datatype History = History(layer: Layer, served: seq<Served>)

  const START := History(Layer(EMPTY, 0), [])

  /** The inner provider says NotModified only when it was passed a tag. */
  predicate InnerContract(c: Cache, call: Call) {
    call.creds == Ok(NotModified) ==> c.credsTag.Some?
  }

  function Advance(h: History, m: Move): History {
    match m
    case DrawTags(n) => h.(layer := h.layer.(nextTag := h.layer.nextTag + n))
    case Serve(call) =>
      History(After(h.layer, call),
              h.served + [Served(call, h.layer.cache, Ends(h.layer, call))])
  }

  function Play(moves: seq<Move>): History {
    if moves == [] then START
    else Advance(Play(moves[..|moves| - 1]), moves[|moves| - 1])
  }

  predicate Fair(moves: seq<Move>) {
    forall i :: 0 <= i < |moves| && moves[i].Serve? ==>
      InnerContract(Play(moves[..i]).layer.cache, moves[i].call)
  }

  /** The i-th served call gave out headers `d` under tag `t`. */
  predicate IssuedAt(h: History, i: int, t: int, d: HeaderMap) {
    0 <= i < |h.served| && h.served[i].outcome.Answer? &&
    h.served[i].outcome.resource.New? && h.served[i].outcome.resource.entityTag == t &&
    h.served[i].outcome.resource.data == d
  }

  /** All five fields are present or none is. */
  predicate AllOrNone(c: Cache) {
    c == EMPTY ||
    (c.tag.Some? && c.credsTag.Some? && c.credsData.Some? && c.boundaryTag.Some? && c.boundaryData.Some?)
  }

  /** Headers given out under the current tag are what the cached parts combine to; older tags are
      smaller, so no tag is ever given out with two contents. */
  ghost predicate IssueInv(h: History) {
    && (h.layer.cache.tag.Some? ==> h.layer.cache.tag.value < h.layer.nextTag)
    && (forall i, t, d :: IssuedAt(h, i, t, d) ==>
          && h.layer.cache.tag.Some?
          && t <= h.layer.cache.tag.value
          && (t == h.layer.cache.tag.value ==> Combine(h.layer.cache, t) == Answer(New(t, d))))
    && (forall i, j, t, d, d' :: IssuedAt(h, i, t, d) && IssuedAt(h, j, t, d') ==> d == d')
  }

  /** NotModified answers a caller that presents the current tag; headers given out earlier under
      that tag are still what the cached parts combine to. */
  ghost predicate ConfirmsCurrent(h: History, j: nat)
    requires j < |h.served|
  {
    var s := h.served[j];
    s.outcome == Answer(NotModified) ==>
      && s.call.callerTag.Some? && s.before.tag == s.call.callerTag
      && (forall i, d :: i < j && IssuedAt(h, i, s.call.callerTag.value, d) ==>
            Combine(s.before, s.call.callerTag.value) == Answer(New(s.call.callerTag.value, d)))
  }

  ghost predicate HistoryInv(h: History) {
    && AllOrNone(h.layer.cache)
    && IssueInv(h)
    && (forall j :: 0 <= j < |h.served| ==>
          ConfirmsCurrent(h, j) && !h.served[j].outcome.Panic? && AllOrNone(h.served[j].before))
  }

  lemma AfterIsFresh(l: Layer, call: Call)
    ensures After(l, call) == l ||
      (After(l, call).cache.tag == Some(l.nextTag) && After(l, call).nextTag == l.nextTag + 1)
    ensures Ends(l, call).Answer? && Ends(l, call).resource.New? ==>
      var t := Ends(l, call).resource.entityTag;
      After(l, call).cache.tag == Some(t) && Combine(After(l, call).cache, t) == Ends(l, call)
  {
  }

  lemma ServeKeepsIssueInv(h: History, call: Call)
    requires IssueInv(h)
    ensures IssueInv(Advance(h, Serve(call)))
  {
    var h' := Advance(h, Serve(call));
    AfterIsFresh(h.layer, call);
    var n := |h.served|;
    forall i, t, d | IssuedAt(h', i, t, d)
      ensures h'.layer.cache.tag.Some? && t <= h'.layer.cache.tag.value
      ensures t == h'.layer.cache.tag.value ==> Combine(h'.layer.cache, t) == Answer(New(t, d))
    {
      if i < n {
        assert IssuedAt(h, i, t, d);
      }
    }
    forall i, j, t, d, d' | IssuedAt(h', i, t, d) && IssuedAt(h', j, t, d')
      ensures d == d'
    {
      if i < n && j < n {
        assert IssuedAt(h, i, t, d) && IssuedAt(h, j, t, d');
      }
    }
  }

  lemma ServeKeepsHistoryInv(h: History, call: Call)
    requires HistoryInv(h) && InnerContract(h.layer.cache, call)
    ensures HistoryInv(Advance(h, Serve(call)))
  {
    ServeKeepsIssueInv(h, call);
    var h' := Advance(h, Serve(call));
    forall j | 0 <= j < |h'.served|
      ensures ConfirmsCurrent(h', j) && !h'.served[j].outcome.Panic? && AllOrNone(h'.served[j].before)
    {
      assert j < |h.served| ==> ConfirmsCurrent(h, j);
      assert forall i, t, d :: i < |h.served| && IssuedAt(h', i, t, d) ==> IssuedAt(h, i, t, d);
    }
  }

  lemma DrawKeepsHistoryInv(h: History, n: nat)
    requires HistoryInv(h)
    ensures HistoryInv(Advance(h, DrawTags(n)))
  {
    var h' := Advance(h, DrawTags(n));
    assert forall i, t, d :: IssuedAt(h', i, t, d) ==> IssuedAt(h, i, t, d);
    forall j | 0 <= j < |h'.served|
      ensures ConfirmsCurrent(h', j)
    {
      assert ConfirmsCurrent(h, j);
    }
  }

  lemma FairPrefix(moves: seq<Move>)
    requires Fair(moves) && moves != []
    ensures Fair(moves[..|moves| - 1])
    ensures moves[|moves| - 1].Serve? ==>
      InnerContract(Play(moves[..|moves| - 1]).layer.cache, moves[|moves| - 1].call)
  {
    var n := |moves| - 1;
    forall i | 0 <= i < n && moves[..n][i].Serve?
      ensures InnerContract(Play(moves[..n][..i]).layer.cache, moves[..n][i].call)
    {
      assert moves[..n][..i] == moves[..i];
    }
  }

  lemma {:induction false} PlayInv(moves: seq<Move>)
    requires Fair(moves)
    ensures HistoryInv(Play(moves))
  {
    if moves != [] {
      var n := |moves| - 1;
      FairPrefix(moves);
      PlayInv(moves[..n]);
      match moves[n]
      case DrawTags(k) => DrawKeepsHistoryInv(Play(moves[..n]), k);
      case Serve(call) => ServeKeepsHistoryInv(Play(moves[..n]), call);
    }
  }

  /** Over every run of calls, failing ones included: one outer tag never stands for two header
      maps, a NotModified answer confirms exactly the headers the cached parts combine to, the
      five cached fields are present or absent together, and neither `expect` fires. */
  lemma {:induction false} CompositeCacheIsCoherent(moves: seq<Move>)
    requires Fair(moves)
    ensures var h := Play(moves);
      && (forall i, j, t, d, d' :: IssuedAt(h, i, t, d) && IssuedAt(h, j, t, d') ==> d == d')
      && (forall j :: 0 <= j < |h.served| ==> ConfirmsCurrent(h, j))
      && (forall j :: 0 <= j < |h.served| ==> !h.served[j].outcome.Panic?)
      && AllOrNone(h.layer.cache)
  {
    PlayInv(moves);
  }

  // ----- tags that were never given out

  /** The cached parts combine: there are credentials, and a boundary is a valid header value. */
  predicate Combines(c: Cache) {
    c.credsData.Some? &&
    (c.boundaryData.Some? && c.boundaryData.value.Some? ==> ValidHeaderValue(c.boundaryData.value.value))
  }

  /** One of the first `n` calls gave out headers under `t`. */
  ghost predicate GivenOut(h: History, n: int, t: EntityTag) {
    exists i, d :: i < n && IssuedAt(h, i, t, d)
  }

  /** The current tag, and every tag a NotModified confirmed, was given out exactly if the parts behind
      it combine. */
  ghost predicate GivenOutInv(h: History) {
    && (h.layer.cache.tag.Some? ==>
          (GivenOut(h, |h.served|, h.layer.cache.tag.value) <==> Combines(h.layer.cache)))
    && (forall j :: 0 <= j < |h.served| && h.served[j].outcome == Answer(NotModified) ==>
          && h.served[j].call.callerTag.Some?
          && (GivenOut(h, j, h.served[j].call.callerTag.value) <==> Combines(h.served[j].before)))
  }

  lemma GivenOutGrows(h: History, h': History, n: int, t: EntityTag)
    requires h.served <= h'.served && n <= |h.served|
    ensures GivenOut(h, n, t) <==> GivenOut(h', n, t)
  {
    if GivenOut(h, n, t) {
      var i, d :| i < n && IssuedAt(h, i, t, d);
      assert IssuedAt(h', i, t, d);
    }
    if GivenOut(h', n, t) {
      var i, d :| i < n && IssuedAt(h', i, t, d);
      assert IssuedAt(h, i, t, d);
    }
  }

  /** A call that draws a tag gives it out exactly if the parts it leaves behind combine. */
  lemma NewTagIsGivenOut(h: History, call: Call)
    requires HistoryInv(h) && InnerContract(h.layer.cache, call) && After(h.layer, call) != h.layer
    ensures var h' := Advance(h, Serve(call));
      GivenOut(h', |h'.served|, h.layer.nextTag) <==> Combines(h'.layer.cache)
  {
    var h' := Advance(h, Serve(call));
    var n, t := |h.served|, h.layer.nextTag;
    AfterIsFresh(h.layer, call);
    if Combines(h'.layer.cache) {
      assert IssuedAt(h', n, t, h'.served[n].outcome.resource.data);
    }
    if GivenOut(h', n + 1, t) {
      var i, d :| i < n + 1 && IssuedAt(h', i, t, d);
      assert i < n ==> IssuedAt(h, i, t, d);
      assert i == n;
    }
  }

  /** A call that draws none gives out headers only under the tag that was current already. */
  lemma OldTagIsGivenOut(h: History, call: Call)
    requires HistoryInv(h) && GivenOutInv(h) && InnerContract(h.layer.cache, call)
    requires After(h.layer, call) == h.layer && h.layer.cache.tag.Some?
    ensures var h' := Advance(h, Serve(call));
      GivenOut(h', |h'.served|, h.layer.cache.tag.value) <==> Combines(h.layer.cache)
  {
    var h' := Advance(h, Serve(call));
    var n, t := |h.served|, h.layer.cache.tag.value;
    GivenOutGrows(h, h', n, t);
    AfterIsFresh(h.layer, call);
    if Combines(h.layer.cache) {
      assert GivenOut(h', n, t);
    }
    if GivenOut(h', n + 1, t) {
      var i, d :| i < n + 1 && IssuedAt(h', i, t, d);
      assert i < n ==> GivenOut(h', n, t);
    }
  }

  lemma ServeKeepsGivenOut(h: History, call: Call)
    requires HistoryInv(h) && GivenOutInv(h) && InnerContract(h.layer.cache, call)
    ensures GivenOutInv(Advance(h, Serve(call)))
  {
    var h' := Advance(h, Serve(call));
    AfterIsFresh(h.layer, call);
    if After(h.layer, call) != h.layer {
      NewTagIsGivenOut(h, call);
    } else if h.layer.cache.tag.Some? {
      OldTagIsGivenOut(h, call);
    }
    forall j | 0 <= j < |h'.served| && h'.served[j].outcome == Answer(NotModified)
      ensures h'.served[j].call.callerTag.Some?
      ensures GivenOut(h', j, h'.served[j].call.callerTag.value) <==> Combines(h'.served[j].before)
    {
      GivenOutGrows(h, h', j, h'.served[j].call.callerTag.value);
    }
  }

  lemma DrawKeepsGivenOut(h: History, n: nat)
    requires GivenOutInv(h)
    ensures GivenOutInv(Advance(h, DrawTags(n)))
  {
    var h' := Advance(h, DrawTags(n));
    forall j, t | 0 <= j <= |h.served|
      ensures GivenOut(h, j, t) <==> GivenOut(h', j, t)
    {
      GivenOutGrows(h, h', j, t);
    }
  }

  lemma {:induction false} PlayGivesOut(moves: seq<Move>)
    requires Fair(moves)
    ensures GivenOutInv(Play(moves))
  {
    if moves != [] {
      var n := |moves| - 1;
      FairPrefix(moves);
      PlayInv(moves[..n]);
      PlayGivesOut(moves[..n]);
      match moves[n]
      case Serve(call) => ServeKeepsGivenOut(Play(moves[..n]), call);
      case DrawTags(k) => DrawKeepsGivenOut(Play(moves[..n]), k);
    }
  }

  /** Exactly when a NotModified confirms headers its tag was given out with: when the cached boundary
      is a valid header value, or there is none. The tag is replaced before the parts are combined, so
      otherwise it names headers nobody ever got. */
  lemma ConfirmedTagWasGivenOutIff(moves: seq<Move>, j: nat)
    requires Fair(moves) && j < |Play(moves).served|
    requires Play(moves).served[j].outcome == Answer(NotModified)
    ensures var s := Play(moves).served[j];
      && s.call.callerTag.Some?
      && (GivenOut(Play(moves), j, s.call.callerTag.value) <==>
            (s.before.boundaryData.Some? && s.before.boundaryData.value.Some? ==>
               ValidHeaderValue(s.before.boundaryData.value.value)))
  {
    PlayInv(moves);
    PlayGivesOut(moves);
    assert AllOrNone(Play(moves).served[j].before) && ConfirmsCurrent(Play(moves), j);
  }

  /** So the current tag was given out exactly if the cached boundary is a valid header value, or there
      is none; otherwise it is lost, and every caller gets the error. */
  lemma CurrentTagWasGivenOutIff(moves: seq<Move>)
    requires Fair(moves) && Play(moves).layer.cache.tag.Some?
    ensures var h := Play(moves); var boundary := h.layer.cache.boundaryData;
      GivenOut(h, |h.served|, h.layer.cache.tag.value) <==>
        (boundary.Some? && boundary.value.Some? ==> ValidHeaderValue(boundary.value.value))
  {
    PlayInv(moves);
    PlayGivesOut(moves);
  }

  /** Such a run: a call with a malformed boundary fails and leaves a current tag that was never given
      out. */
  lemma FailedCallLosesItsTag()
    ensures var h := Play([DrawTags(3), Serve(Call(None, Ok(New(1, map[])), (Some("\n"), 2)))]);
      h.served[0].outcome.Failure? && h.layer.cache.tag == Some(3) && !GivenOut(h, 1, 3)
  {
    var bad := Call(None, Ok(New(1, map[])), (Some("\n"), 2));
    var moves := [DrawTags(3), Serve(bad)];
    assert '\n' in "\n";
    var h1 := Advance(START, DrawTags(3));
    assert moves[..1][..0] == [] && moves[..1] == [DrawTags(3)];
    assert Play(moves[..1]) == h1;
    assert Play(moves) == Advance(h1, Serve(bad));
  }

  // ----- what callers can present

  /** The i-th move is a call that draws tag `t` for this cache. */
  predicate DrawsAt(moves: seq<Move>, i: int, t: EntityTag) {
    0 <= i < |moves| && moves[i].Serve? && Play(moves[..i]).layer.nextTag == t &&
    After(Play(moves[..i]).layer, moves[i].call) != Play(moves[..i]).layer
  }

  ghost predicate DrawnHere(moves: seq<Move>, t: EntityTag) {
    exists i :: DrawsAt(moves, i, t)
  }

  /** Tags cannot be forged: a caller holds tags this cache gave out, and tags it did not draw, such as
      those of other components or the default tag, which equals the first tag drawn, that of the boundary
      channel. */
  ghost predicate CanPresent(moves: seq<Move>, t: EntityTag) {
    GivenOut(Play(moves), |Play(moves).served|, t) || !DrawnHere(moves, t)
  }

  ghost predicate Honest(moves: seq<Move>) {
    forall i :: 0 <= i < |moves| && moves[i].Serve? && moves[i].call.callerTag.Some? ==>
      CanPresent(moves[..i], moves[i].call.callerTag.value)
  }

  lemma {:induction false} CurrentWasDrawnHere(moves: seq<Move>)
    ensures Play(moves).layer.cache.tag.Some? ==> DrawnHere(moves, Play(moves).layer.cache.tag.value)
  {
    if moves != [] {
      var n := |moves| - 1;
      CurrentWasDrawnHere(moves[..n]);
      var h := Play(moves[..n]);
      if moves[n].Serve? {
        AfterIsFresh(h.layer, moves[n].call);
      }
      if h.layer.cache.tag.Some? {
        var i :| DrawsAt(moves[..n], i, h.layer.cache.tag.value);
        assert moves[..n][..i] == moves[..i];
        assert DrawsAt(moves, i, h.layer.cache.tag.value);
      }
      assert moves[n].Serve? && After(h.layer, moves[n].call) != h.layer ==> DrawsAt(moves, n, h.layer.nextTag);
    }
  }

  lemma HonestPrefix(moves: seq<Move>)
    requires Honest(moves) && moves != []
    ensures Honest(moves[..|moves| - 1])
  {
    var n := |moves| - 1;
    forall i | 0 <= i < n && moves[..n][i].Serve? && moves[..n][i].call.callerTag.Some?
      ensures CanPresent(moves[..n][..i], moves[..n][i].call.callerTag.value)
    {
      assert moves[..n][..i] == moves[..i];
    }
  }

  lemma {:induction false} HonestConfirmations(moves: seq<Move>, j: nat)
    requires Fair(moves) && Honest(moves) && j < |Play(moves).served|
    requires Play(moves).served[j].outcome == Answer(NotModified)
    ensures Play(moves).served[j].call.callerTag.Some?
    ensures GivenOut(Play(moves), j, Play(moves).served[j].call.callerTag.value)
  {
    var n := |moves| - 1;
    var h, h' := Play(moves[..n]), Play(moves);
    FairPrefix(moves);
    HonestPrefix(moves);
    if j < |h.served| {
      HonestConfirmations(moves[..n], j);
    } else {
      CurrentWasDrawnHere(moves[..n]);
      assert CanPresent(moves[..n], moves[n].call.callerTag.value);
    }
    GivenOutGrows(h, h', j, h'.served[j].call.callerTag.value);
  }

  /** For callers that present only tags they can hold: every NotModified confirms headers that an earlier
      call gave out under that tag, and they are what the cached parts combine to. */
  lemma ConfirmationsAreGenuine(moves: seq<Move>, j: nat)
    requires Fair(moves) && Honest(moves) && j < |Play(moves).served|
    requires Play(moves).served[j].outcome == Answer(NotModified)
    ensures var h := Play(moves); var s := h.served[j];
      s.call.callerTag.Some? &&
      exists i, d :: i < j && IssuedAt(h, i, s.call.callerTag.value, d) &&
        Combine(s.before, s.call.callerTag.value) == Answer(New(s.call.callerTag.value, d))
  {
    var h := Play(moves);
    HonestConfirmations(moves, j);
    PlayInv(moves);
    assert ConfirmsCurrent(h, j);
    var i, d :| i < j && IssuedAt(h, i, h.served[j].call.callerTag.value, d);
  }
}
