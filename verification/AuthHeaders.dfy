/** Header construction from a token (src/auth/src/headers_util.rs). A header map is a finite map
    from header names to values; the sensitivity mark of a value is not modelled. */
module AuthHeaders {
  import opened Resources
  import opened TokenCache

  type HeaderMap = map<string, string>

  const AUTHORIZATION := "authorization"
  const API_KEY_HEADER_KEY := "x-goog-api-key"
  const QUOTA_PROJECT_KEY := "x-goog-user-project"

  datatype HeaderType = Bearer | ApiKey

  /** The builder's settings; the token is an argument of `Build`. */
  datatype Builder = Builder(headerType: HeaderType, quotaProjectId: Option<string>)

  /** Error codes that this layer and the access boundary layer add. */
  const INVALID_HEADER := CredentialsError(false, 0)

  /** `HeaderValue::from_str` accepts tabs and the printable part of ASCII. */
  predicate ValidHeaderValue(v: string) {
    forall c :: c in v ==> c == '\t' || ' ' <= c <= '~'
  }

  function HeaderName(b: Builder): string {
    match b.headerType case Bearer => AUTHORIZATION case ApiKey => API_KEY_HEADER_KEY
  }

  /** The text of the credential header. */
  function CredentialText(b: Builder, t: Token): string {
    match b.headerType case Bearer => t.tokenType + " " + t.token case ApiKey => t.token
  }

  function HeaderValue(b: Builder, t: Token): Result<string, CredentialsError> {
    if ValidHeaderValue(CredentialText(b, t)) then Ok(CredentialText(b, t)) else Err(INVALID_HEADER)
  }

  /** What `as_headers` builds. */
  function HeadersOf(b: Builder, t: Token): Result<HeaderMap, CredentialsError> {
    match HeaderValue(b, t)
    case Err(e) => Err(e)
    case Ok(v) =>
      match b.quotaProjectId
      case None => Ok(map[HeaderName(b) := v])
      case Some(p) =>
        if ValidHeaderValue(p) then Ok(map[HeaderName(b) := v, QUOTA_PROJECT_KEY := p])
        else Err(INVALID_HEADER)
  }

  /** The entries that the headers of a token must have, by name and text: `authorization` with type and
      token, or `x-goog-api-key` with the token, and `x-goog-user-project` if a project is set. */
  predicate IsHeader(b: Builder, t: Token, name: string, text: string) {
    || (name == "authorization" && b.headerType.Bearer? && text == t.tokenType + " " + t.token)
    || (name == "x-goog-api-key" && b.headerType.ApiKey? && text == t.token)
    || (name == "x-goog-user-project" && b.quotaProjectId == Some(text))
  }

  /** `as_headers`: fails exactly if some text is not a valid header value; otherwise the map has these
      entries and no others. */
  method AsHeaders(b: Builder, t: Token) returns (r: Result<HeaderMap, CredentialsError>)
    ensures r.Ok? <==> forall name, text :: IsHeader(b, t, name, text) ==> ValidHeaderValue(text)
    ensures r.Err? ==> r.error == INVALID_HEADER
    ensures r.Ok? ==>
      forall name, text :: IsHeader(b, t, name, text) <==> name in r.value && r.value[name] == text
    ensures r == HeadersOf(b, t)
  {
    HeadersAreExact(b, t);
    NamesDiffer();
    var value := HeaderValue(b, t);
    if value.Err? {
      return Err(value.error);
    }
    var headers: HeaderMap := map[];
    headers := headers[HeaderName(b) := value.value];
    if b.quotaProjectId.Some? {
      if !ValidHeaderValue(b.quotaProjectId.value) {
        return Err(INVALID_HEADER);
      }
      headers := headers[QUOTA_PROJECT_KEY := b.quotaProjectId.value];
    }
    return Ok(headers);
  }

  lemma HeadersAreExact(b: Builder, t: Token)
    ensures HeadersOf(b, t).Ok? <==> forall name, text :: IsHeader(b, t, name, text) ==> ValidHeaderValue(text)
    ensures HeadersOf(b, t).Ok? ==>
      forall name, text :: IsHeader(b, t, name, text) <==>
        name in HeadersOf(b, t).value && HeadersOf(b, t).value[name] == text
    ensures HeadersOf(b, t).Err? ==> HeadersOf(b, t).error == INVALID_HEADER
  {
    NamesDiffer();
    assert IsHeader(b, t, HeaderName(b), CredentialText(b, t));
    if b.quotaProjectId.Some? {
      assert IsHeader(b, t, QUOTA_PROJECT_KEY, b.quotaProjectId.value);
    }
  }

  /** The three header names are distinct. */
  lemma NamesDiffer()
    ensures AUTHORIZATION != API_KEY_HEADER_KEY && AUTHORIZATION != QUOTA_PROJECT_KEY
    ensures API_KEY_HEADER_KEY != QUOTA_PROJECT_KEY
  {
    assert |AUTHORIZATION| == 13 && |API_KEY_HEADER_KEY| == 14 && |QUOTA_PROJECT_KEY| == 19;
  }

  /** Text before its first space and after it, if the text was so put together. */
  lemma SpaceSplits(a: string, b: string, a': string, b': string)
    requires ' ' !in a && ' ' !in a' && a + " " + b == a' + " " + b'
    ensures a == a' && b == b'
  {
    var whole, whole' := a + " " + b, a' + " " + b';
    assert whole[|a|] == ' ' && whole'[|a'|] == ' ';
    assert |a| == |a'|;
    assert whole[..|a|] == a && whole'[..|a'|] == a' && whole[|a| + 1..] == b && whole'[|a'| + 1..] == b';
  }

  /** The headers tell everything they were built from: the kind of header, the quota project, the token
      and, for a bearer token whose type has no space in it, its type. So different tokens or projects
      never share headers. */
  lemma HeadersAreInjective(b: Builder, t: Token, b': Builder, t': Token)
    requires HeadersOf(b, t).Ok? && HeadersOf(b, t) == HeadersOf(b', t')
    requires ' ' !in t.tokenType && ' ' !in t'.tokenType
    ensures b == b' && t.token == t'.token && (b.headerType.Bearer? ==> t.tokenType == t'.tokenType)
  {
    NamesDiffer();
    var h := HeadersOf(b, t).value;
    assert HeaderName(b) in h && HeaderName(b') in h;
    assert QUOTA_PROJECT_KEY in h <==> b.quotaProjectId.Some?;
    assert QUOTA_PROJECT_KEY in h <==> b'.quotaProjectId.Some?;
    assert h[HeaderName(b)] == CredentialText(b, t) && h[HeaderName(b')] == CredentialText(b', t');
    if b.headerType.Bearer? {
      SpaceSplits(t.tokenType, t.token, t'.tokenType, t'.token);
    }
  }

  /** `build`: the tag of the token becomes the tag of the headers. */
  function Build(b: Builder, token: CacheableResource<Token>)
    : Result<CacheableResource<HeaderMap>, CredentialsError>
  {
    match token
    case NotModified => Ok(NotModified)
    case New(tag, t) =>
      match HeadersOf(b, t)
      case Err(e) => Err(e)
      case Ok(h) => Ok(New(tag, h))
  }
}
