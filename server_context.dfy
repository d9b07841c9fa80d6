/**
 * The server's request context: the bearer token is taken from the
 * `authorization` header and verified; the context's only entry is the user
 * it yields, or `null`.
 */
module ServerContext {
  import opened Wrappers
  import JsText
  import ApolloLink

  /** The context object: its one key, `user`. */
  datatype ContextValue<P> = ContextValue(user: Option<P>)

  /**
   * `getUser`, as the value its promise resolves to: no user for an empty
   * token, the verified payload when verification succeeds, and no user when
   * it throws. `verify` stands for `jwt.verify` with the server's secret;
   * `None` is a token it rejects.
   */
  function GetUser<P>(token: string, verify: string -> Option<P>): (r: Option<P>)
    ensures token == "" ==> r == None
    ensures token != "" ==> r == verify(token)
  {
    if token != "" then verify(token) else None
  }

  /** `req.headers.authorization || ''`: a missing or empty header is the empty string. */
  function HeaderToken(headers: ApolloLink.Headers): (t: string)
    ensures ApolloLink.Authorization !in headers ==> t == ""
    ensures ApolloLink.Authorization in headers ==> t == headers[ApolloLink.Authorization]
  {
    if ApolloLink.Authorization in headers && headers[ApolloLink.Authorization] != "" then
      headers[ApolloLink.Authorization]
    else
      ""
  }

  /**
   * The token handed to `getUser`: the header with its first "Bearer "
   * removed. A header without the prefix is handed on whole; one with it
   * loses the first occurrence of the prefix and nothing else.
   */
  function ExtractToken(headers: ApolloLink.Headers): (t: string)
    ensures !JsText.Includes(HeaderToken(headers), ApolloLink.BearerPrefix) ==> t == HeaderToken(headers)
    ensures JsText.Includes(HeaderToken(headers), ApolloLink.BearerPrefix) ==> exists i ::
      && JsText.OccursAt(HeaderToken(headers), ApolloLink.BearerPrefix, i)
      && (forall j :: 0 <= j < i ==> !JsText.OccursAt(HeaderToken(headers), ApolloLink.BearerPrefix, j))
      && t == HeaderToken(headers)[..i] + HeaderToken(headers)[i + |ApolloLink.BearerPrefix|..]
    ensures JsText.Includes(HeaderToken(headers), ApolloLink.BearerPrefix) ==>
      |t| + |ApolloLink.BearerPrefix| == |HeaderToken(headers)|
  {
    JsText.Replace(HeaderToken(headers), ApolloLink.BearerPrefix, "")
  }

  /** `context({ req })`. */
  function Context<P>(headers: ApolloLink.Headers, verify: string -> Option<P>): (c: ContextValue<P>)
    ensures c.user == GetUser(ExtractToken(headers), verify)
  {
    ContextValue(GetUser(ExtractToken(headers), verify))
  }

  /** A request without an `authorization` header has no user, whatever `verify` would say. */
  lemma MissingHeaderNoUser<P>(headers: ApolloLink.Headers, verify: string -> Option<P>)
    requires ApolloLink.Authorization !in headers
    ensures Context(headers, verify).user == None
  {
    assert !JsText.Includes("", ApolloLink.BearerPrefix);
  }

  /** A header "Bearer " + T hands exactly T to verification. */
  lemma BearerHeaderToken(headers: ApolloLink.Headers, t: string)
    requires ApolloLink.Authorization in headers && headers[ApolloLink.Authorization] == ApolloLink.BearerPrefix + t
    ensures ExtractToken(headers) == t
  {
    JsText.ReplaceLeadingPattern(ApolloLink.BearerPrefix, t);
  }

  /** A header without "Bearer " anywhere is handed to verification as it is. */
  lemma NoBearerUnchanged(headers: ApolloLink.Headers)
    requires !JsText.Includes(HeaderToken(headers), ApolloLink.BearerPrefix)
    ensures ExtractToken(headers) == HeaderToken(headers)
  {
  }

  /** Only the first "Bearer " goes: a doubled prefix leaves one in the token. */
  lemma OnlyFirstBearerRemoved(headers: ApolloLink.Headers, t: string)
    requires ApolloLink.Authorization in headers
    requires headers[ApolloLink.Authorization] == ApolloLink.BearerPrefix + (ApolloLink.BearerPrefix + t)
    ensures ExtractToken(headers) == ApolloLink.BearerPrefix + t
  {
    JsText.ReplaceLeadingPattern(ApolloLink.BearerPrefix, ApolloLink.BearerPrefix + t);
  }

  /** The client's header round-trips: a truthy stored token T reaches verification as T, and its payload becomes the user. */
  lemma ClientTokenRoundTrip<P>(headers: ApolloLink.Headers, t: string, verify: string -> Option<P>)
    requires t != ""
    ensures ExtractToken(ApolloLink.AuthHeaders(headers, Some(t))) == t
    ensures Context(ApolloLink.AuthHeaders(headers, Some(t)), verify).user == verify(t)
  {
    BearerHeaderToken(ApolloLink.AuthHeaders(headers, Some(t)), t);
  }

  /** A client with no truthy stored token sends "", which the server reads as no user. */
  lemma ClientWithoutTokenNoUser<P>(headers: ApolloLink.Headers, stored: Option<string>, verify: string -> Option<P>)
    requires stored.None? || stored.value == ""
    ensures Context(ApolloLink.AuthHeaders(headers, stored), verify).user == None
  {
    assert !JsText.Includes("", ApolloLink.BearerPrefix);
  }
}
