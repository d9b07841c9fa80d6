/**
 * The client's request link: every request carries the stored token as a
 * bearer credential in its `authorization` header.
 */
module ApolloLink {
  import opened Wrappers

  type Headers = map<string, string>

  const Authorization := "authorization"
  const BearerPrefix := "Bearer "

  /**
   * The headers `authLink` sends: the incoming ones with `authorization`
   * set to "Bearer " followed by the stored token when that token is truthy,
   * and to the empty string when it is `null` or empty.
   */
  function AuthHeaders(headers: Headers, stored: Option<string>): (r: Headers)
    ensures r.Keys == headers.Keys + {Authorization}
    ensures forall k :: k in headers && k != Authorization ==> r[k] == headers[k]
    ensures stored.Some? && stored.value != "" ==> r[Authorization] == BearerPrefix + stored.value
    ensures stored.None? || stored.value == "" ==> r[Authorization] == ""
  {
    var value := if stored.Some? && stored.value != "" then BearerPrefix + stored.value else "";
    headers[Authorization := value]
  }

  /** Whatever `authorization` value came in, the link's own value replaces it. */
  lemma IncomingAuthorizationOverwritten(headers: Headers, stored: Option<string>, incoming: string)
    ensures AuthHeaders(headers[Authorization := incoming], stored) == AuthHeaders(headers, stored)
  {
  }
}
