/**
 * What the browser sends against what the server reads: the
 * `Authorization` header built by the client's `NVApi.call` carries the very
 * token the logout route revokes.
 */
module Wire {
  import opened Wrappers
  import Client
  import AuthRoutes

  /** The header the client attaches for a stored token yields that token at the server. */
  lemma BearerRoundTrip(token: string)
    requires token != "" && ' ' !in token
    ensures AuthRoutes.HeaderToken(Client.AuthHeader(Some(token))) == Some(token)
  {
    AuthRoutes.BearerHeaderToken(token);
  }

}
