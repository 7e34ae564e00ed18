/**
 * The `tokenAuth` middleware (src/middleware/tokenAuth.js): it takes the
 * bearer token from the Authorization header, asks the token table to
 * verify it and, on success, attaches the owner's identity to the request.
 * A failed verification is swallowed: the request simply goes on without an
 * identity. The returned value is what `req.authenticatedUser` holds when
 * `next()` is called; `next()` itself is the return.
 */
module TokenAuth {
  import opened Wrappers
  import opened TokenService

  const BearerPrefixLength: nat := 7

  /** `header.substring(7)`; a header shorter than the prefix gives the empty string. */
  function BearerToken(header: string): (token: string)
    ensures |header| >= BearerPrefixLength ==> header == header[..BearerPrefixLength] + token
    ensures |header| < BearerPrefixLength ==> token == ""
  {
    if |header| >= BearerPrefixLength then header[BearerPrefixLength..] else ""
  }

  /** `if (authHeader)`: an absent header and the empty string are both falsy. */
  predicate HeaderPresent(authorization: Option<string>) {
    authorization.Some? && authorization.value != ""
  }

  /** The token sent as `Authorization: Bearer <token>` is the one verified. */
  lemma BearerTokenOfHeader(token: string)
    ensures BearerToken("Bearer " + token) == token
  {
    assert ("Bearer " + token)[BearerPrefixLength..] == token;
  }

  method Authenticate(store: TokenStore, authorization: Option<string>, now: int)
    returns (authenticatedUser: Option<Identity>)
    modifies store
    ensures !HeaderPresent(authorization) ==> authenticatedUser.None? && store.rows == old(store.rows)
    ensures HeaderPresent(authorization) ==>
      match FindLive(old(store.rows), BearerToken(authorization.value), now)
      case None => authenticatedUser.None? && store.rows == old(store.rows)
      case Some(i) =>
        && authenticatedUser == Some(Identity(old(store.rows)[i].userId))
        && store.rows == old(store.rows)[i := old(store.rows)[i].(lastUsedAt := now)]
  {
    authenticatedUser := None;
    if HeaderPresent(authorization) {
      var token := BearerToken(authorization.value);
      var verified := store.Verify(token, now);
      match verified
      case Success(user) => authenticatedUser := Some(user);
      case Failure(_) =>
    }
  }
}
