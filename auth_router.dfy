/**
 * The authentication routes (src/auth/routes/AuthRouter.js).
 * POST /api/auth runs its checks in a fixed order and stops at the first
 * failure: a malformed email, an unknown email and a wrong password all give
 * the same AuthException; a correct password on an inactive account gives
 * Forbidden; only then is a session token issued.
 * POST /api/logout deletes the bearer token, if any, and always answers 200.
 * express-validator's `isEmail` and bcrypt's `hash` are parameters;
 * `bcrypt.compare(p, h)` holds exactly when `h == hash(p)`.
 */
module AuthRouter {
  import opened Wrappers
  import opened Errors
  import opened UserModel
  import UserService
  import TokenService
  import TokenAuth
  import Generator

  /** The login request body; an absent email is taken to fail `isEmail`. */
  datatype LoginBody = LoginBody(email: Option<string>, password: string)

  /** The success body: exactly `id`, `username` and `token`. */
  datatype LoginResponse = LoginResponse(id: nat, username: string, token: string)

  /** The guard chain of POST /api/auth: the user a token may be issued to, or the first failure. */
  function LoginCheck(users: seq<User>, body: LoginBody, isEmail: string -> bool, hash: string -> string)
    : (r: Result<User, ApiError>)
    ensures r.Success? <==>
      && body.email.Some? && isEmail(body.email.value)
      && var found := UserService.FindByEmail(users, body.email.value);
      && found.Some? && found.value.password == hash(body.password) && !found.value.inactive
    ensures r.Success? ==> r.value in users && r.value.email == body.email.value && !r.value.inactive
    ensures r.Failure? ==> r.error == AuthFailure || r.error == Forbidden(None)
    ensures r == Failure(Forbidden(None)) <==>
      && body.email.Some? && isEmail(body.email.value)
      && var found := UserService.FindByEmail(users, body.email.value);
      && found.Some? && found.value.password == hash(body.password) && found.value.inactive
  {
    if body.email.None? || !isEmail(body.email.value) then Failure(AuthFailure)
    else match UserService.FindByEmail(users, body.email.value)
      case None => Failure(AuthFailure)
      case Some(user) =>
        if user.password != hash(body.password) then Failure(AuthFailure)
        else if user.inactive then Failure(Forbidden(None))
        else Success(user)
  }

  /** A malformed email is refused before the table is consulted, whatever it holds. */
  lemma MalformedEmailRefused(users: seq<User>, body: LoginBody, isEmail: string -> bool, hash: string -> string)
    requires body.email.None? || !isEmail(body.email.value)
    ensures LoginCheck(users, body, isEmail, hash) == Failure(AuthFailure)
    ensures LoginCheck(users, body, isEmail, hash) == LoginCheck([], body, isEmail, hash)
  {
  }

  /** An unknown email and a wrong password are answered identically. */
  lemma UnknownEmailLikeWrongPassword(users: seq<User>, nextId: nat, u: User, password: string,
                                      isEmail: string -> bool, hash: string -> string)
    requires WellFormed(users, nextId) && u in users && isEmail(u.email) && u.password != hash(password)
    ensures LoginCheck(users, LoginBody(Some(u.email), password), isEmail, hash) == Failure(AuthFailure)
    ensures LoginCheck(DestroyUsers(users, ByEmail(u.email)), LoginBody(Some(u.email), password), isEmail, hash)
      == Failure(AuthFailure)
  {
    UserService.FindByEmailUnique(users, nextId, u);
    var others := DestroyUsers(users, ByEmail(u.email));
    assert !EmailTaken(others, u.email);
  }

  /**
   * The right password for a stored, inactive account gives Forbidden, and
   * Forbidden is reached in no other case.
   */
  lemma ForbiddenOnlyAfterPasswordMatch(users: seq<User>, nextId: nat, u: User, password: string,
                                        isEmail: string -> bool, hash: string -> string)
    requires WellFormed(users, nextId) && u in users && isEmail(u.email)
    ensures LoginCheck(users, LoginBody(Some(u.email), password), isEmail, hash) == Failure(Forbidden(None))
      <==> u.password == hash(password) && u.inactive
  {
    UserService.FindByEmailUnique(users, nextId, u);
  }

  /** POST /api/auth: on success one token row is added for the user; on failure nothing changes. */
  method Login(db: UserService.Database, body: LoginBody, isEmail: string -> bool, hash: string -> string,
               bytes: seq<Generator.Byte>, now: int)
    returns (r: Result<LoginResponse, ApiError>)
    requires db.Valid() && |bytes| == TokenService.TokenLength
    modifies db.tokens
    ensures db.Valid()
    ensures match LoginCheck(db.users, body, isEmail, hash)
      case Failure(e) => r == Failure(e) && db.tokens.rows == old(db.tokens.rows)
      case Success(u) =>
        var token := Generator.GenerateRandomString(bytes, TokenService.TokenLength);
        && r == Success(LoginResponse(u.id, u.username, token))
        && db.tokens.rows == old(db.tokens.rows) + [TokenService.Token(token, u.id, now)]
  {
    var checked := LoginCheck(db.users, body, isEmail, hash);
    if checked.Failure? {
      return Failure(checked.error);
    }
    var user := checked.value;
    var token := db.tokens.CreateToken(user.id, bytes, now);
    r := Success(LoginResponse(user.id, user.username, token));
  }

  /** POST /api/logout: delete the bearer token if a non-empty header was sent; always 200. */
  method Logout(store: TokenService.TokenStore, authorization: Option<string>) returns (status: int)
    modifies store
    ensures status == 200
    ensures !TokenAuth.HeaderPresent(authorization) ==> store.rows == old(store.rows)
    ensures TokenAuth.HeaderPresent(authorization) ==>
      store.rows == TokenService.Destroy(old(store.rows), TokenService.ByToken(TokenAuth.BearerToken(authorization.value)))
  {
    if TokenAuth.HeaderPresent(authorization) {
      store.DeleteToken(TokenAuth.BearerToken(authorization.value));
    }
    status := 200;
  }

  /** Logging out twice with the same header leaves the table as logging out once. */
  lemma LogoutIdempotent(rows: seq<TokenService.Token>, authorization: string)
    ensures var w := TokenService.ByToken(TokenAuth.BearerToken(authorization));
      TokenService.Destroy(TokenService.Destroy(rows, w), w) == TokenService.Destroy(rows, w)
  {
    TokenService.DestroyIdempotent(rows, TokenService.ByToken(TokenAuth.BearerToken(authorization)));
  }
}
