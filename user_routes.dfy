/**
 * The fuller user router (src/user/routes/UserRouter.js). Registration and
 * activation are the same handlers as in the mounted router and are reused
 * from MountedUserRouter. Beyond those it lists users through the
 * pagination middleware, reads one user, lets the owner of an account
 * update or delete it, and starts a password reset.
 *
 * `auth` is `req.authenticatedUser`, as left by the tokenAuth middleware.
 * Path parameters are strings; a number and a string are never `===`.
 */
module UserRoutes {
  import opened Wrappers
  import opened Errors
  import opened UserModel
  import UserService
  import TokenService
  import Pagination
  import JsNumbers
  import Generator

  /** The two kinds of JavaScript value the owner guard compares. */
  datatype JsValue = JsNumber(n: int) | JsString(s: string)

  /** `a === b`: same type and same value. */
  predicate StrictEquals(a: JsValue, b: JsValue) {
    a == b
  }

  /**
   * The owner guard of PUT and DELETE as written:
   * `authenticatedUser && authenticatedUser.id === req.params.id`, where the
   * id from the token row is a number and the path parameter a string.
   */
  predicate IsOwnerAsWritten(auth: Option<TokenService.Identity>, idParam: string) {
    auth.Some? && StrictEquals(JsNumber(auth.value.id), JsString(idParam))
  }

  /** As written, the guard refuses every request, the owner's included. */
  lemma OwnerRefusedAsWritten(id: nat)
    ensures !IsOwnerAsWritten(Some(TokenService.Identity(id)), JsNumbers.DecimalString(id))
    ensures forall auth, idParam :: !IsOwnerAsWritten(auth, idParam)
  {
  }

  /** The intended guard: the path parameter is the authenticated id written out, `String(id) === req.params.id`. */
  predicate IsOwner(auth: Option<TokenService.Identity>, idParam: string) {
    auth.Some? && StrictEquals(JsString(JsNumbers.DecimalString(auth.value.id)), JsString(idParam))
  }

  /** The corrected guard admits a request for account `target` exactly when it comes from that account. */
  lemma OwnerAdmittedExactly(authId: nat, target: nat)
    ensures IsOwner(Some(TokenService.Identity(authId)), JsNumbers.DecimalString(target)) <==> authId == target
    ensures !IsOwner(None, JsNumbers.DecimalString(target))
  {
    if JsNumbers.DecimalString(authId) == JsNumbers.DecimalString(target) {
      JsNumbers.DecimalStringInjective(authId, target);
    }
  }

  /** An admitted path parameter denotes the authenticated id. */
  lemma OwnerParamIsAuthId(auth: Option<TokenService.Identity>, idParam: string)
    requires IsOwner(auth, idParam)
    ensures IdOfParam(idParam) == Some(auth.value.id)
  {
    JsNumbers.DecimalValue(auth.value.id);
  }

  /**
   * The row a path parameter selects when the database compares it with the
   * integer key: a run of decimal digits denotes its value, anything else no row.
   */
  function IdOfParam(idParam: string): (r: Option<nat>)
    ensures r.Some? ==> idParam != [] && forall i :: 0 <= i < |idParam| ==> '0' <= idParam[i] <= '9'
  {
    if idParam != [] && forall i :: 0 <= i < |idParam| ==> '0' <= idParam[i] <= '9'
    then
      assert forall i :: 0 <= i < |idParam| ==> JsNumbers.DigitIn(idParam[i], 10) >= 0;
      Some(JsNumbers.DigitsValue(idParam, 10))
    else None
  }

  /** GET /api/users: the page the pagination middleware selects; no requester is excluded. */
  function ListUsers(users: seq<User>, pageQuery: Option<string>, sizeQuery: Option<string>)
    : (p: UserService.Page)
    ensures var paging := Pagination.Paginate(pageQuery, sizeQuery);
      && p.page == paging.page && p.size == paging.size
      && p.totalPages == UserService.CeilDiv(|UserService.Listed(users, None)|, paging.size)
    ensures UserService.IsPageOf(p, UserService.Listed(users, None))
    ensures 1 <= p.size <= 10 && |p.content| <= p.size
    ensures forall k :: 0 <= k < |p.content| ==> exists u :: u in users && !u.inactive && p.content[k] == UserService.View(u)
  {
    var paging := Pagination.Paginate(pageQuery, sizeQuery);
    PageShowsActiveUsers(users, paging.page, paging.size);
    UserService.GetUsers(users, paging.page, paging.size, None)
  }

  /** With an empty table and no query, the reply is the empty first page of ten. */
  lemma EmptyTableFirstPage()
    ensures ListUsers([], None, None) == UserService.Page([], 0, 10, 0)
  {
    Pagination.NoQueryIsFirstPage();
  }

  lemma PageShowsActiveUsers(users: seq<User>, page: nat, size: nat)
    requires size >= 1
    ensures var p := UserService.GetUsers(users, page, size, None);
      && |p.content| <= size
      && forall k :: 0 <= k < |p.content| ==> exists u :: u in users && !u.inactive && p.content[k] == UserService.View(u)
  {
    var p := UserService.GetUsers(users, page, size, None);
    assert |p.content| <= size;
    var m := UserService.Listed(users, None);
    assert UserService.IsPageOf(p, m);
    forall k | 0 <= k < |p.content|
      ensures exists u :: u in users && !u.inactive && p.content[k] == UserService.View(u)
    {
      assert page * size + k < |m|;
      var u := m[page * size + k];
      assert u in m && p.content[k] == UserService.View(u);
    }
  }

  /** Since keys start at 1, the route's listing holds every active user. */
  lemma RouteListsEveryActiveUser(users: seq<User>, nextId: nat, u: User)
    requires WellFormed(users, nextId) && u in users
    ensures u in UserService.Listed(users, None) <==> !u.inactive
  {
  }

  /** GET /api/users/:id. */
  function GetUser(users: seq<User>, idParam: string): (r: Result<UserService.UserView, ApiError>)
    ensures r.Success? <==>
      IdOfParam(idParam).Some? && exists u :: u in users && u.id == IdOfParam(idParam).value && !u.inactive
    ensures r.Failure? ==> r.error == NotFound("user_not_found")
    ensures r.Success? ==> exists u :: u in users && !u.inactive && Some(u.id) == IdOfParam(idParam) && r.value == UserService.View(u)
  {
    match IdOfParam(idParam)
    case None => Failure(NotFound("user_not_found"))
    case Some(id) => UserService.GetUserById(users, id)
  }

  /**
   * PUT /api/users/:id with the corrected guard: anyone but the owner is
   * Forbidden and nothing changes; the owner's username is updated.
   */
  method UpdateUserRoute(db: UserService.Database, auth: Option<TokenService.Identity>, idParam: string, username: string)
    returns (r: Result<UserService.UserView, ApiError>)
    requires db.Valid()
    modifies db
    ensures db.Valid() && db.nextId == old(db.nextId)
    ensures !IsOwner(auth, idParam) ==> r == Failure(Forbidden(Some("unauth_update"))) && db.users == old(db.users)
    ensures IsOwner(auth, idParam) ==>
      match UserService.UpdateRows(old(db.users), auth.value.id, username)
      case Success((rows, view)) => r == Success(view) && db.users == rows
      case Failure(e) => r == Failure(e) && db.users == old(db.users)
  {
    if !IsOwner(auth, idParam) {
      return Failure(Forbidden(Some("unauth_update")));
    }
    OwnerParamIsAuthId(auth, idParam);
    r := db.UpdateUser(auth.value.id, username);
  }

  /**
   * DELETE /api/users/:id with the corrected guard: the owner's account and
   * every token it owns are deleted, so no token verifies to it any more
   * (TokenService.RevokedUserCannotVerify); anyone else is Forbidden.
   */
  method DeleteUserRoute(db: UserService.Database, auth: Option<TokenService.Identity>, idParam: string)
    returns (r: Result<(), ApiError>)
    requires db.Valid()
    modifies db, db.tokens
    ensures db.Valid() && db.nextId == old(db.nextId)
    ensures !IsOwner(auth, idParam) ==>
      r == Failure(Forbidden(Some("unauth_delete"))) && db.users == old(db.users) && db.tokens.rows == old(db.tokens.rows)
    ensures IsOwner(auth, idParam) ==>
      && r == Success(())
      && db.users == DestroyUsers(old(db.users), ById(auth.value.id))
      && db.tokens.rows == TokenService.Destroy(old(db.tokens.rows), TokenService.ByUser(auth.value.id))
  {
    if !IsOwner(auth, idParam) {
      return Failure(Forbidden(Some("unauth_delete")));
    }
    OwnerParamIsAuthId(auth, idParam);
    db.DeleteUser(auth.value.id);
    r := Success(());
  }

  /**
   * POST /api/user/password: a value that is not an email is a validation
   * error and nothing is looked up; otherwise `resetPassword` runs.
   */
  method PasswordResetRoute(db: UserService.Database, email: Option<string>, isEmail: string -> bool,
                            bytes: seq<Generator.Byte>, notified: bool)
    returns (r: Result<string, ApiError>)
    requires db.Valid() && |bytes| == UserService.ShortTokenLength
    modifies db
    ensures db.Valid() && db.nextId == old(db.nextId)
    ensures (email.None? || !isEmail(email.value)) ==>
      r == Failure(ValidationFailure([FieldError("email", "email_invalid")])) && db.users == old(db.users)
    ensures (email.Some? && isEmail(email.value)) ==>
      match UserService.ResetRows(old(db.users), email.value, Generator.GenerateRandomString(bytes, UserService.ShortTokenLength))
      case Success(rows) => db.users == rows && r == (if notified then Success("password_reset_success") else Failure(EmailFailure))
      case Failure(e) => r == Failure(e) && db.users == old(db.users)
  {
    if email.None? || !isEmail(email.value) {
      return Failure(ValidationFailure([FieldError("email", "email_invalid")]));
    }
    var reset := db.ResetPassword(email.value, bytes, notified);
    if reset.Failure? {
      return Failure(reset.error);
    }
    r := Success("password_reset_success");
  }
}
