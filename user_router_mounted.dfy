/**
 * The user router the application mounts (src/user/UserRouter.js):
 * POST /api/users with its three validation chains, and
 * POST /api/users/token/:token for activation. The chains are the same,
 * character for character, in src/user/routes/UserRouter.js, which reuses
 * them from here.
 *
 * Each chain runs its checks in order and reports only the first failing
 * one (express-validator's `bail()`); the three fields are checked
 * independently. express-validator turns a null or absent value into the
 * empty string before checking it; `isEmail` is a parameter.
 */
module MountedUserRouter {
  import opened Wrappers
  import opened Errors
  import opened UserModel
  import UserService
  import ErrorHandler
  import Generator

  /** The registration request body as received; any field may be null or absent. */
  datatype RegisterRequest = RegisterRequest(
    username: Option<string>,
    email: Option<string>,
    password: Option<string>,
    inactive: Option<bool>)

  datatype Check = Check(passed: bool, message: string)

  /** A bailing chain: the message of the first failing check, if any. */
  function FirstFailure(checks: seq<Check>): (r: Option<string>)
    ensures r.None? <==> forall i :: 0 <= i < |checks| ==> checks[i].passed
    ensures r.Some? ==>
      exists i :: 0 <= i < |checks| && !checks[i].passed && checks[i].message == r.value &&
        forall j :: 0 <= j < i ==> checks[j].passed
  {
    if checks == [] then None
    else if !checks[0].passed then Some(checks[0].message)
    else
      var rest := FirstFailure(checks[1..]);
      assert forall j :: 1 <= j < |checks| ==> checks[j] == checks[1..][j - 1];
      rest
  }

  function AsString(v: Option<string>): string {
    v.GetOr("")
  }

  /** `notEmpty()`. */
  predicate NotEmpty(v: Option<string>) {
    AsString(v) != ""
  }

  predicate IsLineTerminator(c: char) {
    c == '\n' || c == '\r' || c == '\U{2028}' || c == '\U{2029}'
  }

  /**
   * `/^(?=.*[a-z])(?=.*[A-Z])(?=.*\d).*$/`: without the `s` or `m` flag,
   * `.` stops at a line terminator and `$` only matches at the end, so the
   * whole value must be one line holding a lowercase letter, an uppercase
   * letter and a digit.
   */
  predicate MatchesPasswordPattern(s: string) {
    && (forall i :: 0 <= i < |s| ==> !IsLineTerminator(s[i]))
    && (exists i :: 0 <= i < |s| && 'a' <= s[i] <= 'z')
    && (exists i :: 0 <= i < |s| && 'A' <= s[i] <= 'Z')
    && (exists i :: 0 <= i < |s| && '0' <= s[i] <= '9')
  }

  function UsernameChecks(v: Option<string>): seq<Check> {
    [Check(NotEmpty(v), "username_null"),
     Check(4 <= |AsString(v)| <= 32, "username_size")]
  }

  function EmailChecks(v: Option<string>, users: seq<User>, isEmail: string -> bool): seq<Check> {
    [Check(NotEmpty(v), "email_null"),
     Check(isEmail(AsString(v)), "email_invalid"),
     Check(!EmailTaken(users, AsString(v)), "email_inuse")]
  }

  function PasswordChecks(v: Option<string>): seq<Check> {
    [Check(NotEmpty(v), "password_null"),
     Check(|AsString(v)| >= 6, "password_size"),
     Check(MatchesPasswordPattern(AsString(v)), "password_pattern")]
  }

  function FieldErrors(path: string, failure: Option<string>): seq<FieldError> {
    if failure.None? then [] else [FieldError(path, failure.value)]
  }

  /** The message reported first for `path`, if any. */
  function ErrorFor(errors: seq<FieldError>, path: string): Option<string> {
    if errors == [] then None
    else if errors[0].path == path then Some(errors[0].msg)
    else ErrorFor(errors[1..], path)
  }

  /** The position of each field's chain in the route's validator list. */
  function FieldRank(path: string): nat {
    if path == "username" then 0
    else if path == "email" then 1
    else if path == "password" then 2
    else 3
  }

  /** The first failure of the chain that validates `path`; other paths have no chain. */
  function ChainFailure(req: RegisterRequest, users: seq<User>, isEmail: string -> bool, path: string): Option<string> {
    if path == "username" then FirstFailure(UsernameChecks(req.username))
    else if path == "email" then FirstFailure(EmailChecks(req.email, users, isEmail))
    else if path == "password" then FirstFailure(PasswordChecks(req.password))
    else None
  }

  /**
   * `validationResult(req).array()` for POST /api/users: at most one error
   * per field, the first failure of its chain, in the order the chains are
   * declared.
   */
  function ValidateRegister(req: RegisterRequest, users: seq<User>, isEmail: string -> bool)
    : (errors: seq<FieldError>)
    ensures |errors| <= 3
    ensures ErrorFor(errors, "username") == FirstFailure(UsernameChecks(req.username))
    ensures ErrorFor(errors, "email") == FirstFailure(EmailChecks(req.email, users, isEmail))
    ensures ErrorFor(errors, "password") == FirstFailure(PasswordChecks(req.password))
    ensures forall e :: e in errors ==> e.path in ["username", "email", "password"]
    ensures InFieldOrder(errors)
    ensures forall i, j :: 0 <= i < j < |errors| ==> errors[i].path != errors[j].path
  {
    var u := FirstFailure(UsernameChecks(req.username));
    var e := FirstFailure(EmailChecks(req.email, users, isEmail));
    var p := FirstFailure(PasswordChecks(req.password));
    FieldErrorsLookup(u, e, p);
    FieldErrorsInOrder(u, e, p);
    FieldErrors("username", u) + (FieldErrors("email", e) + FieldErrors("password", p))
  }

  /** Each field of the three lists is looked up in its own list. */
  lemma FieldErrorsLookup(u: Option<string>, e: Option<string>, p: Option<string>)
    ensures var errors := FieldErrors("username", u) + (FieldErrors("email", e) + FieldErrors("password", p));
      && |errors| <= 3
      && ErrorFor(errors, "username") == u && ErrorFor(errors, "email") == e && ErrorFor(errors, "password") == p
      && forall x :: x in errors ==> x.path in ["username", "email", "password"]
  {
    var us, es, ps := FieldErrors("username", u), FieldErrors("email", e), FieldErrors("password", p);
    ErrorForAppend(us, es + ps, "username");
    ErrorForAppend(us, es + ps, "email");
    ErrorForAppend(us, es + ps, "password");
    ErrorForAppend(es, ps, "username");
    ErrorForAppend(es, ps, "email");
    ErrorForAppend(es, ps, "password");
  }

  /** Each error's field comes strictly later in the validator list than the one before. */
  predicate InFieldOrder(errors: seq<FieldError>) {
    forall i, j :: 0 <= i < j < |errors| ==> FieldRank(errors[i].path) < FieldRank(errors[j].path)
  }

  lemma FieldErrorsInOrder(u: Option<string>, e: Option<string>, p: Option<string>)
    ensures var errors := FieldErrors("username", u) + (FieldErrors("email", e) + FieldErrors("password", p));
      InFieldOrder(errors) && forall i, j :: 0 <= i < j < |errors| ==> errors[i].path != errors[j].path
  {
    var errors := FieldErrors("username", u) + (FieldErrors("email", e) + FieldErrors("password", p));
    assert forall i :: 0 <= i < |errors| ==> errors[i].path in ["username", "email", "password"];
    assert forall i :: 0 <= i < |errors| ==> FieldRank(errors[i].path) >= i;
    assert forall i :: 0 <= i < |errors| ==> FieldRank(errors[i].path) <= 3 - |errors| + i;
  }

  /**
   * What the error handler replies for a failed registration: the
   * `validationErrors` object has one key per failing field, in the order
   * username, email, password, and each holds the translated first failure
   * of that field's chain.
   */
  lemma RegisterValidationReply(req: RegisterRequest, users: seq<User>, isEmail: string -> bool, t: string -> string)
    ensures var errors := ValidateRegister(req, users, isEmail);
      var obj := ErrorHandler.Fold(errors, t);
      && ErrorHandler.Keys(obj) == ErrorHandler.Paths(errors)
      && (forall f :: f in ErrorHandler.Keys(obj) <==> ChainFailure(req, users, isEmail, f).Some?)
      && forall i :: 0 <= i < |obj| ==>
        ChainFailure(req, users, isEmail, obj[i].key).Some? &&
        obj[i].value == t(ChainFailure(req, users, isEmail, obj[i].key).value)
  {
    var errors := ValidateRegister(req, users, isEmail);
    UniqueFold(errors, t);
    forall f
      ensures ChainFailure(req, users, isEmail, f) == ErrorFor(errors, f)
    {
      ChainFailureReported(req, users, isEmail, f);
    }
  }

  /** Each chain's first failure is what the error list reports for its field, and no other field is reported. */
  lemma ChainFailureReported(req: RegisterRequest, users: seq<User>, isEmail: string -> bool, f: string)
    ensures ChainFailure(req, users, isEmail, f) == ErrorFor(ValidateRegister(req, users, isEmail), f)
  {
    var errors := ValidateRegister(req, users, isEmail);
    if f !in ["username", "email", "password"] && ErrorFor(errors, f).Some? {
      ErrorForSomeIsReported(errors, f);
    }
  }

  /**
   * Folding a list that reports each path once keeps the list's order, and
   * each key holds the translation of its only message.
   */
  lemma UniqueFold(errors: seq<FieldError>, t: string -> string)
    requires forall i, j :: 0 <= i < j < |errors| ==> errors[i].path != errors[j].path
    ensures var obj := ErrorHandler.Fold(errors, t);
      && ErrorHandler.Keys(obj) == ErrorHandler.Paths(errors)
      && (forall f :: f in ErrorHandler.Keys(obj) <==> ErrorFor(errors, f).Some?)
      && forall i :: 0 <= i < |obj| ==> ErrorFor(errors, obj[i].key).Some? && obj[i].value == t(ErrorFor(errors, obj[i].key).value)
  {
    var obj := ErrorHandler.Fold(errors, t);
    ErrorHandler.FoldIsFolded(errors, t);
    ErrorHandler.DistinctIsFirstOccurrences(ErrorHandler.Paths(errors));
    UniqueFoldValues(errors, obj, t);
    forall f
      ensures f in ErrorHandler.Paths(errors) <==> ErrorFor(errors, f).Some?
    {
      ReportedPathHasError(errors, f);
    }
  }

  /** Under the fold's guarantee, a path reported once holds its only message. */
  lemma UniqueFoldValues(errors: seq<FieldError>, obj: seq<ErrorHandler.Entry>, t: string -> string)
    requires forall i, j :: 0 <= i < j < |errors| ==> errors[i].path != errors[j].path
    requires ErrorHandler.Keys(obj) == ErrorHandler.Paths(errors)
    requires forall i :: 0 <= i < |obj| ==>
      obj[i].key in ErrorHandler.Paths(errors) && obj[i].value == t(ErrorHandler.LastMessage(errors, obj[i].key))
    ensures forall i :: 0 <= i < |obj| ==> ErrorFor(errors, obj[i].key).Some? && obj[i].value == t(ErrorFor(errors, obj[i].key).value)
  {
    forall i | 0 <= i < |obj|
      ensures ErrorFor(errors, obj[i].key).Some? && obj[i].value == t(ErrorFor(errors, obj[i].key).value)
    {
      UniqueMessage(errors, i);
      assert ErrorHandler.Keys(obj)[i] == ErrorHandler.Paths(errors)[i];
    }
  }

  /** For a path reported once, the first and the last message are the same. */
  lemma UniqueMessage(errors: seq<FieldError>, i: nat)
    requires i < |errors| && forall j, k :: 0 <= j < k < |errors| ==> errors[j].path != errors[k].path
    ensures errors[i].path in ErrorHandler.Paths(errors)
    ensures ErrorFor(errors, errors[i].path) == Some(ErrorHandler.LastMessage(errors, errors[i].path))
  {
    ErrorHandler.LastMessageOfUnique(errors, i);
    ErrorForOfUnique(errors, i);
  }

  /** A path occurs in the list iff the list reports a message for it. */
  lemma ReportedPathHasError(errors: seq<FieldError>, f: string)
    ensures f in ErrorHandler.Paths(errors) <==> ErrorFor(errors, f).Some?
  {
    var ps := ErrorHandler.Paths(errors);
    if ErrorFor(errors, f).Some? {
      ErrorForSomeIsReported(errors, f);
      var i :| 0 <= i < |errors| && errors[i].path == f;
      assert ps[i] == f;
    }
    if f in ps {
      var i :| 0 <= i < |ps| && ps[i] == f;
      FirstReportedHasError(errors, i);
    }
  }

  /** Any occurrence of a path means the list reports a message for it. */
  lemma {:induction false} FirstReportedHasError(errors: seq<FieldError>, i: nat)
    requires i < |errors|
    ensures ErrorFor(errors, errors[i].path).Some?
  {
    if i > 0 && errors[0].path != errors[i].path {
      FirstReportedHasError(errors[1..], i - 1);
    }
  }

  /** The first error for a path is the one at its only position. */
  lemma {:induction false} ErrorForOfUnique(errors: seq<FieldError>, i: nat)
    requires i < |errors| && forall j :: 0 <= j < i ==> errors[j].path != errors[i].path
    ensures ErrorFor(errors, errors[i].path) == Some(errors[i].msg)
  {
    if i > 0 {
      ErrorForOfUnique(errors[1..], i - 1);
    }
  }

  /** A path with a reported message occurs in the list. */
  lemma {:induction false} ErrorForSomeIsReported(errors: seq<FieldError>, path: string)
    requires ErrorFor(errors, path).Some?
    ensures exists i :: 0 <= i < |errors| && errors[i].path == path
  {
    if errors[0].path != path {
      ErrorForSomeIsReported(errors[1..], path);
      var i :| 0 <= i < |errors[1..]| && errors[1..][i].path == path;
      assert errors[i + 1].path == path;
    }
  }

  /** Looking a field up in a concatenation looks in the first part, then the second. */
  lemma {:induction false} ErrorForAppend(a: seq<FieldError>, b: seq<FieldError>, path: string)
    ensures ErrorFor(a + b, path) == if ErrorFor(a, path).Some? then ErrorFor(a, path) else ErrorFor(b, path)
  {
    if a != [] {
      assert (a + b)[1..] == a[1..] + b;
      ErrorForAppend(a[1..], b, path);
    } else {
      assert a + b == b;
    }
  }

  /** The username chain: null or empty first, then a length outside 4 to 32. */
  lemma UsernameChain(v: Option<string>)
    ensures FirstFailure(UsernameChecks(v)) == Some("username_null") <==> v.None? || v.value == ""
    ensures FirstFailure(UsernameChecks(v)) == Some("username_size") <==>
      v.Some? && v.value != "" && !(4 <= |v.value| <= 32)
    ensures FirstFailure(UsernameChecks(v)) == None <==> v.Some? && 4 <= |v.value| <= 32
  {
    var cs := UsernameChecks(v);
    assert FirstFailure(cs) == if !cs[0].passed then Some(cs[0].message) else FirstFailure(cs[1..]);
  }

  /** The email chain: null, then malformed, then already registered; only the first is reported. */
  lemma EmailChain(v: Option<string>, users: seq<User>, isEmail: string -> bool)
    ensures FirstFailure(EmailChecks(v, users, isEmail)) == Some("email_null") <==> !NotEmpty(v)
    ensures FirstFailure(EmailChecks(v, users, isEmail)) == Some("email_invalid") <==>
      NotEmpty(v) && !isEmail(v.value)
    ensures FirstFailure(EmailChecks(v, users, isEmail)) == Some("email_inuse") <==>
      NotEmpty(v) && isEmail(v.value) && EmailTaken(users, v.value)
    ensures FirstFailure(EmailChecks(v, users, isEmail)) == None <==>
      NotEmpty(v) && isEmail(v.value) && !EmailTaken(users, v.value)
  {
    var cs := EmailChecks(v, users, isEmail);
    assert cs[1..][1..] == [cs[2]];
  }

  /** The password chain: null, then shorter than 6, then the pattern. */
  lemma PasswordChain(v: Option<string>)
    ensures FirstFailure(PasswordChecks(v)) == Some("password_null") <==> !NotEmpty(v)
    ensures FirstFailure(PasswordChecks(v)) == Some("password_size") <==> NotEmpty(v) && |v.value| < 6
    ensures FirstFailure(PasswordChecks(v)) == Some("password_pattern") <==>
      NotEmpty(v) && |v.value| >= 6 && !MatchesPasswordPattern(v.value)
    ensures FirstFailure(PasswordChecks(v)) == None <==>
      v.Some? && |v.value| >= 6 && MatchesPasswordPattern(v.value)
  {
    var cs := PasswordChecks(v);
    assert cs[1..][1..] == [cs[2]];
  }

  /** A request that passes validation carries all three fields and a free email. */
  lemma ValidRequestHasFreeEmail(req: RegisterRequest, users: seq<User>, isEmail: string -> bool)
    requires ValidateRegister(req, users, isEmail) == []
    ensures req.username.Some? && req.email.Some? && req.password.Some?
    ensures isEmail(req.email.value) && !EmailTaken(users, req.email.value)
  {
    UsernameChain(req.username);
    EmailChain(req.email, users, isEmail);
    PasswordChain(req.password);
  }

  /** The body `save` reads from a validated request. */
  function BodyOf(req: RegisterRequest): UserService.RegisterBody
    requires req.username.Some? && req.email.Some? && req.password.Some?
  {
    UserService.RegisterBody(req.username.value, req.email.value, req.password.value, req.inactive)
  }

  /**
   * POST /api/users: any validation error is reported and nothing is stored;
   * otherwise `save` runs once, and the reply is the success message key.
   */
  method Register(db: UserService.Database, req: RegisterRequest, isEmail: string -> bool,
                  hash: string -> string, bytes: seq<Generator.Byte>, notified: bool)
    returns (r: Result<string, ApiError>)
    requires db.Valid() && |bytes| == UserService.ShortTokenLength
    modifies db
    ensures db.Valid()
    ensures var errors := ValidateRegister(req, old(db.users), isEmail);
      if errors != [] then
        r == Failure(ValidationFailure(errors)) && db.users == old(db.users) && db.nextId == old(db.nextId)
      else
        && req.username.Some? && req.email.Some? && req.password.Some?
        && match UserService.SaveRows(old(db.users), old(db.nextId),
                   UserService.Registration(BodyOf(req), hash, bytes), notified)
           case Success(rows) =>
             r == Success("user_create_success") && db.users == rows && db.nextId == old(db.nextId) + 1
           case Failure(e) => r == Failure(e) && db.users == old(db.users) && db.nextId == old(db.nextId)
  {
    var errors := ValidateRegister(req, db.users, isEmail);
    if errors != [] {
      return Failure(ValidationFailure(errors));
    }
    ValidRequestHasFreeEmail(req, db.users, isEmail);
    var saved := db.Save(BodyOf(req), hash, bytes, notified);
    if saved.Failure? {
      return Failure(saved.error);
    }
    r := Success("user_create_success");
  }

  /** A validated registration never reaches the database's unique constraint. */
  lemma ValidatedSaveNeverDuplicates(req: RegisterRequest, users: seq<User>, nextId: nat, isEmail: string -> bool,
                                     hash: string -> string, bytes: seq<Generator.Byte>, notified: bool)
    requires WellFormed(users, nextId) && |bytes| == UserService.ShortTokenLength
    requires ValidateRegister(req, users, isEmail) == []
    ensures req.username.Some? && req.email.Some? && req.password.Some?
    ensures UserService.SaveRows(users, nextId, UserService.Registration(BodyOf(req), hash, bytes), notified)
      != Failure(UniqueViolation)
  {
    ValidRequestHasFreeEmail(req, users, isEmail);
  }

  /** POST /api/users/token/:token. */
  method ActivateAccount(db: UserService.Database, token: string) returns (r: Result<string, ApiError>)
    requires db.Valid()
    modifies db
    ensures db.Valid() && db.nextId == old(db.nextId)
    ensures match UserService.ActivateRows(old(db.users), token)
      case Success(rows) => r == Success("account_activation_success") && db.users == rows
      case Failure(e) => r == Failure(e) && db.users == old(db.users)
  {
    var activated := db.Activate(token);
    if activated.Failure? {
      return Failure(activated.error);
    }
    r := Success("account_activation_success");
  }
}
