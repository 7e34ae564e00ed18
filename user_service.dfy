/**
 * The account service (src/user/services/UserService.js). The read-only
 * queries are functions over the `users` table; the operations that change
 * rows are methods of `Database`, each proved against a function that states
 * the new table. Password hashing is the parameter `hash`; the random bytes
 * behind generated tokens are inputs; whether the notifier delivered the
 * activation or reset e-mail is the input `notified`.
 */
module UserService {
  import opened Wrappers
  import opened Errors
  import opened UserModel
  import TokenService
  import Generator

  /** Length of the activation and password-reset tokens. */
  const ShortTokenLength: nat := 16

  /** The request body of a registration; only the first three fields are read. */
  datatype RegisterBody = RegisterBody(username: string, email: string, password: string, inactive: Option<bool>)

  /** The attributes the queries select: `['id', 'username', 'email']`. */
  datatype UserView = UserView(id: nat, username: string, email: string)

  /** The page object `getUsers` returns. */
  datatype Page = Page(content: seq<UserView>, page: nat, size: nat, totalPages: nat)

  function View(u: User): UserView {
    UserView(u.id, u.username, u.email)
  }

  /** The attributes `save` passes to `User.create`, from 16 random bytes. */
  function Registration(body: RegisterBody, hash: string -> string, bytes: seq<Generator.Byte>): (n: NewUser)
    requires |bytes| == ShortTokenLength
    ensures n.username == body.username && n.email == body.email
    ensures n.password == hash(body.password)
    ensures n.inactive == None
    ensures n.activationToken.Some? && |n.activationToken.value| == ShortTokenLength
    ensures Generator.IsHexString(n.activationToken.value)
  {
    NewUser(body.username, body.email, hash(body.password), None,
            Some(Generator.GenerateRandomString(bytes, ShortTokenLength)))
  }

  /**
   * The table after `save`: the insert inside the transaction is committed
   * exactly when the e-mail was delivered and the email was free; otherwise
   * the table is as before.
   */
  function SaveRows(users: seq<User>, nextId: nat, n: NewUser, notified: bool): (r: Result<seq<User>, ApiError>)
    requires WellFormed(users, nextId)
    ensures r.Success? <==> notified && !EmailTaken(users, n.email)
    ensures r.Success? ==> r.value == users + [Create(nextId, n)] && |r.value| == |users| + 1
    ensures r.Failure? ==> r.error == if EmailTaken(users, n.email) then UniqueViolation else EmailFailure
  {
    match Insert(users, nextId, n)
    case None => Failure(UniqueViolation)
    case Some(rows) => if notified then Success(rows) else Failure(EmailFailure)
  }

  /** A committed registration stores an inactive user with the hashed password, whatever the body says. */
  lemma SavedUserIsInactive(users: seq<User>, nextId: nat, body: RegisterBody, hash: string -> string,
                            bytes: seq<Generator.Byte>, notified: bool)
    requires WellFormed(users, nextId) && |bytes| == ShortTokenLength
    requires SaveRows(users, nextId, Registration(body, hash, bytes), notified).Success?
    ensures var rows := SaveRows(users, nextId, Registration(body, hash, bytes), notified).value;
      && rows[..|users|] == users
      && var u := rows[|users|];
      && u.inactive && u.password == hash(body.password)
      && u.username == body.username && u.email == body.email
      && u.activationToken.Some? && |u.activationToken.value| == ShortTokenLength
  {
    var rows := SaveRows(users, nextId, Registration(body, hash, bytes), notified).value;
    assert rows[..|users|] == users;
  }

  /** `after` is `before` with row `i` replaced by `row`. */
  predicate ChangedOnlyAt(before: seq<User>, after: seq<User>, i: nat, row: User) {
    && |after| == |before|
    && i < |before|
    && after[i] == row
    && forall j :: 0 <= j < |before| && j != i ==> after[j] == before[j]
  }

  /** `findByEmail(email)`: the user holding that email, if any. */
  function FindByEmail(users: seq<User>, email: string): (r: Option<User>)
    ensures r.Some? <==> EmailTaken(users, email)
    ensures r.Some? ==> r.value in users && r.value.email == email
  {
    match FindOne(users, ByEmail(email))
    case None => None
    case Some(i) => Some(users[i])
  }

  /** Under the unique constraint the user `findByEmail` returns is the only one with that email. */
  lemma FindByEmailUnique(users: seq<User>, nextId: nat, u: User)
    requires WellFormed(users, nextId) && u in users
    ensures FindByEmail(users, u.email) == Some(u)
  {
    var i := FindOne(users, ByEmail(u.email)).value;
    var j :| 0 <= j < |users| && users[j] == u;
    assert i == j;
  }

  /**
   * `activate(token)`: the first user holding the activation token becomes
   * active and loses the token; with no such user, InvalidToken and no change.
   */
  function ActivateRows(users: seq<User>, t: string): (r: Result<seq<User>, ApiError>)
    ensures r.Failure? <==> forall u :: u in users ==> u.activationToken != Some(t)
    ensures r.Failure? ==> r.error == InvalidToken
    ensures r.Success? ==>
      exists i :: 0 <= i < |users| && users[i].activationToken == Some(t) &&
        ChangedOnlyAt(users, r.value, i, users[i].(inactive := false, activationToken := None))
  {
    match FindOne(users, ByActivationToken(t))
    case None => Failure(InvalidToken)
    case Some(i) => Success(users[i := users[i].(inactive := false, activationToken := None)])
  }

  /** An activation token held by one user works once: a second activation with it fails. */
  lemma ActivationIsSingleUse(users: seq<User>, t: string)
    requires forall i, j :: (0 <= i < |users| && 0 <= j < |users| && users[i].activationToken == Some(t)
      && users[j].activationToken == Some(t)) ==> i == j
    requires ActivateRows(users, t).Success?
    ensures ActivateRows(ActivateRows(users, t).value, t) == Failure(InvalidToken)
  {
    var rows := ActivateRows(users, t).value;
    forall u | u in rows
      ensures u.activationToken != Some(t)
    {
      var k :| 0 <= k < |rows| && rows[k] == u;
    }
  }

  /** `getUsers` returns only the users that are active and not the requester; absent, the excluded id is 0. */
  function Excluded(authenticated: Option<TokenService.Identity>): nat {
    if authenticated.Some? then authenticated.value.id else 0
  }

  function Listed(users: seq<User>, authenticated: Option<TokenService.Identity>): (r: seq<User>)
    ensures forall u :: u in r <==> u in users && !u.inactive && u.id != Excluded(authenticated)
    ensures IsSubsequence(r, users)
  {
    Select(users, ListedExcept(Excluded(authenticated)))
  }

  /** `Math.ceil(count / size)`. */
  function CeilDiv(count: nat, size: nat): (q: nat)
    requires size >= 1
    ensures count == 0 ==> q == 0
    ensures count > 0 ==> (q - 1) * size < count <= q * size
  {
    var q := (count + size - 1) / size;
    var m := (count + size - 1) % size;
    assert count + size - 1 == q * size + m && 0 <= m < size;
    assert (q - 1) * size == q * size - size;
    q
  }

  /**
   * `getUsers(page, size, authenticatedUser)`: at most `size` users from
   * offset `page * size` of the listed users, and the number of pages they fill.
   */
  function GetUsers(users: seq<User>, page: nat, size: nat, authenticated: Option<TokenService.Identity>): (p: Page)
    requires size >= 1
    ensures p.page == page && p.size == size
    ensures IsPageOf(p, Listed(users, authenticated))
  {
    var m := Listed(users, authenticated);
    var offset := page * size;
    var rows := if offset < |m| then m[offset .. offset + Min(size, |m| - offset)] else [];
    Page(seq(|rows|, k requires 0 <= k < |rows| => View(rows[k])), page, size, CeilDiv(|m|, size))
  }

  /**
   * `p` is page `p.page` of `m` cut into pages of `p.size` rows: the rows
   * from offset `p.page * p.size`, at most `p.size` of them, in order, and
   * `totalPages` is the number of pages `m` fills.
   */
  predicate IsPageOf(p: Page, m: seq<User>) {
    var offset := p.page * p.size;
    && p.size >= 1
    && |p.content| == (if offset < |m| then Min(p.size, |m| - offset) else 0)
    && (forall k :: 0 <= k < |p.content| ==> offset + k < |m| && p.content[k] == View(m[offset + k]))
    && p.totalPages == CeilDiv(|m|, p.size)
  }

  function Min(a: int, b: int): int {
    if a <= b then a else b
  }

  /**
   * Paging covers the listed users: the k-th listed user appears at position
   * `k % size` of page `k / size`, and that page is below `totalPages`.
   */
  lemma ListedUserOnItsPage(users: seq<User>, size: nat, authenticated: Option<TokenService.Identity>, k: nat)
    requires size >= 1 && k < |Listed(users, authenticated)|
    ensures var p := GetUsers(users, k / size, size, authenticated);
      && k % size < |p.content|
      && p.content[k % size] == View(Listed(users, authenticated)[k])
      && k / size < p.totalPages
  {
    var m := Listed(users, authenticated);
    var page, pos := k / size, k % size;
    DivMod(k, size);
    var q := CeilDiv(|m|, size);
    if q <= page {
      MulMonotonic(q, page, size);
    }
  }

  lemma DivMod(k: nat, size: nat)
    requires size >= 1
    ensures (k / size) * size + k % size == k && 0 <= k % size < size
  {
  }

  lemma MulMonotonic(a: int, b: int, c: nat)
    requires a <= b
    ensures a * c <= b * c
  {
  }

  /** `getUserById(id)`: the selected attributes of an active user with that id, otherwise NotFound. */
  function GetUserById(users: seq<User>, id: nat): (r: Result<UserView, ApiError>)
    ensures r.Success? <==> exists u :: u in users && u.id == id && !u.inactive
    ensures r.Success? ==> exists u :: u in users && u.id == id && !u.inactive && r.value == View(u)
    ensures r.Failure? ==> r.error == NotFound("user_not_found")
  {
    match FindOne(users, ActiveById(id))
    case None => Failure(NotFound("user_not_found"))
    case Some(i) => Success(View(users[i]))
  }

  /**
   * `updateUser(id, body)`: only the username of the user with that id
   * changes, and the result echoes the given id; writing to a missing row
   * fails on the null reference.
   */
  function UpdateRows(users: seq<User>, id: nat, username: string): (r: Result<(seq<User>, UserView), ApiError>)
    ensures r.Failure? <==> !UserExists(users, id)
    ensures r.Failure? ==> r.error == NullDereference
    ensures r.Success? ==> var (rows, view) := r.value;
      exists i :: 0 <= i < |users| && users[i].id == id &&
        ChangedOnlyAt(users, rows, i, users[i].(username := username)) &&
        view == UserView(id, username, users[i].email)
  {
    match FindOne(users, ById(id))
    case None => Failure(NullDereference)
    case Some(i) => Success((users[i := users[i].(username := username)], UserView(id, username, users[i].email)))
  }

  /**
   * `resetPassword(email)` as the table sees it: the reset token is written
   * to the user with that email; an unknown email is NotFound.
   */
  function ResetRows(users: seq<User>, email: string, token: string): (r: Result<seq<User>, ApiError>)
    ensures r.Failure? <==> !EmailTaken(users, email)
    ensures r.Failure? ==> r.error == NotFound("email_not_inuse")
    ensures r.Success? ==>
      exists i :: 0 <= i < |users| && users[i].email == email &&
        ChangedOnlyAt(users, r.value, i, users[i].(passwordResetToken := Some(token)))
  {
    match FindOne(users, ByEmail(email))
    case None => Failure(NotFound("email_not_inuse"))
    case Some(i) => Success(users[i := users[i].(passwordResetToken := Some(token))])
  }

  /**
   * `resetPassword(email)` as written: `passwordResetToken` is not a column
   * of the model, and `save()` writes only changed declared columns, so the
   * assignment never reaches the table.
   */
  function ResetRowsAsWritten(users: seq<User>, email: string, token: string): (r: Result<seq<User>, ApiError>)
    ensures r.Failure? <==> !EmailTaken(users, email)
    ensures r.Success? ==> r.value == users
  {
    match FindOne(users, ByEmail(email))
    case None => Failure(NotFound("email_not_inuse"))
    case Some(_) => Success(users)
  }

  /** As written, the issued reset token is not stored for a user who had none. */
  lemma ResetTokenLostAsWritten(users: seq<User>, nextId: nat, u: User, token: string)
    requires WellFormed(users, nextId) && u in users && u.passwordResetToken == None
    ensures ResetRowsAsWritten(users, u.email, token).Success?
    ensures forall v :: v in ResetRowsAsWritten(users, u.email, token).value && v.email == u.email ==>
      v.passwordResetToken != Some(token)
  {
    forall v | v in users && v.email == u.email
      ensures v == u
    {
      var i :| 0 <= i < |users| && users[i] == v;
      var j :| 0 <= j < |users| && users[j] == u;
    }
  }

  /** With the column in place, the user with that email holds the issued token afterwards. */
  lemma ResetTokenStored(users: seq<User>, nextId: nat, u: User, token: string)
    requires WellFormed(users, nextId) && u in users
    ensures ResetRows(users, u.email, token).Success?
    ensures forall v :: v in ResetRows(users, u.email, token).value && v.email == u.email ==>
      v.passwordResetToken == Some(token)
  {
    var rows := ResetRows(users, u.email, token).value;
    var i :| 0 <= i < |users| && users[i].email == u.email &&
      ChangedOnlyAt(users, rows, i, users[i].(passwordResetToken := Some(token)));
    assert forall j :: 0 <= j < |users| && j != i ==> users[j].email != users[i].email && rows[j] == users[j];
    forall v | v in rows && v.email == u.email
      ensures v.passwordResetToken == Some(token)
    {
      var k :| 0 <= k < |rows| && rows[k] == v;
    }
  }

  /** The persistent store: the users table and the token table it owns. */
  class Database {
    var users: seq<User>
    var nextId: nat
    const tokens: TokenService.TokenStore

    ghost predicate Valid()
      reads this, tokens
    {
      WellFormed(users, nextId) && TokensOwned(users, tokens.rows)
    }

    constructor ()
      ensures Valid() && fresh(tokens)
      ensures users == [] && nextId == 1 && tokens.rows == []
    {
      users := [];
      nextId := 1;
      tokens := new TokenService.TokenStore();
    }

    /**
     * `save(body)`: insert inside a transaction, then send the activation
     * e-mail; commit if it was delivered, otherwise roll back and fail.
     */
    method Save(body: RegisterBody, hash: string -> string, bytes: seq<Generator.Byte>, notified: bool)
      returns (r: Result<(), ApiError>)
      requires Valid() && |bytes| == ShortTokenLength
      modifies this
      ensures Valid()
      ensures match SaveRows(old(users), old(nextId), Registration(body, hash, bytes), notified)
        case Success(rows) => r.Success? && users == rows && nextId == old(nextId) + 1
        case Failure(e) => r == Failure(e) && users == old(users) && nextId == old(nextId)
    {
      var n := Registration(body, hash, bytes);
      var snapshot, counter := users, nextId;
      var inserted := Insert(users, nextId, n);
      if inserted.None? {
        return Failure(UniqueViolation);
      }
      users, nextId := inserted.value, nextId + 1;
      if notified {
        r := Success(());
      } else {
        users, nextId := snapshot, counter;
        r := Failure(EmailFailure);
      }
      forall x | x in tokens.rows
        ensures UserExists(users, x.userId)
      {
        var u :| u in old(users) && u.id == x.userId;
        assert u in users;
      }
    }

    /** `activate(token)`. */
    method Activate(t: string) returns (r: Result<(), ApiError>)
      requires Valid()
      modifies this
      ensures Valid() && nextId == old(nextId)
      ensures match ActivateRows(old(users), t)
        case Success(rows) => r.Success? && users == rows
        case Failure(e) => r == Failure(e) && users == old(users)
    {
      var found := FindOne(users, ByActivationToken(t));
      if found.None? {
        return Failure(InvalidToken);
      }
      var i := found.value;
      users := users[i := users[i].(inactive := false, activationToken := None)];
      r := Success(());
      SameKeysKeepInvariant(old(users), users, nextId, tokens.rows);
    }

    /** `updateUser(id, body)`. */
    method UpdateUser(id: nat, username: string) returns (r: Result<UserView, ApiError>)
      requires Valid()
      modifies this
      ensures Valid() && nextId == old(nextId)
      ensures match UpdateRows(old(users), id, username)
        case Success((rows, view)) => r == Success(view) && users == rows
        case Failure(e) => r == Failure(e) && users == old(users)
    {
      var found := FindOne(users, ById(id));
      if found.None? {
        return Failure(NullDereference);
      }
      var i := found.value;
      var email := users[i].email;
      users := users[i := users[i].(username := username)];
      r := Success(UserView(id, username, email));
      SameKeysKeepInvariant(old(users), users, nextId, tokens.rows);
    }

    /** `deleteUser(id)`: remove the user, then every token it owns. */
    method DeleteUser(id: nat)
      requires Valid()
      modifies this, tokens
      ensures Valid() && nextId == old(nextId)
      ensures users == DestroyUsers(old(users), ById(id))
      ensures tokens.rows == TokenService.Destroy(old(tokens.rows), TokenService.ByUser(id))
    {
      DestroyKeepsWellFormed(users, nextId, ById(id));
      CascadeKeepsTokensOwned(users, tokens.rows, id);
      users := DestroyUsers(users, ById(id));
      tokens.DeleteMultipleTokens(id);
    }

    /**
     * `resetPassword(email)`: store a fresh 16-character reset token, then
     * send the reset e-mail; a delivery failure is reported and the stored
     * token stays.
     */
    method ResetPassword(email: string, bytes: seq<Generator.Byte>, notified: bool) returns (r: Result<(), ApiError>)
      requires Valid() && |bytes| == ShortTokenLength
      modifies this
      ensures Valid() && nextId == old(nextId)
      ensures match ResetRows(old(users), email, Generator.GenerateRandomString(bytes, ShortTokenLength))
        case Success(rows) => users == rows && r == (if notified then Success(()) else Failure(EmailFailure))
        case Failure(e) => r == Failure(e) && users == old(users)
    {
      var found := FindOne(users, ByEmail(email));
      if found.None? {
        return Failure(NotFound("email_not_inuse"));
      }
      var i := found.value;
      var token := Generator.GenerateRandomString(bytes, ShortTokenLength);
      users := users[i := users[i].(passwordResetToken := Some(token))];
      SameKeysKeepInvariant(old(users), users, nextId, tokens.rows);
      if notified {
        r := Success(());
      } else {
        r := Failure(EmailFailure);
      }
    }
  }

  /** Changing columns other than `id` and `email` keeps the table invariants. */
  lemma SameKeysKeepInvariant(before: seq<User>, after: seq<User>, nextId: nat, tokens: seq<TokenService.Token>)
    requires WellFormed(before, nextId) && TokensOwned(before, tokens)
    requires |after| == |before|
    requires forall k :: 0 <= k < |before| ==> after[k].id == before[k].id && after[k].email == before[k].email
    ensures WellFormed(after, nextId) && TokensOwned(after, tokens)
  {
    SameKeysKeepWellFormed(before, after, nextId);
    SameKeysKeepTokensOwned(before, after, tokens);
  }

  lemma SameKeysKeepWellFormed(before: seq<User>, after: seq<User>, nextId: nat)
    requires WellFormed(before, nextId)
    requires |after| == |before|
    requires forall k :: 0 <= k < |before| ==> after[k].id == before[k].id && after[k].email == before[k].email
    ensures WellFormed(after, nextId)
  {
    forall u | u in after
      ensures 1 <= u.id < nextId
    {
      var k :| 0 <= k < |after| && after[k] == u;
      assert before[k] in before;
    }
  }

  lemma SameKeysKeepTokensOwned(before: seq<User>, after: seq<User>, tokens: seq<TokenService.Token>)
    requires TokensOwned(before, tokens)
    requires |after| == |before|
    requires forall k :: 0 <= k < |before| ==> after[k].id == before[k].id
    ensures TokensOwned(after, tokens)
  {
    forall x | x in tokens
      ensures UserExists(after, x.userId)
    {
      var u :| u in before && u.id == x.userId;
      var k :| 0 <= k < |before| && before[k] == u;
      assert after[k] in after;
    }
  }
}
