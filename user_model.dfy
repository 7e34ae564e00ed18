/**
 * The `users` table (src/user/model/User.js): the columns, the `inactive`
 * default, the unique `email` column and the `hasMany(Token)` association
 * whose `userId` foreign key is deleted in cascade with its user.
 * Ids are the table's auto-increment key, so they start at 1.
 * `passwordResetToken` is not a column of User.js: the record carries it as
 * the extra column of the corrected schema, which the password-reset request
 * needs to store its token (see Findings in README.md).
 */
module UserModel {
  import opened Wrappers
  import TokenService

  datatype User = User(
    id: nat,
    username: string,
    email: string,
    password: string,
    inactive: bool,
    activationToken: Option<string>,
    passwordResetToken: Option<string>)

  /** The attributes handed to `User.create`; an absent `inactive` takes the column default. */
  datatype NewUser = NewUser(
    username: string,
    email: string,
    password: string,
    inactive: Option<bool>,
    activationToken: Option<string>)

  /** The row `User.create` stores under the key `id`. */
  function Create(id: nat, n: NewUser): (u: User)
    ensures u.id == id && u.username == n.username && u.email == n.email && u.password == n.password
    ensures u.activationToken == n.activationToken && u.passwordResetToken == None
    ensures u.inactive <==> n.inactive != Some(false)
  {
    User(id, n.username, n.email, n.password, n.inactive.GetOr(true), n.activationToken, None)
  }

  predicate IdsDistinct(users: seq<User>) {
    forall i, j :: 0 <= i < |users| && 0 <= j < |users| && i != j ==> users[i].id != users[j].id
  }

  /** The unique constraint on `email`. */
  predicate EmailsDistinct(users: seq<User>) {
    forall i, j :: 0 <= i < |users| && 0 <= j < |users| && i != j ==> users[i].email != users[j].email
  }

  predicate EmailTaken(users: seq<User>, email: string) {
    exists u :: u in users && u.email == email
  }

  predicate UserExists(users: seq<User>, id: nat) {
    exists u :: u in users && u.id == id
  }

  /** Every key is below the next auto-increment value, and keys and emails are unique. */
  predicate WellFormed(users: seq<User>, nextId: nat) {
    && 1 <= nextId
    && (forall u :: u in users ==> 1 <= u.id < nextId)
    && IdsDistinct(users)
    && EmailsDistinct(users)
  }

  /** The foreign key of the association: every token belongs to a stored user. */
  predicate TokensOwned(users: seq<User>, tokens: seq<TokenService.Token>) {
    forall x :: x in tokens ==> UserExists(users, x.userId)
  }

  /**
   * `User.create(row)`: the insert is refused (None) on a duplicate email and otherwise
   * appends the row, keeping the table well formed.
   */
  function Insert(users: seq<User>, nextId: nat, n: NewUser): (r: Option<seq<User>>)
    requires WellFormed(users, nextId)
    ensures r.None? <==> EmailTaken(users, n.email)
    ensures r.Some? ==> r.value == users + [Create(nextId, n)] && WellFormed(r.value, nextId + 1)
  {
    if EmailTaken(users, n.email) then None
    else
      var r := users + [Create(nextId, n)];
      assert forall i :: 0 <= i < |users| ==> users[i] in users && r[i] == users[i];
      Some(r)
  }

  /** The `where` clauses the service passes to `User.findOne` and friends. */
  datatype UserWhere =
    | ById(id: nat)
    | ByEmail(email: string)
    | ByActivationToken(token: string)
    | ActiveById(activeId: nat)
    | ListedExcept(excluded: nat)

  predicate UserMatches(w: UserWhere, u: User) {
    match w
    case ById(id) => u.id == id
    case ByEmail(e) => u.email == e
    case ByActivationToken(t) => u.activationToken == Some(t)
    case ActiveById(id) => u.id == id && !u.inactive
    case ListedExcept(x) => !u.inactive && u.id != x
  }

  /** `User.findOne({ where })`: the index of the first matching row. */
  function FindOne(users: seq<User>, w: UserWhere): (r: Option<nat>)
    ensures r.Some? ==> r.value < |users| && UserMatches(w, users[r.value])
    ensures r.Some? ==> forall j :: 0 <= j < r.value ==> !UserMatches(w, users[j])
    ensures r.None? <==> forall u :: u in users ==> !UserMatches(w, u)
  {
    if users == [] then None
    else if UserMatches(w, users[0]) then Some(0)
    else
      assert forall u :: u in users ==> u == users[0] || u in users[1..];
      match FindOne(users[1..], w)
      case None => None
      case Some(i) => Some(i + 1)
  }

  /** `r` is `s` with some rows left out and the others in their order. */
  predicate IsSubsequence(r: seq<User>, s: seq<User>) {
    if r == [] then true
    else if s == [] then false
    else if r[0] == s[0] then IsSubsequence(r[1..], s[1..])
    else IsSubsequence(r, s[1..])
  }

  /** The matching rows in table order (the rows of `findAndCountAll`). */
  function Select(users: seq<User>, w: UserWhere): (r: seq<User>)
    ensures |r| <= |users|
    ensures forall u :: u in r <==> u in users && UserMatches(w, u)
    ensures IsSubsequence(r, users)
  {
    if users == [] then []
    else
      assert users == [users[0]] + users[1..];
      if UserMatches(w, users[0]) then [users[0]] + Select(users[1..], w) else Select(users[1..], w)
  }

  /** `User.destroy({ where })`: the rows that do not match, in table order. */
  function DestroyUsers(users: seq<User>, w: UserWhere): (r: seq<User>)
    ensures |r| <= |users|
    ensures forall u :: u in r <==> u in users && !UserMatches(w, u)
  {
    if users == [] then []
    else
      assert users == [users[0]] + users[1..];
      if UserMatches(w, users[0]) then DestroyUsers(users[1..], w) else [users[0]] + DestroyUsers(users[1..], w)
  }

  /** Deleting rows keeps keys and emails unique. */
  lemma {:induction false} DestroyKeepsWellFormed(users: seq<User>, nextId: nat, w: UserWhere)
    requires WellFormed(users, nextId)
    ensures WellFormed(DestroyUsers(users, w), nextId)
  {
    if users != [] {
      var tail := users[1..];
      assert WellFormed(tail, nextId) by {
        forall i, j | 0 <= i < |tail| && 0 <= j < |tail| && i != j
          ensures tail[i].id != tail[j].id && tail[i].email != tail[j].email
        {
          assert tail[i] == users[i + 1] && tail[j] == users[j + 1];
        }
      }
      DestroyKeepsWellFormed(tail, nextId, w);
      var rest := DestroyUsers(tail, w);
      if !UserMatches(w, users[0]) {
        var r := [users[0]] + rest;
        forall u | u in rest
          ensures u.id != users[0].id && u.email != users[0].email
        {
          var k :| 0 <= k < |tail| && tail[k] == u;
          assert users[k + 1] == u;
        }
        forall i, j | 0 <= i < |r| && 0 <= j < |r| && i != j
          ensures r[i].id != r[j].id && r[i].email != r[j].email
        {
          if i > 0 && j > 0 {
            assert r[i] == rest[i - 1] && r[j] == rest[j - 1];
          } else if i == 0 {
            assert r[j] == rest[j - 1] && r[j] in rest;
          } else {
            assert r[i] == rest[i - 1] && r[i] in rest;
          }
        }
      }
    }
  }

  /**
   * The cascade of `hasMany(Token, { onDelete: 'cascade' })`: deleting a user
   * together with the tokens it owns leaves every remaining token owned.
   */
  lemma CascadeKeepsTokensOwned(users: seq<User>, tokens: seq<TokenService.Token>, id: nat)
    requires TokensOwned(users, tokens)
    ensures TokensOwned(DestroyUsers(users, ById(id)), TokenService.Destroy(tokens, TokenService.ByUser(id)))
  {
    var us := DestroyUsers(users, ById(id));
    forall x | x in TokenService.Destroy(tokens, TokenService.ByUser(id))
      ensures UserExists(us, x.userId)
    {
      var u :| u in users && u.id == x.userId;
      assert u in us;
    }
  }
}
