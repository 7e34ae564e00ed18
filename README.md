# Accounts and sessions of the lingo-selector backend, in Dafny

This project models the account and session core of an Express/Sequelize
backend and proves properties of the model:

- the **session-token table**: issuing a 32-character token at login,
  verifying it under a strict one-week sliding window that refreshes
  `lastUsedAt`, deleting one token or all tokens of a user, and the hourly
  sweep of stale rows;
- the **account service**: registration inside a transaction that rolls back
  when the activation e-mail cannot be sent, activation by token, paged
  listing, lookup by id, username update, deletion with its tokens, and the
  password-reset request;
- the **users table**: the `inactive` default, the unique email column and
  the cascade from a user to its tokens, kept as the invariant
  `Database.Valid()`;
- the **request guards**: the bearer-token middleware that swallows a failed
  verification, the login decision chain and logout, the bailing validation
  chains of registration, the owner guard of PUT/DELETE, and the
  password-reset route;
- the **small helpers**: page/size clamping, the error-body builder with its
  `validationErrors` fold, and the truncated lowercase hex rendering of random
  bytes (Base16, section 8 of RFC 4648, with the lowercase alphabet).

Tables are sequences of records in insertion order. A `findOne` is the first
matching row, and a `destroy` keeps the rows that do not match. The token
table is the class `TokenService.TokenStore`. The users table is the class
`UserService.Database`, which owns a `TokenStore`. Their methods are proved
against functions that state the new table, and properties of those
functions are proved as lemmas.

Collaborators outside the core are inputs:

- the clock is `now`, in milliseconds;
- bcrypt is a function `hash`, where `compare(p, h)` holds iff `h == hash(p)`;
- express-validator's `isEmail` is a function parameter;
- translation `req.t` is a function `t`;
- `crypto.randomBytes` is a sequence of input bytes;
- whether the e-mail service delivered a message is the boolean `notified`.

The routers are modelled as methods from request fields to an outcome plus
their effect on the tables. Exceptions are values of `Errors.ApiError`.
Registration and activation are the same handlers in `src/user/UserRouter.js`
(the router the application mounts) and in `src/user/routes/UserRouter.js`.
They are defined once, in `MountedUserRouter`. `src/user/UserRouter.js`
imports a service from `src/user/UserService.js`, which is not part of this
model; its handlers are connected to the service of
`src/user/services/UserService.js`.

## Model

| member | source | states |
|---|---|---|
| Generator.HexEncode | src/shared/generator.js:7 | `toString('hex')` gives two lowercase hex digits per byte |
| Generator.DecodeEncode | src/shared/generator.js:7 | the hex rendering is lossless: decoding it gives back the bytes |
| Generator.HexEncodeAt | src/shared/generator.js:7 | character 2k is the high nibble of byte k and character 2k+1 its low nibble |
| Generator.GenerateRandomString | src/shared/generator.js:6-8 | the result has exactly `length` characters, all in 0-9a-f, and is a prefix of the hex rendering of the bytes |
| Generator.GenerateUsesLeadingBytes | src/shared/generator.js:6-8 | the result depends only on the bytes, in fact only on their first half |
| TokenService.Destroy | src/auth/services/TokenService.js:49 | `Token.destroy({where})` keeps exactly the rows the clause does not match, each as often as before |
| TokenService.FindLive | src/auth/services/TokenService.js:33-41 | the lookup finds the first row with that token and `lastUsedAt > now - oneWeek`, and finds none iff no row qualifies |
| TokenService.LiveRow | src/auth/services/TokenService.js:34-41 | a row is found iff some stored row has the token and was used strictly within the week |
| TokenService.TokenStore.CreateToken | src/auth/services/TokenService.js:21-29 | returns a 32-character hex token from the random bytes and appends exactly one row `{token, userId, lastUsedAt = now}` |
| TokenService.TokenStore.Verify | src/auth/services/TokenService.js:32-46 | succeeds iff a live row exists; then that row alone gets `lastUsedAt = now` and its `userId` is returned; otherwise it fails on the null row and nothing changes |
| TokenService.TokenStore.DeleteToken | src/auth/services/TokenService.js:48-50 | removes exactly the rows carrying the token |
| TokenService.TokenStore.DeleteMultipleTokens | src/auth/services/TokenService.js:53-55 | removes exactly the rows owned by the user |
| TokenService.TokenStore.Sweep | src/auth/services/TokenService.js:61-67 | removes exactly the rows with `lastUsedAt < now - oneWeek` |
| TokenService.DestroyKeepsLiveRow | src/auth/services/TokenService.js:61-67 | a destroy that removes only rows verify rejects leaves verify's answer unchanged |
| TokenService.SweepPreservesVerify | src/auth/services/TokenService.js:33-67 | the sweep never changes what verify returns at the same instant |
| TokenService.SweptRowsAreDead | src/auth/services/TokenService.js:33-67 | every row the sweep removes is one verify would reject for any token |
| TokenService.BoundaryRowNeitherLiveNorStale | src/auth/services/TokenService.js:38-65 | a row used exactly one week ago is neither accepted (`gt`) nor swept (`lt`) |
| TokenService.EightDayOldTokenSwept | src/auth/services/TokenService.js:61-67 | a row last used eight days ago is gone after one sweep |
| TokenService.HourOldTokenKept | src/auth/services/TokenService.js:61-67 | a row used an hour ago survives a sweep |
| TokenService.IssuedTokenVerifies | src/auth/services/TokenService.js:21-46 | a newly issued unique token verifies to its row for less than a week and fails from a week on |
| TokenService.RevokedUserCannotVerify | src/auth/services/TokenService.js:53-55 | after deleting a user's tokens, no token verifies to that user |
| TokenService.DeletedTokenCannotVerify | src/auth/services/TokenService.js:48-50 | after deleting a token, it no longer verifies |
| TokenService.DeleteAbsentTokenIsNoOp | src/auth/services/TokenService.js:48-50 | deleting a token no row carries leaves the table unchanged |
| TokenService.DestroyIdempotent | src/auth/services/TokenService.js:49 | destroying by the same clause twice is the same as once |
| UserModel.Create | src/user/model/User.js:10-34 | a created row is inactive unless `inactive: false` was given, and copies the other attributes |
| UserModel.FindOne | src/user/services/UserService.js:32-34 | `User.findOne({where})` finds the first matching row in table order, and finds none iff no row matches |
| UserModel.Select | src/user/services/UserService.js:49-59 | the rows `findAndCountAll` matches: exactly the stored rows that satisfy the clause, as a subsequence of the table (table order) |
| UserModel.Insert | src/user/model/User.js:15-18 | an insert is refused iff the email is already stored; otherwise it appends one row and keys and emails stay unique |
| UserModel.DestroyUsers | src/user/services/UserService.js:100 | `User.destroy({where})` keeps exactly the rows the clause does not match |
| UserModel.DestroyKeepsWellFormed | src/user/model/User.js:15-18 | deleting users keeps keys and emails unique |
| UserModel.CascadeKeepsTokensOwned | src/user/model/User.js:36-41 | deleting a user together with its tokens leaves every remaining token owned by a stored user |
| UserService.Registration | src/user/services/UserService.js:17-20 | `save` stores the hashed password and a 16-character hex activation token, and never takes `inactive` from the body |
| UserService.SaveRows | src/user/services/UserService.js:16-29 | the insert is kept iff the email was free and the e-mail was delivered, adding one row; otherwise the table is unchanged and the error is the unique violation or the e-mail failure |
| UserService.SavedUserIsInactive | src/user/services/UserService.js:16-29 | a committed registration stores an inactive user with the hashed password, even when the body says `inactive: false` |
| UserService.FindByEmail | src/user/services/UserService.js:32-34 | a user is returned iff one holds that email, and it is a stored user with that email |
| UserService.FindByEmailUnique | src/user/services/UserService.js:32-34 | under the unique constraint, the user returned is the only one with that email |
| UserService.ActivateRows | src/user/services/UserService.js:37-45 | fails with InvalidToken iff no user holds the token; otherwise exactly one holder becomes active and loses the token, and no other row changes |
| UserService.ActivationIsSingleUse | src/user/services/UserService.js:37-45 | a second activation with the same token fails |
| UserService.Listed | src/user/services/UserService.js:50-56 | the listed users are exactly the active users other than the requester (id 0 when there is none), in table order |
| UserService.CeilDiv | src/user/services/UserService.js:64 | `Math.ceil(count / size)` is the least number of pages of `size` that hold `count` rows |
| UserService.GetUsers | src/user/services/UserService.js:48-66 | the page holds at most `size` listed users from offset `page * size`, in order, and `totalPages` is the ceiling of their count over `size` |
| UserService.ListedUserOnItsPage | src/user/services/UserService.js:48-66 | every listed user appears on page `k / size` at position `k % size`, and that page is below `totalPages` |
| UserService.GetUserById | src/user/services/UserService.js:69-81 | succeeds iff an active user has that id, returning its id, username and email; otherwise NotFound `user_not_found` |
| UserService.UpdateRows | src/user/services/UserService.js:84-97 | only the username of the user with that id changes, and the result holds the id, the new username and the email; a missing user fails on the null reference |
| UserService.ResetRows | src/user/services/UserService.js:104-116 | (corrected; see Findings) fails with NotFound `email_not_inuse` iff no user has the email; otherwise only that user's reset token changes |
| UserService.ResetRowsAsWritten | src/user/services/UserService.js:109-110 | as written, a known email leaves the table unchanged, because the token attribute is not a column |
| UserService.ResetTokenLostAsWritten | src/user/services/UserService.js:109-110 | as written, the issued reset token is not stored for the user |
| UserService.ResetTokenStored | src/user/services/UserService.js:104-116 | with the column in place, the user with that email holds the issued token |
| UserService.Database.Save | src/user/services/UserService.js:16-29 | commits the insert and advances the id counter when the e-mail is delivered; otherwise the table and the counter are as before; the table invariant is kept |
| UserService.Database.Activate | src/user/services/UserService.js:37-45 | changes the table as ActivateRows states and keeps the invariant |
| UserService.Database.UpdateUser | src/user/services/UserService.js:84-97 | changes the table and answers as UpdateRows states |
| UserService.Database.DeleteUser | src/user/services/UserService.js:99-102 | removes the user and every token it owns, keeping the invariant |
| UserService.Database.ResetPassword | src/user/services/UserService.js:104-116 | (corrected; see Findings) stores the 16-character reset token before notifying; a delivery failure is reported and the stored token stays |
| JsNumbers.ParseInt | src/middleware/pagination.js:2-3 | `Number.parseInt` gives NaN for a blank string, and a negative number only after a leading minus |
| JsNumbers.DecimalString | src/user/routes/UserRouter.js:102 | `String(n)` of a non-negative integer below 10^21 is a non-empty run of decimal digits without a leading zero |
| JsNumbers.DecimalValue | src/middleware/pagination.js:2-3 | the digits of a number's decimal rendering denote that number |
| JsNumbers.ParseDigits | src/middleware/pagination.js:2-3 | `Number.parseInt` of a run of decimal digits is the number they denote |
| JsNumbers.ParseDecimal | src/middleware/pagination.js:2-3 | `Number.parseInt(String(n)) == n` for non-negative n (below 10^21 in JavaScript) |
| JsNumbers.DecimalStringInjective | src/user/routes/UserRouter.js:102 | distinct ids have distinct decimal renderings |
| Pagination.Paginate | src/middleware/pagination.js:1-15 | page is the parsed value when it is a number of at least 0, else 0; size is the parsed value when it is in 1 to 10, else 10 |
| Pagination.NoQueryIsFirstPage | src/middleware/pagination.js:1-15 | with no query parameters the result is page 0 of size 10 |
| Pagination.PaginateIdempotent | src/middleware/pagination.js:5-12 | feeding the output back in as query strings gives the same paging (for pages below 10^21 in JavaScript) |
| ErrorHandler.FirstOccurrences | src/error/ErrorHandler.js:8 | the keys of the fold are the paths without repeats, in first-assignment order |
| ErrorHandler.Assign | src/error/ErrorHandler.js:8 | a property assignment overwrites an existing key in place or appends a new one |
| ErrorHandler.Fold | src/error/ErrorHandler.js:8 | the object after one assignment per error never holds a key twice |
| ErrorHandler.FoldIsFolded | src/error/ErrorHandler.js:8 | after the fold, the keys are the reported paths in first-occurrence order, each holding the translation of the last message for that path |
| ErrorHandler.BuildValidationErrors | src/error/ErrorHandler.js:5-9 | the loop builds exactly the fold: the reported paths in first-occurrence order, each holding the translation of the last message for that path |
| ErrorHandler.HandleError | src/error/ErrorHandler.js:2-13 | the status is the error's own; the body has the request path, the timestamp and the translated message; `validationErrors` is present iff the error carries a list, and is then the fold of that list |
| ErrorHandler.ValidationKeysArePaths | src/error/ErrorHandler.js:5-9 | the keys of `validationErrors` are exactly the reported paths, each once |
| TokenAuth.BearerToken | src/middleware/tokenAuth.js:10 | the token is the header with its first 7 characters removed |
| TokenAuth.BearerTokenOfHeader | src/middleware/tokenAuth.js:10 | the token sent as `Bearer <token>` is the one verified |
| TokenAuth.Authenticate | src/middleware/tokenAuth.js:6-19 | with no header or an empty one, no identity and no change; otherwise the identity is verify's result on success and absent on failure, and the table changes only as verify changes it |
| AuthRouter.LoginCheck | src/auth/routes/AuthRouter.js:10-27 | login passes iff the email is well formed, a user holds it, the password matches and the user is active; Forbidden iff all but the last hold; every other failure is AuthException |
| AuthRouter.MalformedEmailRefused | src/auth/routes/AuthRouter.js:10-14 | a malformed email gives AuthException whatever the table holds |
| AuthRouter.UnknownEmailLikeWrongPassword | src/auth/routes/AuthRouter.js:16-23 | a wrong password and an unknown email give the same AuthException |
| AuthRouter.ForbiddenOnlyAfterPasswordMatch | src/auth/routes/AuthRouter.js:24-26 | for a stored user with a well-formed email, login gives Forbidden iff the password matches and the account is inactive |
| AuthRouter.Login | src/auth/routes/AuthRouter.js:10-35 | no token is created on failure; on success exactly one token row is added and the reply is id, username and token |
| AuthRouter.Logout | src/auth/routes/AuthRouter.js:38-46 | deletes the bearer token when a non-empty header is present, changes nothing otherwise, and always answers 200 |
| AuthRouter.LogoutIdempotent | src/auth/routes/AuthRouter.js:38-46 | logging out twice with the same header equals logging out once |
| MountedUserRouter.FirstFailure | src/user/UserRouter.js:17-46 | a bailing chain reports the first failing check and nothing after it |
| MountedUserRouter.ValidateRegister | src/user/UserRouter.js:17-50 | each field carries the first failure of its own chain, independently of the other fields; at most one error per field, in the order username, email, password |
| MountedUserRouter.RegisterValidationReply | src/user/UserRouter.js:17-50 | the handler's `validationErrors` for a refused registration has one key per failing field, in the order username, email, password, each holding the translated first failure of that field's chain |
| MountedUserRouter.UsernameChain | src/user/UserRouter.js:17-22 | null or empty gives `username_null`; otherwise a length outside 4 to 32 gives `username_size` |
| MountedUserRouter.EmailChain | src/user/UserRouter.js:24-36 | empty gives `email_null`, then malformed `email_invalid`, then registered `email_inuse`, only the first reported |
| MountedUserRouter.PasswordChain | src/user/UserRouter.js:38-46 | empty gives `password_null`, then shorter than 6 `password_size`, then missing lower case, upper case or digit `password_pattern` |
| MountedUserRouter.ValidRequestHasFreeEmail | src/user/UserRouter.js:48-57 | a request without errors has all three fields and an email no user holds |
| MountedUserRouter.Register | src/user/UserRouter.js:48-57 | any validation error is reported and nothing is stored; otherwise `save` runs once and the reply is `user_create_success`; the id counter advances only when the registration is committed |
| MountedUserRouter.ValidatedSaveNeverDuplicates | src/user/UserRouter.js:24-36 | a validated registration never hits the unique constraint |
| MountedUserRouter.ActivateAccount | src/user/UserRouter.js:66-74 | activation as the service does it, replying `account_activation_success`; the id counter is unchanged |
| UserRoutes.OwnerRefusedAsWritten | src/user/routes/UserRouter.js:102 | as written, the owner guard refuses every request, the owner's included |
| UserRoutes.OwnerAdmittedExactly | src/user/routes/UserRouter.js:102 | the corrected guard admits a request for an account iff it comes from that account |
| UserRoutes.OwnerParamIsAuthId | src/user/routes/UserRouter.js:105 | an admitted path parameter selects the authenticated user's row |
| UserRoutes.IdOfParam | src/user/routes/UserRouter.js:92 | a path parameter selects a row only when it is a run of decimal digits |
| UserRoutes.ListUsers | src/user/routes/UserRouter.js:79-87 | the reply is the page the pagination middleware selects: its page and size, the active users from offset `page * size` in table order, and `totalPages` the ceiling of their count over `size` |
| UserRoutes.EmptyTableFirstPage | src/user/routes/UserRouter.js:79-87 | with no users and no query the reply is `{content: [], page: 0, size: 10, totalPages: 0}` |
| UserRoutes.PageShowsActiveUsers | src/user/routes/UserRouter.js:82 | every user on a page is a stored active user |
| UserRoutes.RouteListsEveryActiveUser | src/user/routes/UserRouter.js:82 | since keys start at 1, the route's listing excludes no active user |
| UserRoutes.GetUser | src/user/routes/UserRouter.js:90-97 | succeeds iff the parameter selects an active user, replying with that user's id, username and email; otherwise NotFound `user_not_found` |
| UserRoutes.UpdateUserRoute | src/user/routes/UserRouter.js:100-107 | (corrected guard; see Findings) anyone but the owner gets Forbidden `unauth_update` and nothing changes; the owner's username is updated; the id counter is unchanged |
| UserRoutes.DeleteUserRoute | src/user/routes/UserRouter.js:110-117 | (corrected guard; see Findings) anyone but the owner gets Forbidden `unauth_delete` and nothing changes; the owner's account and tokens are deleted; the id counter is unchanged |
| UserRoutes.PasswordResetRoute | src/user/routes/UserRouter.js:120-131 | (corrected reset; see Findings) a value that is not an email gives the validation error and nothing is looked up; otherwise the reset runs and the reply is `password_reset_success`; the id counter is unchanged |

## Left out

- HTTP wiring, Express request and response objects, and async scheduling: each handler is one sequential, atomic step.
- Concurrency between requests: two requests never interleave in the model.
- `setInterval` in `scheduleCleanup`: only the callback body is modelled, as `TokenStore.Sweep(now)`.
- The clock: `verify` reads the time twice (`Date.now()` and `new Date()`); the model uses one `now` for both.
- bcrypt, the e-mail service and `crypto.randomBytes`: these are the inputs `hash`, `notified` and `bytes`. Their own failure modes are not modelled.
- i18n: the translation `t` is an uninterpreted function, and replies carry message keys.
- express-validator's `isEmail`: an uninterpreted predicate. `isLength` counts code points but does not count the variation selectors U+FE0E and U+FE0F; the model counts every character, those included.
- `Number.parseInt` on very large digit strings: the model's integers are exact, while JavaScript rounds them to doubles.
- JsNumbers.DecimalString: renders every non-negative integer as plain decimal digits. JavaScript's `String(n)` does so only below 10^21 and switches to exponent form from there (`String(1e21)` is `"1e+21"`, which `parseInt` reads as 1).
- JsNumbers.ParseDecimal: `parseInt(String(n)) == n` holds in JavaScript only below 10^21, because of the exponent form above.
- Pagination.PaginateIdempotent: holds in JavaScript only for pages below 10^21; a page of 10^21 fed back as a query string comes back as page 1.
- SQL ordering: queries without `ORDER BY` return rows in table (insertion) order in the model.
- UserRoutes.IdOfParam: takes an all-digit string to its value and anything else to no row. SQLite's numeric coercion of the string parameter against the integer key also maps parameters such as `"+5"`, `" 5"`, `"5.0"` and `"5e0"` to row 5; the model gives those no row.
- UserService.Database.UpdateUser: the source echoes the path parameter (a string) as `id`; the model returns the number it denotes.
- UserService.UpdateRows: the source reads `updateBody.username`; the model takes the username as given and does not model an absent one.
- AuthRouter.LoginCheck: an absent password at login, which bcrypt rejects with an error, is not modelled.
- UserRoutes.PasswordResetRoute: an absent email is taken to fail `isEmail`, as express-validator checks the empty string.
- The HTTP status and message attached to each exception class: those classes are not part of this model. `Errors.ApiError` records which exception is raised.
- `src/user/UserService.js`, imported by the mounted router, is not part of this model.
- UserRoutes.UpdateUserRoute: models the corrected owner guard; as written (src/user/routes/UserRouter.js:102) every request is refused, which UserRoutes.OwnerRefusedAsWritten states.
- UserRoutes.DeleteUserRoute: models the corrected owner guard; as written (src/user/routes/UserRouter.js:112) every request is refused, which UserRoutes.OwnerRefusedAsWritten states.
- UserService.ResetRows: models the corrected reset that stores the token; as written the token is not persisted, which UserService.ResetRowsAsWritten states.
- UserService.Database.ResetPassword: stores the token as the corrected reset does; as written the table is unchanged (see Findings).
- UserRoutes.PasswordResetRoute: runs the corrected reset; as written the token is mailed but not stored (see Findings).
- ErrorHandler.BuildValidationErrors: keys are kept in first-assignment order, which is JavaScript's order for non-index keys; index-like paths such as "0" would be enumerated first, in ascending order.

## Findings

| source | as written | input that shows it | evidently intended | confidence | as-written member | corrected member |
|---|---|---|---|---|---|---|
| src/user/routes/UserRouter.js:102 | the PUT/DELETE guard compares `authenticatedUser.id` (a number from the token row) with `req.params.id` (a string) using `!==`, which is always true | user 5 sends PUT `/api/users/5` with its own valid token: `5 !== "5"`, so the request is Forbidden | the owner passes: `String(authenticatedUser.id) === req.params.id` | not executed | UserRoutes.OwnerRefusedAsWritten | UserRoutes.OwnerAdmittedExactly |
| src/user/services/UserService.js:109-110 | `user.passwordResetToken` is assigned and `user.save()` is called, but `passwordResetToken` is not a column of the model in src/user/model/User.js:10-29, so the save writes nothing | a registered user requests a reset: the reset e-mail carries a token that no row holds | the reset token is stored on the user's row | not executed | UserService.ResetTokenLostAsWritten | UserService.ResetTokenStored |
