/**
 * The failures the handlers pass to `next(err)`. The exception classes
 * themselves are not part of this model; each kind is named after the class
 * the source throws, and the HTTP status it carries is given for reference.
 */
module Errors {
  import opened Wrappers

  /** One entry of express-validator's `errors.array()`: the field and the message key. */
  datatype FieldError = FieldError(path: string, msg: string)

  datatype ApiError =
    | AuthFailure                              // AuthException, 401
    | Forbidden(reason: Option<string>)        // ForbiddenException, 403; None: the class's default message
    | ValidationFailure(errors: seq<FieldError>) // ValidationErrorException, 400
    | NotFound(key: string)                    // NotFoundException, 404
    | InvalidToken                             // InvalidTokenException, 400
    | EmailFailure                             // EmailException, 502
    | UniqueViolation                          // the database's unique constraint on `email`
    | NullDereference                          // a TypeError from a property write on a null row
}
