/**
 * Go `error` values as they flow through the account core.
 *
 * `Wrapped(prefix, cause)` is `fmt.Errorf("<prefix>: %w", cause)`; the cause is
 * `None` when the wrapped error was nil, in which case unwrapping yields nothing.
 */
module Errors {
  import opened Wrappers

  datatype Error =
    | Msg(text: string)                           // errors.New(text) or an error with no cause
    | Wrapped(prefix: string, cause: Option<Error>)
    | ErrNoRows                                   // sql.ErrNoRows
    | UniqueViolation                             // the store's unique constraint rejected a row
    | InvalidJWTToken                             // httpErrors.InvalidJWTToken
    | InvalidJWTClaims                            // httpErrors.InvalidJWTClaims
    | TokenMalformed                              // the JWT library could not decode the token
    | TokenSignatureInvalid                       // the JWT library rejected the signature
    | TokenInvalidClaims                          // the JWT library rejected exp or another time claim
    | InvalidUuid                                 // uuid.Parse failed

  const ErrEmailAlreadyExists := "user with given email already exists"
  const ErrUnauthorized := "unauthorized"

  /**
   * The chain walk of errors.Is: `target` is `e` itself or somewhere on its chain of causes.
   * Errors are compared as values, so `Is(e, Msg(t))` says that an error with text `t` is on
   * the chain; Go compares errors.New values by identity, which this does not model.
   */
  predicate Is(e: Error, target: Error)
    decreases e
  {
    e == target || (e.Wrapped? && e.cause.Some? && Is(e.cause.value, target))
  }

  /** The root cause of `e` that unwrapping reaches, if any. */
  function Root(e: Error): (r: Option<Error>)
    ensures r.Some? ==> Is(e, r.value) && !r.value.Wrapped?
    decreases e
  {
    match e
    case Wrapped(_, cause) => if cause.Some? then Root(cause.value) else None
    case _ => Some(e)
  }

  /** An error built with a nil `%w` operand carries no cause: nothing but itself is on its chain. */
  lemma {:induction false} NilCauseIsLost(prefix: string, target: Error)
    requires Is(Wrapped(prefix, None), target)
    ensures target == Wrapped(prefix, None)
    ensures Root(Wrapped(prefix, None)) == None
  {
  }
}
