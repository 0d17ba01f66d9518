/** Go's error-returning conventions.
    A Go `error` that may be nil is an `Option<Error>` (None is nil); a pair
    `(*T, error)` whose pointer is nil exactly when the error is not is a
    `Result<T>`. */
module Errors {

  datatype Option<+T> = None | Some(value: T)

  /** The error values the core distinguishes: the four sentinels it
      compares against (db.ErrNoRows, cache.ErrKeyNotFound,
      converter.ErrURLFormat, util.ErrURLNotFound); the two errors that
      follow from the state itself (the int64 auto-increment column has no
      value left; a Redis value is scanned into a nil pointer); and every
      other backing failure, told apart only by an opaque code. */
  datatype Error =
    | ErrNoRows
    | ErrKeyNotFound
    | ErrURLFormat
    | ErrURLNotFound
    | ErrAutoIncrementExhausted
    | ErrInvalidUnmarshal
    | Failure(code: nat)

  datatype Result<+T> = Ok(value: T) | Err(error: Error)
}
