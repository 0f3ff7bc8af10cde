/** Failure-carrying result types used across the model in place of Java's
    null returns and thrown exceptions. */
module Wrappers {

  /** A value that may be absent: Java's nullable reference or Optional. */
  datatype Option<T> = None | Some(value: T)

  /** The value of a call that either returns normally or throws. */
  datatype Result<T, E> = Success(value: T) | Failure(error: E)

  /** The result of a void call that either returns normally or throws. */
  datatype Outcome<E> = Pass | Fail(error: E)
}

/** The exceptions the modelled code throws, each with its message text. */
module Exceptions {

  datatype Exception =
    | BookNotFound(message: string)      // BookNotFoundException
    | RuntimeError(message: string)      // RuntimeException
    | IllegalState(message: string)      // IllegalStateException
    | IllegalArgument(message: string)   // IllegalArgumentException
    | ConstraintViolation                // ConstraintViolationException from @Valid
}
