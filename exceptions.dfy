/** The Java exceptions the exercises raise, and the result shapes that carry them. */
module Exceptions {
  datatype Exception =
    | FullException
    | EmptyException
    | NegativeExponentException
    | IllegalArgumentException
    | ZeroDivisorException
    | DuplicateException
    | NoSuchElementException
    | IndexOutOfBoundsException
    | NumberFormatException
    | ArrayIndexOutOfBoundsException
    | NullPointerException

  /** A value-returning operation: its value, or the exception it raised. */
  datatype Result<+T> = Ok(value: T) | Err(error: Exception)

  /** A void operation: it either completed or raised an exception. */
  datatype Status = Done | Raised(error: Exception)

  /** Java's nullable references. */
  datatype Option<+T> = Some(value: T) | None
}
