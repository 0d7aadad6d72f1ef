/** Values standing in for Java's null and for the exceptions the containers throw. */
module Errors {

  /** A reference that may be null: `None` is Java's `null`. */
  datatype Option<+T> = None | Some(value: T)

  /** A null object reference, where nodes are numbered by allocation. */
  const Null: int := -1

  /** The exception classes the containers throw, or let escape from a library call. */
  datatype Exception =
    | IllegalArgument   // java.lang.IllegalArgumentException
    | NoSuchElement     // java.util.NoSuchElementException
    | IndexOutOfBounds  // java.lang.IndexOutOfBoundsException
    | Runtime           // java.lang.RuntimeException
    | EmptyStack        // java.util.EmptyStackException

  /** The outcome of a Java method that returns a value or throws. */
  datatype Result<+T> = Ok(value: T) | Err(error: Exception)

  /** The outcome of a `void` Java method that returns or throws. */
  datatype Outcome = Pass | Fail(error: Exception)
}
