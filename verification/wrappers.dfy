/** Failure-compatible wrappers shared by every service model.

    The services signal failure by throwing; here each exception becomes an
    `Error` kind carried by `Result`, and Java's `null` becomes `None`.
 */
module Wrappers {

  /** A value that may be missing (Java `null`). */
  datatype Option<T> = None | Some(value: T)

  /** The exception kinds the modelled code can raise, reduced to their kind. */
  datatype Error =
    | NotFound          // ResourceNotFoundException
    | AlreadyExists     // ResourceAlreadyExistsException
    | BadResource       // BadResourceException
    | IllegalArgument   // IllegalArgumentException("Not a valid currency name")
    | IndexOutOfBounds  // ArrayIndexOutOfBoundsException from `split[1]`
    | NumberFormat      // NumberFormatException from Double.parseDouble
    | NullPointer       // unboxing a null Double rate
    | NonUniqueResult   // a single-result repository query that found several rows
    | NonFinite         // Double division by zero (Infinity or NaN, which reals lack)
    | NotValid          // MethodArgumentNotValidException: a request body failed validation

  /** Either a value or the kind of exception that was thrown instead. */
  datatype Result<T> = Ok(value: T) | Err(error: Error) {

    predicate IsFailure() {
      Err?
    }

    function PropagateFailure<U>(): Result<U>
      requires Err?
    {
      Err(error)
    }

    function Extract(): T
      requires Ok?
    {
      value
    }
  }
}
