/** Values shared by the whole model: PHP's nullable values, its truthiness
    test, and the outcome of an operation that may throw. */
module Common {

  /** A PHP value that may be null. */
  datatype Option<T> = None | Some(value: T) {
    function GetOr(default: T): T {
      match this
      case Some(v) => v
      case None => default
    }
  }

  /** The exceptions the modelled code throws (their messages are not modelled). */
  datatype Error = InvalidArgument | Logic

  /** A value or the exception that was thrown instead. */
  datatype Result<T> = Ok(value: T) | Err(error: Error)

  /** Completion of an operation that returns nothing, or the exception it threw. */
  datatype Outcome = Done | Fail(error: Error)

  /** PHP's boolean reading of a nullable string: null, "" and "0" are false. */
  predicate Truthy(s: Option<string>) {
    s.Some? && s.value != "" && s.value != "0"
  }
}
