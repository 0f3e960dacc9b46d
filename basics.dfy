/** Values shared by every part of the benchmark model: optional values, and the
    outcome of an operation that may throw one of the errors the script can raise. */
module Basics {

  datatype Option<+T> = None | Some(value: T)

  /** The ways the script fails by throwing. */
  datatype Error =
    | EmptyReduce     // TypeError: reduce of an empty array with no initial value
    | MissingVersion  // TypeError: a property of an undefined `version` is read or set
    | UnexpectedArgs  // Error('unexpected args') of the exit-code mode

  datatype Result<+T> = Success(value: T) | Failure(error: Error)
}
