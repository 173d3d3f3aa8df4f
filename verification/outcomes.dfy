/** The ways an operation on the list can end: a value, or one of the exceptions it throws. */
module Outcomes {

  /** A reference that may be null. */
  datatype Option<+T> = None | Some(value: T)

  /** The exceptions thrown by the list's operations. */
  datatype Error =
    | IllegalArgument  // IllegalArgumentException: bad index, or a block that is not in the list
    | NullPointer      // NullPointerException: a null node handed to remove

  /** Normal return with a value, or an exception. */
  datatype Result<+T> = Success(value: T) | Failure(error: Error)
}
