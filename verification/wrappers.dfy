/** Failure-carrying results for the dictionary's operations. */
module Wrappers {

  /** An optional value; `None` stands for Objective-C's `nil` and for `NSNotFound`. */
  datatype Option<T> = None | Some(value: T)

  /** The two Foundation exceptions the dictionary raises. */
  datatype Exception =
    | InvalidArgument  // NSInvalidArgumentException
    | Range            // NSRangeException

  /** Either a value or the exception that was raised instead. */
  datatype Result<T> = Success(value: T) | Failure(error: Exception)
}
