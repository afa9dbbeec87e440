/**
  Result type for the list operations: the C++ source signals an empty list by
  throwing `std::length_error`; here that throw is a `Failure` value carrying
  the same message.
 */
module Results {

  /** The errors the list minimum can raise. */
  datatype Error = LengthError(message: string)

  datatype Result<+T> = Success(value: T) | Failure(error: Error)
}
