/** The C++ exceptions thrown by the container and the union-find code, and the
    result types that carry them instead of a non-local throw. */
module Exceptions {

  /** std::length_error (bad vector size, dimension mismatch) and
      std::out_of_range (index not below the vector's size). */
  datatype Error = LengthError | OutOfRange

  /** The value of a call that either returns normally or throws. */
  datatype Result<+T> = Success(value: T) | Failure(error: Error)

  /** The outcome of a call that returns void or throws. */
  datatype Outcome = Pass | Fail(error: Error)
}
