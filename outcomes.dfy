/** Errors raised by the storage, and the result type that carries them. */
module Outcomes {

  /** The two exception types the storage throws: `std::invalid_argument`
      for a bad configuration, `std::out_of_range` for a full store or a
      missing key. */
  datatype Error = InvalidArgument | OutOfRange

  /** Either the value an operation returns or the exception it throws. */
  datatype Result<+T> = Ok(value: T) | Err(error: Error)
}
