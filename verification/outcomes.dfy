/** Failure outcomes standing in for the C++ exceptions the game code throws. */
module Outcomes {

  /** std::out_of_range, std::invalid_argument and std::runtime_error. */
  datatype Error = OutOfRange | InvalidArgument | RuntimeError

  /** Either the value an operation returns or the exception it throws. */
  datatype Result<T> = Ok(value: T) | Err(error: Error)
}
