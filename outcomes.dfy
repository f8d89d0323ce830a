/** Error values of the harness: the C++ code throws exceptions; the model returns them. */
module Outcomes {

  /** `std::runtime_error` carries a message; `std::length_error` is raised when a
      `std::string` of an impossible size is requested. */
  datatype Error = RuntimeError(what: string) | LengthError

  datatype Result<T> = Ok(value: T) | Err(error: Error)

  /** The result of an operation that returns nothing but may throw. */
  datatype Outcome = Pass | Fail(error: Error)
}
