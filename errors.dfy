/** The one failure kind of the containers: std::underflow_error, raised by
    the top and pop operations of an empty heap or stack. A raising call is
    modelled as an error value; the container is left unchanged. */
module Errors {

  datatype Error = Underflow

  /** The outcome of an operation that yields a value (top). */
  datatype Result<T> = Ok(value: T) | Err(error: Error)

  /** The outcome of an operation that yields nothing (pop). */
  datatype Outcome = Pass | Fail(error: Error)
}
