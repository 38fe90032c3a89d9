/**
 * Failure-carrying results shared by every module.  The Ruby layer raises
 * exceptions and the C++ layer returns NULL/false; both become `Err` or `None`.
 */
module Wrappers {

  datatype Option<+T> = None | Some(value: T)

  /** The exception classes the Ruby code raises (a bare `raise` is a RuntimeError). */
  datatype Error =
    | ArgumentError
    | RuntimeError
    | TypeError
    | NoMethodError

  /** The outcome of a state-changing operation that returns nothing of interest. */
  datatype Outcome = Pass | Fail(error: Error)

  datatype Result<+T> = Ok(value: T) | Err(error: Error) {
    predicate IsFailure() { Err? }

    function PropagateFailure<U>(): Result<U>
      requires Err?
    {
      Err(error)
    }

    function Extract(): T
      requires Ok?
    {
      value
    }
  }
}
