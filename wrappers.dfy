/** Failure-compatible wrappers shared by every module of the model.
    `Result` stands for a Python call that either returns a value or raises;
    `Error` names the exception class the source would raise. */
module Wrappers {

  datatype Option<+T> = None | Some(value: T)

  /** The exception classes the extraction code can raise. `Unreachable` is
      the project's own `RuntimeError` subclass. */
  datatype Error =
    | ValueError
    | IndexError
    | KeyError
    | AttributeError
    | TypeError
    | Unreachable

  datatype Result<+T> = Ok(value: T) | Err(error: Error) {

    predicate IsFailure() {
      Err?
    }

    function PropagateFailure<U>(): Result<U>
      requires Err?
    {
      Err(error)
    }

    function Extract(): T
      requires Ok?
    {
      value
    }
  }
}
