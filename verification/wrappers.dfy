/** Optional values, the exception kinds the modelled Python code raises,
    and a result type that carries either a value or one of those exceptions. */
module Wrappers {

  datatype Option<+T> = None | Some(value: T)

  /** The Python exception classes raised by the modelled code.
      `Raised` stands for an exception coming out of a caller-supplied callback. */
  datatype Error =
    | KeyError
    | IndexError
    | ValueError
    | TypeError
    | AttributeError
    | UnboundLocalError
    | Raised

  datatype Result<+T> = Ok(value: T) | Err(error: Error) {
    predicate IsFailure() { Err? }

    function PropagateFailure<U>(): Result<U>
      requires Err?
    {
      Err(error)
    }

    function Extract(): T
      requires Ok?
    {
      value
    }
  }

  /** What an operation on a mutable object leaves behind, and what it
      returns or raises. Python keeps the changes made before an exception,
      so `state` is meaningful on both paths. */
  datatype Outcome<S, T> = Outcome(state: S, out: Result<T>)
}
