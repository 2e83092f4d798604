/** Option and Result values standing for Python's `None` and for a raised exception. */
module Wrappers {

  datatype Option<T> = None | Some(value: T)

  /** `Err` carries the exception a Python call raised and did not catch. */
  datatype Result<T, E> = Ok(value: T) | Err(error: E) {
    predicate IsFailure() { Err? }

    function PropagateFailure<U>(): Result<U, E>
      requires Err?
    {
      Err(error)
    }

    function Extract(): T
      requires Ok?
    {
      value
    }
  }
}
