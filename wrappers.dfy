/** Option and Result values used across the model for Python's `None` and raised exceptions. */
module Wrappers {

  datatype Option<T> = None | Some(value: T)
  {
    /** Lets `var x :- e;` stop at the first `None`, as a chain of regex steps does. */
    predicate IsFailure() { None? }

    function PropagateFailure<U>(): Option<U>
      requires None?
    {
      None
    }

    function Extract(): T
      requires Some?
    {
      value
    }
  }

  /** `Err` stands for an exception the Python code raises; no partial result accompanies it. */
  datatype Result<T, E> = Ok(value: T) | Err(error: E)
}
