/** Results that may be missing, and results that may be an exception. */
module Wrappers {

  datatype Option<+T> = None | Some(value: T)

  /** The kind of exception is not kept. */
  datatype Result<+T> = Ok(value: T) | Err {
    predicate IsFailure() { Err? }

    function PropagateFailure<U>(): Result<U>
      requires Err?
    {
      Err
    }

    function Extract(): T
      requires Ok?
    {
      value
    }
  }
}
