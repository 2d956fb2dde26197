/** Failure-compatible wrappers shared by every module of the model.
    The source reports errors by throwing `std::runtime_error` (or a
    subclass); the model returns `Err` carrying the exception text. */
module Wrappers {

  datatype Option<T> = None | Some(value: T)

  datatype Result<T> = Ok(value: T) | Err(error: string) {

    predicate IsFailure() {
      Err?
    }

    function PropagateFailure<U>(): Result<U>
      requires Err?
    {
      Err(error)
    }

    function Extract(): T
      requires Ok?
    {
      value
    }
  }
}
