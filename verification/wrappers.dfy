/** `Option` for a parse or lookup that may find nothing, and `Result` for a
    step that may stop with one of the exceptions pandas would raise. */
module Wrappers {

  datatype Option<+T> = None | Some(value: T)

  /** A step either produces a value or stops the script with an error. */
  datatype Result<+T, +E> = Ok(value: T) | Err(error: E) {

    predicate IsFailure() {
      Err?
    }

    function PropagateFailure<U>(): Result<U, E>
      requires Err?
    {
      Err(error)
    }

    function Extract(): T
      requires Ok?
    {
      value
    }
  }
}
