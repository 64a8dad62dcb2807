/** Failure-compatible wrappers shared by every module of the model.

    `Option` stands for a Java reference that may be `null`, and for a
    `double` that may be NaN wherever the code branches on NaN; `Result`
    stands for a computation that may end in one of the exceptions the code
    throws. */
module Wrappers {

  datatype Option<+T> = None | Some(value: T) {

    /** The wrapped value, or `default` for `None`. */
    function GetOr(default: T): T {
      match this
      case Some(v) => v
      case None => default
    }
  }

  datatype Result<+T, +E> = Ok(value: T) | Err(error: E) {

    predicate IsFailure() {
      Err?
    }

    function PropagateFailure<U>(): Result<U, E>
      requires Err?
    {
      Err(error)
    }

    function Extract(): T
      requires Ok?
    {
      value
    }
  }
}
