/** Failure-carrying datatypes shared by every module of the model. */
module Wrappers {

  /** A value that may be absent: an unset optional protobuf field, a missing table entry. */
  datatype Option<+T> = None | Some(value: T)

  /** Either a value or the error the library raises instead of returning one. */
  datatype Result<+T, +E> = Ok(value: T) | Err(error: E) {

    predicate IsFailure() {
      Err?
    }

    function PropagateFailure<U>(): Result<U, E>
      requires Err?
    {
      Err(error)
    }

    function Extract(): T
      requires Ok?
    {
      value
    }
  }
}
