/** Failure-carrying datatypes shared by the whole model. */
module Wrappers {

  datatype Option<+T> = None | Some(value: T)

  /** A value or an error; usable with `:-`. */
  datatype Result<+T, +E> = Ok(value: T) | Err(error: E) {

    predicate IsFailure() {
      Err?
    }

    function PropagateFailure<U>(): Result<U, E>
      requires Err?
    {
      Err(error)
    }

    function Extract(): T
      requires Ok?
    {
      value
    }
  }

  /** A Go-style `(value, err)` return: both halves are always present,
      and callers may go on using `value` after an error. */
  datatype Fallible<+T, +E> = Fallible(value: T, err: Option<E>) {

    predicate Failed() {
      err.Some?
    }
  }
}
