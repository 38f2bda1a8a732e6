/** The option and result types the other modules share. */
module Wrappers {

  datatype Option<+T> = None | Some(value: T)

  /** A value, or the error the operation stopped with. */
  datatype Result<+T, +E> = Ok(value: T) | Err(error: E) {
    predicate IsFailure() { Err? }

    function PropagateFailure<U>(): Result<U, E>
      requires Err?
    {
      Err(error)
    }

    function Extract(): T
      requires Ok?
    {
      value
    }
  }
}
