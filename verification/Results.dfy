/** Failure-compatible wrappers used throughout the model: `Option` for a claim
    that may be absent (a Java `null`), `Result` for an operation that either
    returns a value or raises an exception. `Result` works with `:-`. */
module Results {

  datatype Option<+T> = None | Some(value: T)

  datatype Result<+T, +E> = Ok(value: T) | Err(error: E) {

    predicate IsFailure() {
      Err?
    }

    function PropagateFailure<U>(): Result<U, E>
      requires Err?
    {
      Err(error)
    }

    function Extract(): T
      requires Ok?
    {
      value
    }
  }
}
