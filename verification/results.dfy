/** Failure-compatible wrappers used throughout the model: `Option` for Rust's
    `Option`, and `Result` for both Rust's `Result` and the panics of the source,
    which become explicit error values here. */
module Results {

  datatype Option<+T> = None | Some(value: T)

  datatype Result<+T, +E> = Ok(value: T) | Err(error: E) {

    predicate IsFailure() {
      Err?
    }

    function PropagateFailure<U>(): Result<U, E>
      requires Err?
    {
      Err(error)
    }

    function Extract(): T
      requires Ok?
    {
      value
    }
  }
}
