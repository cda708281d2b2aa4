/** Failure-compatible wrappers used throughout the model: `Option` for
    lookups and decoders, `Result` for operations that raise in the
    original program (a missing SQLite table, a missing DataFrame column). */
module Results {

  datatype Option<+T> = None | Some(value: T)

  datatype Result<+T, +E> = Ok(value: T) | Err(error: E) {

    predicate IsFailure() {
      Err?
    }

    function PropagateFailure<U>(): Result<U, E>
      requires Err?
    {
      Err(error)
    }

    function Extract(): T
      requires Ok?
    {
      value
    }
  }
}
