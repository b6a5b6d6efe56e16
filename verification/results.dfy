/** Failure-compatible wrappers used in place of Go's `(value, error)` pairs
    and of its panic/recover error signalling. */
module Results {

  /** An optional value: the result of a map lookup that may miss. */
  datatype Option<+T> = None | Some(value: T)

  /** Either a value or an error; usable with `:-`. */
  datatype Result<+T, +E> = Ok(value: T) | Err(error: E) {

    predicate IsFailure() {
      Err?
    }

    function PropagateFailure<U>(): Result<U, E>
      requires Err?
    {
      Err(error)
    }

    function Extract(): T
      requires Ok?
    {
      value
    }
  }
}
