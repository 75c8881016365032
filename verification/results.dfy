/** Failure-carrying values shared by the whole model. */
module Results {

  /** An optional value: a nil pointer or a missing selection in the Go code. */
  datatype Option<+T> = None | Some(value: T)

  /** The outcome of an operation that returns an error (or panics) in Go. */
  datatype Result<+T, +E> = Ok(value: T) | Err(error: E) {
    predicate IsFailure() {
      Err?
    }

    function PropagateFailure<U>(): Result<U, E>
      requires Err?
    {
      Err(error)
    }

    function Extract(): T
      requires Ok?
    {
      value
    }
  }
}
