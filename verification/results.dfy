/** Option and Result, the failure-compatible wrappers every operation of the
    HR store returns through. */
module Results {

  /** An optional value: a request field that may be absent, a timestamp that
      may be unset. */
  datatype Option<+T> = None | Some(value: T)

  /** Either a value or the error an operation failed with. */
  datatype Result<+T, +E> = Ok(value: T) | Err(error: E) {

    predicate IsFailure() {
      Err?
    }

    function PropagateFailure<U>(): Result<U, E>
      requires Err?
    {
      Err(error)
    }

    function Extract(): T
      requires Ok?
    {
      value
    }
  }
}
