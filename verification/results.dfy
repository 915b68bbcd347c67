/** Failure-carrying values shared by every module of the model.
    A Python exception raised by the modelled code becomes an `Err`
    (or `Fail`) carrying a constructor that names the exception. */
module Results {

  datatype Option<+T> = None | Some(value: T)

  datatype Result<+T, +E> = Ok(value: T) | Err(error: E) {
    predicate IsFailure() { Err? }

    function PropagateFailure<U>(): Result<U, E>
      requires Err?
    {
      Err(error)
    }

    function Extract(): T
      requires Ok?
    {
      value
    }
  }

  /** A check that either passes or fails with an error, without a value. */
  datatype Outcome<+E> = Pass | Fail(error: E)
}
