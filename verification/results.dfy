/** The failure the ingestion code can raise on already-parsed input: Python's
    KeyError, raised when a taxonomy group or a record's SourceFile is missing. */
module Results {

  datatype Error = KeyError(key: string)

  /** Success/Failure wrapper, usable with `:-`. */
  datatype Result<+T> = Success(value: T) | Failure(error: Error) {

    predicate IsFailure() {
      Failure?
    }

    function PropagateFailure<U>(): Result<U>
      requires Failure?
    {
      Failure(error)
    }

    function Extract(): T
      requires Success?
    {
      value
    }
  }
}
