/** Failure-compatible values shared by the model: an optional value, the one
    error the script can raise while deriving a version, and a result type that
    works with `:-` so that a pipeline step short-circuits on the first failure.
 */
module Results {

  datatype Option<+T> = None | Some(value: T)

  /** The `ValueError` raised when no version can be read from a file name;
      it carries the file name that failed to match. */
  datatype Error = VersionNotFound(filename: string)

  datatype Result<+T> = Ok(value: T) | Err(error: Error) {

    predicate IsFailure() {
      Err?
    }

    function PropagateFailure<U>(): Result<U>
      requires Err?
    {
      Err(error)
    }

    function Extract(): T
      requires Ok?
    {
      value
    }
  }
}
