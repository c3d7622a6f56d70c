/** Shared value types: an optional value, and the result of a call that may fail
    with a Go `error`. */
module Core {

  datatype Option<+T> = None | Some(value: T)

  /** How a Go error can be told apart from other errors by its callers. */
  datatype Kind =
    | Plain                  // any error without special handling
    | Exit(code: int)        // an `*exec.ExitError` carrying the process exit code
    | NotFullyMerged         // wraps `git.ErrBranchNotFullyMerged`

  /** A Go error: the text `err.Error()` returns, and its kind. */
  datatype Error = Error(message: string, kind: Kind)

  /** A `(value, error)` pair where exactly one side is meaningful. */
  datatype Result<+T> = Ok(value: T) | Err(error: Error)

  function Fail<T>(message: string): Result<T>
  {
    Err(Error(message, Plain))
  }
}
