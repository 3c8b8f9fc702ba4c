/** Failure-compatible result types and the Python exceptions the core can raise. */
module Wrappers {

  datatype Option<+T> = None | Some(value: T)

  /** A value or the exception that aborted its computation; usable with `:-`. */
  datatype Result<+T, +E> = Success(value: T) | Failure(error: E) {

    predicate IsFailure() {
      Failure?
    }

    function PropagateFailure<U>(): Result<U, E>
      requires Failure?
    {
      Failure(error)
    }

    function Extract(): T
      requires Success?
    {
      value
    }
  }
}

/** The exceptions of the request pipeline, with the text `str(e)` gives for each. */
module Exceptions {

  datatype Error =
    | IndexError                  // list index out of range
    | KeyError(key: string)       // a record without the requested field
    | Raised(message: string)     // any exception of an external collaborator

  /**
   * Python's `str(e)` for each exception. For a KeyError this is the key's
   * `repr`, which is the key in single quotes only for keys without quotes
   * or backslashes, such as the `'source'` key the pipeline uses.
   */
  function Message(e: Error): string {
    match e
    case IndexError => "list index out of range"
    case KeyError(key) => "'" + key + "'"
    case Raised(message) => message
  }
}
