/** Optional values and results with errors, as used throughout the model. */
module Wrappers {

  /** A possibly missing value: `None` stands for a pandas NaN cell. */
  datatype Option<+T> = None | Some(value: T) {

    /** The value, or `default` when missing (pandas `fillna(default)`). */
    function GetOr(default: T): T {
      match this
      case Some(v) => v
      case None => default
    }
  }

  /** The outcome of an operation that may raise. */
  datatype Result<+T, +E> = Ok(value: T) | Err(error: E) {

    predicate IsFailure() {
      Err?
    }

    function PropagateFailure<U>(): Result<U, E>
      requires Err?
    {
      Err(error)
    }

    function Extract(): T
      requires Ok?
    {
      value
    }
  }

  /** The Python exceptions the core can raise. */
  datatype Exception =
    | IndexError                   // `list index out of range` on a file-name token
    | KeyError(keys: seq<string>)  // the listed columns are not in the frame
}
