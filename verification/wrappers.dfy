/** Failure-carrying result types shared by every module of the model. */
module Wrappers {

  /** A value that may be absent: Python's `None` versus a present value. */
  datatype Option<+T> = None | Some(value: T) {

    /** Python's `a or b` on an optional object: `a` when present, else `b`. */
    function OrElse(other: Option<T>): Option<T>
    {
      if Some? then this else other
    }

    function GetOr(default: T): T
    {
      if Some? then value else default
    }
  }

  /** Either a value or the error the source would raise or report. */
  datatype Result<+R, +E> = Ok(value: R) | Err(error: E) {

    predicate IsFailure()
    {
      Err?
    }

    function PropagateFailure<U>(): Result<U, E>
      requires Err?
    {
      Err(error)
    }

    function Extract(): R
      requires Ok?
    {
      value
    }
  }
}
