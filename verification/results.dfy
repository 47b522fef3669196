/** Outcomes of the modelled Python functions: a value, or the exception the
    function raises. */
module Results {

  /** The Python exceptions the encoding pipeline can raise. */
  datatype Error = ValueError | IndexError | ZeroDivisionError

  /** An optional keyword argument: `None` selects the function's default. */
  datatype Option<+T> = None | Some(value: T) {
    function GetOr(default: T): T {
      match this
      case Some(v) => v
      case None => default
    }
  }

  /** A returned value, or a raised exception; usable with `:-`. */
  datatype Result<+T> = Ok(value: T) | Err(error: Error) {
    predicate IsFailure() {
      Err?
    }

    function PropagateFailure<U>(): Result<U>
      requires Err?
    {
      Err(error)
    }

    function Extract(): T
      requires Ok?
    {
      value
    }
  }
}
