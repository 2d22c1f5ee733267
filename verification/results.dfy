/** Outcomes of operations that raise in Python: a value, or the exception raised. */
module Results {

  /** The built-in Python exceptions the modelled code can raise. */
  datatype Error = ValueError | IndexError | ZeroDivisionError | KeyError

  datatype Result<+T> = Ok(value: T) | Err(error: Error)

  datatype Option<+T> = None | Some(value: T)
}
