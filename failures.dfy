/** The exceptions the two backends raise, and the value a call produces:
    its result or the exception it raises. */
module Failures {

  datatype Option<T> = None | Some(value: T)

  /** A Python exception, by class, with the text `str(e)` gives. */
  datatype Exception =
    | ValueError(msg: string)
    | RuntimeError(msg: string)
    | RdseedError(msg: string)
    | TypeError(msg: string)
    | AttributeError(msg: string)
    | IndexError(msg: string)

  datatype Result<T> = Ok(value: T) | Err(error: Exception)
}
