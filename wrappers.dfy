/** Option and Result, used wherever the Python code returns None or raises. */
module Wrappers {

  /** `None` stands for Python's `None`; `Some(v)` for a present value. */
  datatype Option<+T> = None | Some(value: T)

  /** The outcome of a Python call that either returns a value or raises. */
  datatype Result<+T, +E> = Ok(value: T) | Err(error: E)

  /** The Python exceptions that the modelled code can raise. */
  datatype PyError =
    | ValueError(message: string)
    | KeyError(key: string)
    | IndexError
}
