/** Optional values and the Python exceptions raised by the utilities. */
module Wrappers {

  /** Python's `Optional[T]`: `None` or a present value. */
  datatype Option<T> = None | Some(value: T)

  /** The exception classes the modelled functions can raise. */
  datatype PyError =
    | ValueError           // tuple unpacking of a window of the wrong size
    | IndexError           // list index out of range
    | ZeroDivisionError    // divmod by zero
    | ArgumentTypeError(message: string)

  /** A call that either returns a value or raises. */
  datatype Result<T> = Ok(value: T) | Err(error: PyError)
}
