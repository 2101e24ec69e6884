/** Python's None and the one exception the LDIF core can raise, as values. */
module Wrappers {

  /** A value or Python's `None`. */
  datatype Option<+T> = None | Some(value: T)

  /** The exceptions raised by the modelled code. */
  datatype PyError = IndexError

  /** A value, or the exception that a Python call raises instead of returning. */
  datatype Result<+T> = Ok(value: T) | Err(error: PyError)
}
