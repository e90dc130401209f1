/** Optional values and the two Python exceptions the save-string parsers can raise. */
module Wrappers {

  /** Python's `None` or a value. */
  datatype Option<+T> = None | Some(value: T)

  /** The exceptions raised by `int()`, tuple unpacking and list indexing. */
  datatype PyError = ValueError | IndexError

  /** A value, or the exception the Python code raises instead of returning. */
  datatype Result<+T> = Ok(value: T) | Err(error: PyError)
}
