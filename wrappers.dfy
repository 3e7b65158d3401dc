/** Option, Result and the Python exceptions the modelled handlers can raise. */
module Wrappers {

  datatype Option<+T> = None | Some(value: T)

  /** The kinds of exception that escape the modelled Python functions. */
  datatype Error =
    | IndexError      // `[-1]` on an empty list
    | KeyError        // a missing dictionary entry
    | TypeError       // `in` applied to None
    | AttributeError  // a method called on None
    | AssertionError  // a failed `assert`
    | ValueError      // malformed JSON or base64 input

  datatype Result<+T> = Ok(value: T) | Err(error: Error)

  /** Bytes, as Python's `bytes` elements. */
  type Byte = b: int | 0 <= b < 256
}
