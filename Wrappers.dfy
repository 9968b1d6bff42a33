/** Option and Result: the "value or undefined" lookups of the stores and the
    `{error, data}` responses of the remote gateway. */
module Wrappers {

  datatype Option<+T> = None | Some(value: T)

  /** A remote response: success with its data, or an error indicator. */
  datatype Result<+T> = Ok(data: T) | Err
}
