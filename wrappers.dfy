/** Option and Result, the shapes used for JavaScript's `null` returns and thrown errors. */
module Wrappers {

  /** `null` (None) or a value (Some). */
  datatype Option<+T> = None | Some(value: T)

  /** A completed call (Ok) or a thrown `Error` carrying its message (Err). */
  datatype Result<+T> = Ok(value: T) | Err(message: string)
}
