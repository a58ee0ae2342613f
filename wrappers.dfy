/** Optional values and results with an error message, as returned by the modelled operations. */
module Wrappers {

  datatype Option<+T> = None | Some(value: T)

  /** `Err` stands for a Python exception that the source lets escape. */
  datatype Result<+T> = Ok(value: T) | Err(error: string)
}
