/** Optional values and results with an error message, the shapes the
    parser's `undefined` lookups and thrown errors take in this model. */
module Wrappers {

  datatype Option<T> = None | Some(value: T)

  /** `Err(message)` stands for a thrown `Error` carrying that message. */
  datatype Result<T> = Ok(value: T) | Err(message: string)
}
