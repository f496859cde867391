/** Optional values and results shared by every module of the model. */
module Wrappers {

  /** `None` stands for a C `NULL` pointer or an absent value. */
  datatype Option<+T> = None | Some(value: T)

  /** The outcome of an operation that reports failure through a `GError`. */
  datatype Result<+R, +E> = Ok(value: R) | Err(error: E)
}
