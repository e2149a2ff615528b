/** Option and Result values shared by the modules of the load model. */
module Wrappers {

  /** A value that may be absent: the TSS loader's `None` / `''` sentinels. */
  datatype Option<+T> = None | Some(value: T)

  /** The value of a step that may raise. */
  datatype Result<+T, +E> = Success(value: T) | Failure(error: E)
}
