/** Values that may be missing, and computations that may fail. */
module Wrappers {
  datatype Option<+T> = None | Some(value: T)

  datatype Result<+T, +E> = Good(value: T) | Bad(error: E)
}
