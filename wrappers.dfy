/** Small failure-compatible wrapper shared by the other modules. */
module Wrappers {
  /** A value that may be missing: stands for a Go panic or a nil result. */
  datatype Option<+T> = None | Some(value: T)
}
