/** Failure-carrying results shared by the hash engine and the collider. */
module Wrappers {

  /** A value that may be missing: Python's `None`, or an operation that raises. */
  datatype Option<+T> = None | Some(value: T)
}
