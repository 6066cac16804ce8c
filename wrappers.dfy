/** The usual optional-value datatype, used wherever the Go code returns nil. */
module Wrappers {
  datatype Option<+T> = None | Some(value: T)
}
