// A value that may be missing: Go's nil, or a comma-ok result.
module Wrappers {
  datatype Option<T> = None | Some(value: T)
}
