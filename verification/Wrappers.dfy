// The result of something that may have none.

module Wrappers {
  datatype Option<+T> = None | Some(value: T)
}
