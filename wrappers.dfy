/** The optional value used for operations that can fail on malformed input. */
module Wrappers {
  datatype Option<+T> = None | Some(value: T)
}
