/** Go's `(value, error)` pairs use a nil-able error; Option stands in for it. */
module Wrappers {

  datatype Option<+T> = None | Some(value: T)
}
