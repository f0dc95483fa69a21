/** The optional value used where the Go code returns a `(value, ok)` pair
    or a possibly-nil pointer. */
module Wrappers {

  datatype Option<+T> = None | Some(value: T)
}
