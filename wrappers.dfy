/** The optional value used throughout the model for calls that either produce a
    result or fail (a Go `nil` pointer or a non-nil `error`). */
module Wrappers {

  datatype Option<+T> = None | Some(value: T)
}
