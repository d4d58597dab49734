/** The optional result used where the Go code returns a nil-able `*T`. */
module Wrappers {

  datatype Option<+T> = None | Some(value: T)
}
