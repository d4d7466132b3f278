/** An optional value, for results that the floating-point code leaves undefined. */
module Wrappers {
  datatype Option<+T> = None | Some(value: T)
}
