/** The optional value used wherever the C++ has a null pointer, a missing key or a failed call. */
module Wrappers {
  datatype Option<+T> = None | Some(value: T)
}
