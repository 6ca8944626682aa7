/** The conventional optional value, used where the C++ code returns a null pointer or a flag. */
module Wrappers {
  datatype Option<+T> = None | Some(value: T)
}
