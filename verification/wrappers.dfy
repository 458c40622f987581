/** The optional value used wherever the C++ code returns a null pointer or throws. */
module Wrappers {

  datatype Option<+T> = None | Some(value: T)
}
