/** The optional value used where the C code returns a possibly-NULL result or an index that may be rejected. */
module Wrappers {

  datatype Option<+T> = None | Some(value: T)
}
