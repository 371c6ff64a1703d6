/** The optional value used wherever the C code returns or accepts NULL. */
module Wrappers {

  datatype Option<+T> = None | Some(value: T)

}
