/** The optional value used wherever the C code signals "no value" with NULL or a 0 return. */
module Wrappers {
  datatype Option<+T> = None | Some(value: T)
}
