/** Option, for results that the C code signals with NULL. */
module Wrappers {

  datatype Option<+T> = None | Some(value: T)
}
