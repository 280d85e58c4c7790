/** Option, the result of everything in the program that can fail to produce a value. */
module Wrappers {
  datatype Option<+T> = None | Some(value: T)
}
