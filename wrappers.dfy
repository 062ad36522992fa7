/** Option, used for absent elements and for JavaScript's NaN. */
module Wrappers {
  datatype Option<+T> = None | Some(value: T)
}
