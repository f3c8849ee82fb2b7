/** The optional value that stands for JavaScript's `null` result. */
module Wrappers {

  datatype Option<+T> = None | Some(value: T)
}
