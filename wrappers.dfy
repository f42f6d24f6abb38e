/** The optional value that `Array.prototype.find` returns: a value, or nothing. */
module Wrappers {
  datatype Option<+T> = None | Some(value: T)
}
