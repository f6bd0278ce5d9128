/** The optional value returned by an iterator's `find`. */
module Wrappers {

  datatype Option<+T> = None | Some(value: T)
}
