/** The optional value used for "no match" and for absent syntax-tree properties. */
module Wrappers {
  datatype Option<+T> = None | Some(value: T)
}
