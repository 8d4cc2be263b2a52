/** The optional value used for the program's fatal paths. */
module Wrappers {

  datatype Option<+T> = None | Some(value: T)
}
