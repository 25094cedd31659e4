/** The optional value used for every browser lookup that may fail. */
module Wrappers {

  datatype Option<+T> = None | Some(value: T)
}
