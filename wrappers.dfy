/** The optional value used wherever the source has a missing field or a failing step. */
module Wrappers {

  datatype Option<+T> = None | Some(value: T)
}
