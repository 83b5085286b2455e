/** The optional value used where the source has `undefined` or a conditional render. */
module Wrappers {

  datatype Option<+T> = None | Some(value: T)
}
