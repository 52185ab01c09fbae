/** The optional value used where the source relies on `undefined` and `??`. */
module Wrappers {

  datatype Option<+T> = None | Some(value: T)
}
