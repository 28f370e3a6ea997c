/** The optional value returned by the lookups of the model (`findIndex`, `find`). */
module Wrappers {

  datatype Option<+T> = None | Some(value: T)
}
