/** The optional value returned by lookups in the store. */
module Wrappers {

  datatype Option<+T> = None | Some(value: T)
}
