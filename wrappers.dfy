/** The optional value returned by the address parser. */
module Wrappers {

  datatype Option<+T> = None | Some(value: T)
}
