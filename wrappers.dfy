/** The optional-value datatype used by the address parser. */
module Wrappers {

  datatype Option<+T> = None | Some(value: T)
}
