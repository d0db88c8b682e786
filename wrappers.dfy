/** The optional value used where the handler may or may not produce a result. */
module Wrappers {

  datatype Option<+T> = None | Some(value: T)
}
