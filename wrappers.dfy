/** The optional value used for nullable columns and session state. */
module Wrappers {

  datatype Option<+T> = None | Some(value: T)
}
