/** The optional value used for attributes, parse results and exit codes. */
module Wrappers {

  datatype Option<T> = None | Some(value: T)
}
