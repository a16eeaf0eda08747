/** The optional value used for absent request arguments and filters. */
module Wrappers {

  datatype Option<+T> = None | Some(value: T)
}
