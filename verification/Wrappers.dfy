/** The optional value used wherever the program returns nil, a missing map entry or nothing. */
module Wrappers {

  datatype Option<+T> = None | Some(value: T)
}
