/** The optional value used for the NULL pointers and absent arguments of the shell. */
module Wrappers {

  datatype Option<+T> = None | Some(value: T)
}
