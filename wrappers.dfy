/** The optional value used wherever the source returns a pointer that may be NULL. */
module Wrappers {

  datatype Option<+T> = None | Some(value: T)

}
