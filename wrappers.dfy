/** The optional value used for "a receive that returned NULL" and similar. */
module Wrappers {

  datatype Option<+T> = None | Some(value: T)
}
