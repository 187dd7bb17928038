/** The optional value used where the source reports "no more items" through a return flag. */
module Wrappers {
  datatype Option<+T> = None | Some(value: T)
}
