/** The conventional optional value, used for "no match" and "not found". */
module Wrappers {

  datatype Option<+T> = None | Some(value: T)

}
