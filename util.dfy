/** Small wrapper types shared by the other modules. */
module Util {

  /** A value that may be absent. */
  datatype Option<+T> = None | Some(value: T)
}
