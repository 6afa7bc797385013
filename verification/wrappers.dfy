/** The optional value used where the script returns `null` or leaves a variable `undefined`. */
module Wrappers {

  datatype Option<+T> = None | Some(value: T)
}
