/** The optional value used where the source uses `null`. */
module Wrappers {

  datatype Option<+T> = None | Some(value: T)
}
