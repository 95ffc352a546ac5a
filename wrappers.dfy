/** The optional value used wherever the script works with `None`. */
module Wrappers {

  datatype Option<+T> = None | Some(value: T)
}
