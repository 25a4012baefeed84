/** Types shared by the components. */
module Wrappers {

  type byte = bv8

  datatype Option<+T> = None | Some(value: T)
}
