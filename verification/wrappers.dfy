/** The optional value used for "row found / row absent" answers. */
module Wrappers {

  datatype Option<+T> = None | Some(value: T)
}
