/** The optional value used for the gain sentinel and for the child links of a node. */
module Wrappers {
  datatype Option<+T> = None | Some(value: T)
}
