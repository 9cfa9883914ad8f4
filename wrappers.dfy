/** The optional value used for replies that carry no number. */
module Wrappers {

  datatype Option<+T> = None | Some(value: T)
}
