/** The optional value used wherever the widget's code returns or stores a Swift optional. */
module Wrappers {
  datatype Option<+T> = None | Some(value: T)
}
