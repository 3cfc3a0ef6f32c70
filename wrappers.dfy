/** The optional value used wherever the importers work with Python's `None`. */
module Wrappers {

  datatype Option<+T> = None | Some(value: T)
}
