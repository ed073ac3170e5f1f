/** The optional value used for Python's `None` results and for a missing archive. */
module Wrappers {

  datatype Option<+T> = None | Some(value: T)

}
