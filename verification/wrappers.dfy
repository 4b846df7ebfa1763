/** The optional value the scripts express with Python's None. */
module Wrappers {

  datatype Option<+T> = None | Some(value: T)
}
