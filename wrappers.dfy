/** The optional-value datatype shared by the parsers. */
module Wrappers {

  datatype Option<+T> = None | Some(value: T)
}
