/** The optional value used for a file whose content could not be read. */
module Wrappers {

  datatype Option<+T> = None | Some(value: T)
}
