/** The optional-value datatype used by the scanners and lookups. */
module Wrappers {

  datatype Option<+T> = None | Some(value: T)

}
