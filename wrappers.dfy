/** The optional value used by the scanners when a search may find nothing. */
module Wrappers {

  datatype Option<+T> = None | Some(value: T)
}
