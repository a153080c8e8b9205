/** The optional value used for "no match" and for a regex group that did not participate. */
module Wrappers {
  datatype Option<+T> = None | Some(value: T)
}
