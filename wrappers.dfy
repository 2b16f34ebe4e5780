/** The optional value used for empty ring-buffer slots and for a payload field that is missing or has the wrong type. */
module Wrappers {
  datatype Option<+T> = None | Some(value: T)
}
