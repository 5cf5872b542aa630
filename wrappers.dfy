/** The optional value used for dictionary keys that may be missing and for decoders that may fail. */
module Wrappers {
  datatype Option<+T> = None | Some(value: T)
}
