/** The Option type used for nullable host values and partial decoders. */
module Wrappers {
  datatype Option<+T> = None | Some(value: T)
}
