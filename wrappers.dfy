/** The Option type used for the source's "no value" and error outcomes. */
module Wrappers {
  datatype Option<+T> = None | Some(value: T)
}
