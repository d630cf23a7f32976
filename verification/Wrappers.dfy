/** A result that may be missing, for the error returns of the modelled programs. */
module Wrappers {

  datatype Option<T> = None | Some(value: T)
}
