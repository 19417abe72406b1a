/** The usual optional-value wrapper, used for "no match" results. */
module Wrappers {
  datatype Option<+T> = None | Some(value: T)
}
