/** The optional value the script gets back from `next(..., None)` and from
    an empty or non-empty filter. */
module Wrappers {
  datatype Option<+T> = None | Some(value: T)
}
