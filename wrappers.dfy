/** The optional value used wherever the source returns `None`, `null` or
    "no match" instead of a value. */
module Wrappers {

  datatype Option<+T> = None | Some(value: T)
}
