/** The usual optional value, used for the source's `None` and for failed parses. */
module Wrappers {

  datatype Option<+T> = None | Some(value: T)
}
