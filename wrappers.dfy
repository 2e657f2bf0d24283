/** The optional value that stands in for a nullable pointer (`NULL` or a record). */
module Wrappers {
  datatype Option<+T> = None | Some(value: T)
}
