/** An optional value: a row that a query may or may not find, a session key that may be absent. */
module Wrappers {
  datatype Option<+T> = None | Some(value: T)
}
