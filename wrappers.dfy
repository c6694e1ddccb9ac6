/** A value that may be absent: a form field or JSON key that was not sent,
    or a query whose `.first()` found no row. */
module Wrappers {
  datatype Option<+T> = None | Some(value: T)
}
