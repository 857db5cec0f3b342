/** Python's `None`-or-value, used for nullable columns, optional form fields and lookups. */
module Wrappers {

  datatype Option<+T> = None | Some(value: T)
}
