/** Python's `None` or a value, as the formatters and the match scanner return it. */
module Wrappers {

  datatype Option<+T> = None | Some(value: T)
}
