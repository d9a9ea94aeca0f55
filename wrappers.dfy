/** The Some/None wrapper used wherever the program returns `None` or skips a path
    after a failed remote call. */
module Wrappers {
  datatype Option<+T> = None | Some(value: T)
}
