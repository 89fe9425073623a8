/** Option, used wherever the source returns 0 or -1 for "nothing there". */
module Wrappers {
  datatype Option<+T> = None | Some(value: T)
}
