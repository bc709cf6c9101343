/** An optional value, used where the source returns `null` (a failed regex `exec`). */
module Wrappers {
  datatype Option<+T> = None | Some(value: T)
}
