/** An optional value, used for a per-line contribution to a list and for a
    report section that may be absent. */
module Wrappers {
  datatype Option<+T> = None | Some(value: T)
}
