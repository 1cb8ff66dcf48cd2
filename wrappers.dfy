/** The absent-or-present value used wherever the original code can see
    JavaScript `null` (a missing `localStorage` key, an out-of-range index). */
module Wrappers {

  datatype Option<+T> = None | Some(value: T)
}
