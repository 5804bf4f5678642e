/** Optional values. */
module Wrappers {

  /** A value that may be absent: stands for a JavaScript `T | undefined`,
      as returned by `Array.prototype.find`. */
  datatype Option<+T> = None | Some(value: T)
}
