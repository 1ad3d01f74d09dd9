/** A value that may be missing: a failed parse, a preview that cannot be
    built. */
module Wrappers {
  datatype Option<T> = None | Some(value: T)
}
