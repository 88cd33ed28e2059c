/** A value that may be missing: pandas returns NaN where this returns `None`. */
module Options {
  datatype Option<T> = None | Some(value: T)
}
