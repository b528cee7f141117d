/** A value that may be missing: a nil pointer, slice or error of the source. */
module Optional {
  datatype Option<T> = None | Some(value: T)
}
