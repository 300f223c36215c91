/** A value that may be missing: a null pointer or an error return. */
module Options {
  datatype Option<T> = None | Some(value: T)
}
