/** A result that may be absent: the source's NULL, 0 or error return. */
module Options {
  datatype Option<T> = None | Some(value: T)
}
