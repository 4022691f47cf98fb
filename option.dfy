/** A value that may be absent, such as Python's `None` or a failed parse. */
module Optional {
  datatype Option<T> = None | Some(value: T)
}
