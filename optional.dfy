/** A value that may be absent: a session key that has not been set yet. */
module Optional {
  datatype Option<T> = None | Some(value: T)
}
