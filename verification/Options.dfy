/** A value that may be absent: a NULL pointer, a failed search or an early return. */
module Options {
  datatype Option<+T> = None | Some(value: T)
}
