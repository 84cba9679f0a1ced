/** The optional value used in place of a nil pointer, a zero time or a missing key. */
module Options {
  datatype Option<+T> = None | Some(value: T)
}
