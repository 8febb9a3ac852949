/** A value or the refusal to give one. */
module Options {
  datatype Option<+T> = None | Some(value: T)
}
