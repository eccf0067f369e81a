/** The value-or-nothing type that stands for the source's `null` and `undefined`. */
module Option {
  datatype Option<+T> = None | Some(value: T)
}
