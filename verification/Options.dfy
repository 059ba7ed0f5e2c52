/** The optional value used for Python's `None`-able fields and for parsers that can fail. */
module Options {
  datatype Option<+T> = None | Some(value: T)
}
