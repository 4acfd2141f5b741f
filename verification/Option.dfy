/** The optional value used by every module for Python's `None`. */
module Options {
  datatype Option<+T> = None | Some(value: T)
}
