/** The optional value used for Python's "no result" cases. */
module Options {
  datatype Option<T> = None | Some(value: T)
}
