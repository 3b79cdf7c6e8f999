/** The optional value used where the source has `None` or an exception. */
module Options {
  datatype Option<T> = None | Some(value: T)
}
