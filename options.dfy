/** The optional value used for error results throughout the model. */
module Options {
  datatype Option<T> = None | Some(value: T)
}
