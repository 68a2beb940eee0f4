/** The optional value used throughout the checker model. */
module Options {

  datatype Option<+T> = None | Some(value: T)
}
