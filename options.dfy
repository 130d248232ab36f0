/** The optional value used wherever the source has a nullable reference or a call that may fail. */
module Options {

  datatype Option<+T> = None | Some(value: T)
}
