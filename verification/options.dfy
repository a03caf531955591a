/** The optional value used wherever the source reads a possibly-undefined field. */
module Options {

  datatype Option<+T> = None | Some(value: T)

}
