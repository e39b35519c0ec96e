/** The optional value used wherever the source may have nothing to return. */
module Options {

  datatype Option<+T> = None | Some(value: T)
}
