/** The optional value returned by the decoders of the model. */
module Options {
  datatype Option<+T> = None | Some(value: T)
}
