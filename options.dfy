/** Java's nullable references, made explicit. */
module Options {
  datatype Option<+T> = None | Some(value: T)
}
