/** The optional value that stands for a possibly null pointer. */
module Options {
  datatype Option<+T> = None | Some(value: T)
}
