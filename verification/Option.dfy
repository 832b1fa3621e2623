/** The optional value that stands for C's NULL or "none" results. */
module Options {
  datatype Option<+T> = None | Some(value: T)
}
