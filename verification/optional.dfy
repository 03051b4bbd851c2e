/** The usual Some/None wrapper, used for page elements that may be missing. */
module Optional {
  datatype Option<+T> = None | Some(value: T)
}
