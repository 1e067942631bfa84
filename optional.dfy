/** The usual Some/None datatype, standing for a C pointer that may be NULL. */
module Optional {
  datatype Option<+T> = None | Some(value: T)
}
