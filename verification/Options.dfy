// A value that may be missing. It stands for a C pointer that may be NULL.
module Options {
  datatype Option<+T> = None | Some(value: T)
}
