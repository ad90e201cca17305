module Options {
  // Go's pointer-or-nil results and fields.
  datatype Option<+T> = None | Some(value: T)
}
