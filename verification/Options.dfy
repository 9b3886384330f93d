/** A value that may be absent: Go's nil pointers and nil slices. */
module Options {
  datatype Option<+T> = None | Some(value: T)
}
