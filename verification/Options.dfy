/** A value that may be missing: Go's nil pointers, "ok" results and empty answers. */
module Options {

  datatype Option<T> = None | Some(value: T)
}
