// A value that may be absent: a null pointer, or a field not set yet.
module Options {

  datatype Option<T> = None | Some(value: T)
}
