/** An optional value, for results that can be missing. */
module Options {
  datatype Option<T> = None | Some(value: T)
}
