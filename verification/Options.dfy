/** A value, or the exception the source throws instead. */
module Options {
  datatype Option<T> = None | Some(value: T)
}
