/** The optional value used for dictionary lookups and running minima. */
module Options {
  datatype Option<T> = None | Some(value: T)
}
