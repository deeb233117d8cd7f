/** The optional value used for a bucket's head and for the result of popping. */
module Options {
  datatype Option<T> = None | Some(value: T)
}
