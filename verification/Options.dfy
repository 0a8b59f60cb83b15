/** An optional value: C's null pointers and failure returns. */
module Options {
  datatype Option<T> = None | Some(value: T)
}
