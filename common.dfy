/** Small value types shared by both hash tables. */
module Common {

  /** An optional value: the source's `None` or a present value. */
  datatype Option<T> = None | Some(value: T)
}
