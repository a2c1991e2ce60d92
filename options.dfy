/** Python's `Optional[T]`: `None` or a present value. */
module Options {

  datatype Option<+T> = None | Some(value: T)
}
