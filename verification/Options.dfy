/** Results that may be absent and operations that may fail. */
module Options {

  datatype Option<+T> = None | Some(value: T)
}
