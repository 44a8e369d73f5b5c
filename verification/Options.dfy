/** Results that may be absent: the source's options, and its errors where only their
    presence matters. */
module Options {
  datatype Option<+T> = None | Some(value: T)
}
