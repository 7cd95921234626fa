/** The optional value the board uses where the source stores `None` or an object. */
module Optional {
  datatype Option<+T> = None | Some(value: T)
}
